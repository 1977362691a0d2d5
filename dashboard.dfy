/**
 * The dashboard (components/Dashboard.tsx): the status colour of a video
 * card, the link formatting of an inspiration card, the inspiration-link
 * input, and the loading, redirect and render rules. The sign-in state is an
 * input; fetching the saved links is not modelled.
 */
module Dashboard {
  import opened Text

  /** The colour class of a status label. */
  function StatusColor(status: string): string {
    if status == "Completed" then "text-green-500"
    else if status == "Processing" then "text-yellow-500"
    else "text-red-500"
  }

  /**
   * Two statuses get the same colour exactly when they are the same known
   * status or both unknown: the colour tells "Completed", "Processing" and
   * every other status apart.
   */
  lemma StatusColorsDistinct(s: string, t: string)
    ensures StatusColor(s) == StatusColor(t) <==>
              s == t || (s != "Completed" && s != "Processing" && t != "Completed" && t != "Processing")
  {
  }

  predicate HasScheme(url: string) {
    StartsWith(url, "http://") || StartsWith(url, "https://")
  }

  /** The link target: the URL as given when it has a scheme, otherwise `https://` before it. */
  function FormattedUrl(url: string): (r: string)
    ensures HasScheme(r)
  {
    if HasScheme(url) then url
    else
      assert ("https://" + url)[..8] == "https://";
      "https://" + url
  }

  /** Formatting keeps a URL that has a scheme, prefixes every other one, and doing it twice changes nothing more. */
  lemma FormattedUrlSpec(url: string)
    ensures HasScheme(url) ==> FormattedUrl(url) == url
    ensures !HasScheme(url) ==> FormattedUrl(url) == "https://" + url
    ensures FormattedUrl(FormattedUrl(url)) == FormattedUrl(url)
  {
  }

  /** `useAuth()`'s user: not yet known (`undefined`), signed out (`null`), or signed in. */
  datatype AuthUser = Unknown | SignedOut | SignedIn(uid: string)

  datatype InspoLink = InspoLink(id: string, reelUrl: string)

  /** What the component renders. */
  datatype View = Spinner | Blank | Page

  function Render(isLoading: bool, user: AuthUser): View {
    if isLoading then Spinner else if !user.SignedIn? then Blank else Page
  }

  /** The redirect effect's condition: loading is over and nobody is signed in. */
  predicate RedirectsToLogin(isLoading: bool, user: AuthUser) {
    !isLoading && !user.SignedIn?
  }

  /**
   * What is rendered agrees with the redirect: the page stays blank exactly
   * when the browser is being sent to `/login`, the page itself shows only
   * for a signed-in user, and the spinner never redirects.
   */
  lemma RenderAgreesWithRedirect(isLoading: bool, user: AuthUser)
    ensures Render(isLoading, user) == Blank <==> RedirectsToLogin(isLoading, user)
    ensures Render(isLoading, user) == Page ==> user.SignedIn? && !isLoading
    ensures Render(isLoading, user) == Spinner ==> !RedirectsToLogin(isLoading, user)
  {
  }

  class DashboardState {
    var user: AuthUser
    var isLoading: bool
    var newInspoLink: string
    var inspoLinks: seq<InspoLink>
    /** The routes pushed, in order. */
    var routes: seq<string>

    constructor (u: AuthUser)
      ensures user == u && isLoading && newInspoLink == "" && inspoLinks == [] && routes == []
    {
      user := u;
      isLoading := true;
      newInspoLink := "";
      inspoLinks := [];
      routes := [];
    }

    /** Typing in the link input. */
    method SetNewInspoLink(text: string)
      modifies this
      ensures newInspoLink == text
      ensures user == old(user) && isLoading == old(isLoading) && inspoLinks == old(inspoLinks) && routes == old(routes)
    {
      newInspoLink := text;
    }

    /** The add button clears the input and does not touch the saved links. */
    method HandleAddInspoLink()
      modifies this
      ensures newInspoLink == ""
      ensures user == old(user) && isLoading == old(isLoading) && inspoLinks == old(inspoLinks) && routes == old(routes)
    {
      newInspoLink := "";
    }

    /** The effect on `user`: once the user is known, loading ends. */
    method UserKnownEffect()
      modifies this
      ensures isLoading == (old(isLoading) && user.Unknown?)
      ensures user == old(user) && newInspoLink == old(newInspoLink) && inspoLinks == old(inspoLinks) && routes == old(routes)
    {
      if !user.Unknown? {
        isLoading := false;
      }
    }

    /** The redirect effect: not loading and nobody signed in sends the browser to `/login`. */
    method RedirectEffect()
      modifies this
      ensures routes == if RedirectsToLogin(isLoading, user) then old(routes) + ["/login"] else old(routes)
      ensures user == old(user) && isLoading == old(isLoading) && newInspoLink == old(newInspoLink)
      ensures inspoLinks == old(inspoLinks)
    {
      if RedirectsToLogin(isLoading, user) {
        routes := routes + ["/login"];
      }
    }
  }

  /**
   * A visit once `useAuth()` has settled on `user`: the user effect and then
   * the redirect effect run, and the component renders. A signed-in user sees
   * the page and stays; a signed-out one sees nothing and is sent to
   * `/login`; while the user is still unknown the spinner shows and nothing
   * is pushed.
   */
  method Visit(user: AuthUser) returns (view: View, routes: seq<string>)
    ensures user.SignedIn? ==> view == Page && routes == []
    ensures user.SignedOut? ==> view == Blank && routes == ["/login"]
    ensures user.Unknown? ==> view == Spinner && routes == []
  {
    var d := new DashboardState(user);
    d.UserKnownEffect();
    d.RedirectEffect();
    view := Render(d.isLoading, d.user);
    routes := d.routes;
  }
}
