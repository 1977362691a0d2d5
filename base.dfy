/** Failure-carrying wrappers shared by every module of the model. */
module Base {

  datatype Option<+T> = None | Some(value: T)

  /** The outcome of an operation that may raise: a value or the error it raised. */
  datatype Result<+T, +E> = Ok(value: T) | Err(error: E)

  /**
   * The outcomes of a sequence of steps taken in order, as a loop that appends
   * each value to a list takes them: every value when all succeed, otherwise
   * the error of the first step that fails.
   */
  function Collect<T, E>(rs: seq<Result<T, E>>): Result<seq<T>, E>
    decreases |rs|
  {
    if rs == [] then Ok([])
    else
      match Collect(rs[..|rs| - 1])
      case Err(x) => Err(x)
      case Ok(vs) =>
        match rs[|rs| - 1]
        case Err(x) => Err(x)
        case Ok(v) => Ok(vs + [v])
  }

  /**
   * What `Collect` gives: success exactly when every step succeeds, and then
   * the values in step order; on failure, the error of a step before which
   * every step succeeded.
   */
  lemma {:induction false} CollectSpec<T, E>(rs: seq<Result<T, E>>)
    ensures Collect(rs).Ok? <==> forall k :: 0 <= k < |rs| ==> rs[k].Ok?
    ensures Collect(rs).Ok? ==>
              |Collect(rs).value| == |rs| && forall k :: 0 <= k < |rs| ==> rs[k] == Ok(Collect(rs).value[k])
    ensures Collect(rs).Err? ==>
              exists k :: 0 <= k < |rs| && rs[k] == Err(Collect(rs).error) &&
                          forall j :: 0 <= j < k ==> rs[j].Ok?
    decreases |rs|
  {
    if rs != [] {
      var n := |rs| - 1;
      var front := rs[..n];
      CollectSpec(front);
      assert forall k :: 0 <= k < n ==> front[k] == rs[k];
      match Collect(front)
      case Err(x) =>
        var k :| 0 <= k < n && front[k] == Err(x) && forall j :: 0 <= j < k ==> front[j].Ok?;
        assert rs[k] == Err(x);
      case Ok(vs) =>
        match rs[n]
        case Err(x) =>
        case Ok(v) =>
          assert forall k :: 0 <= k < n ==> (vs + [v])[k] == vs[k];
    }
  }

  /** The first failure decides: when all steps before `i` succeed and step `i` fails with `x`, so does the whole. */
  lemma FirstErrorDecides<T, E>(rs: seq<Result<T, E>>, i: nat, x: E)
    requires i < |rs| && rs[i] == Err(x)
    requires forall k :: 0 <= k < i ==> rs[k].Ok?
    ensures Collect(rs) == Err(x)
  {
    CollectSpec(rs);
    var k :| 0 <= k < |rs| && rs[k] == Err(Collect(rs).error) && forall j :: 0 <= j < k ==> rs[j].Ok?;
  }

  /** Once a prefix of the steps fails, later steps change nothing. */
  lemma {:induction false} CollectStops<T, E>(rs: seq<Result<T, E>>, n: nat)
    requires n <= |rs| && Collect(rs[..n]).Err?
    ensures Collect(rs) == Collect(rs[..n])
    decreases |rs| - n
  {
    if n < |rs| {
      assert rs[..n + 1][..n] == rs[..n];
      CollectStops(rs, n + 1);
    } else {
      assert rs[..n] == rs;
    }
  }

  /** A prefix one step longer is the shorter prefix and the next element. */
  lemma PrefixSnoc<T>(s: seq<T>, i: nat)
    requires i < |s|
    ensures s[..i + 1] == s[..i] + [s[i]] && s[..i + 1][..i] == s[..i]
  {
  }
}
