/**
 * The upload form (components/VideoInputForm.tsx): the selected file, the
 * list of inspiration reels capped at three by the add control, the upload
 * handler's gating, and the button's enabled state and label. The calls the
 * upload handler makes outward (`onSubmit` and the save-reels POST) are
 * recorded in order; the POST's response and the signed-in user are inputs.
 */
module VideoInputForm {
  import opened Base

  const MaxReels := 3

  datatype File = File(name: string)
  datatype Reel = Reel(url: string)

  /** One call of `onSubmit(file, reels)`. */
  datatype Submission = Submission(file: File, reels: seq<Reel>)

  /** The body of one save-reels POST. */
  datatype SaveRequest = SaveRequest(userId: string, reels: seq<Reel>)

  /** `reels.filter((_, i) => i !== index)`. */
  function Without(reels: seq<Reel>, index: int): seq<Reel>
    decreases |reels|
  {
    if reels == [] then []
    else
      var n := |reels| - 1;
      var front := Without(reels[..n], index);
      if n == index then front else front + [reels[n]]
  }

  /** Removing deletes exactly the entry at `index` and keeps the others in order; any other index changes nothing. */
  lemma {:induction false} WithoutSpec(reels: seq<Reel>, index: int)
    ensures 0 <= index < |reels| ==> Without(reels, index) == reels[..index] + reels[index + 1..]
    ensures !(0 <= index < |reels|) ==> Without(reels, index) == reels
    decreases |reels|
  {
    if reels != [] {
      var n := |reels| - 1;
      WithoutSpec(reels[..n], index);
      if 0 <= index < n {
        assert reels[..n][..index] == reels[..index];
        assert reels[..n][index + 1..] + [reels[n]] == reels[index + 1..];
      } else if index == n {
        assert reels[..n] == reels[..index] && reels[index + 1..] == [];
      } else {
        assert reels[..n] + [reels[n]] == reels;
      }
    }
  }

  /** The upload button is disabled without a file or while uploading or processing. */
  predicate UploadDisabled(hasFile: bool, isUploading: bool, isProcessing: bool) {
    !hasFile || isUploading || isProcessing
  }

  /** The upload button's label: uploading first, then processing, then the call to action. */
  function UploadLabel(isUploading: bool, isProcessing: bool): string {
    if isUploading then "Uploading..." else if isProcessing then "Processing..." else "Upload and Process"
  }

  /**
   * The label and the button agree: any label but the call to action shows
   * on a disabled button, and with a file chosen the call to action shows
   * exactly when the button is enabled.
   */
  lemma UploadLabelMatchesButton(hasFile: bool, isUploading: bool, isProcessing: bool)
    ensures UploadLabel(isUploading, isProcessing) != "Upload and Process" ==> UploadDisabled(hasFile, isUploading, isProcessing)
    ensures hasFile ==> (UploadLabel(isUploading, isProcessing) == "Upload and Process" <==> !UploadDisabled(hasFile, isUploading, isProcessing))
  {
  }

  class Form {
    var file: Option<File>
    var reels: seq<Reel>
    var submissions: seq<Submission>
    var saveRequests: seq<SaveRequest>

    constructor ()
      ensures file.None? && reels == [] && submissions == [] && saveRequests == []
    {
      file := None;
      reels := [];
      submissions := [];
      saveRequests := [];
    }

    /** The list the form can reach through its controls has at most three reels. */
    predicate Valid()
      reads this
    {
      |reels| <= MaxReels
    }

    /** The add control is rendered only while there are fewer than three reels. */
    predicate AddOffered()
      reads this
    {
      |reels| < MaxReels
    }

    /** A file chosen in the file input replaces the selection; an empty choice keeps it. */
    method HandleFileChange(files: seq<File>)
      modifies this
      ensures file == if |files| > 0 then Some(files[0]) else old(file)
      ensures reels == old(reels) && submissions == old(submissions) && saveRequests == old(saveRequests)
    {
      if |files| > 0 {
        file := Some(files[0]);
      }
    }

    /** Appends an empty reel and leaves the existing ones unchanged. */
    method HandleAddReel()
      modifies this
      ensures reels == old(reels) + [Reel("")]
      ensures file == old(file) && submissions == old(submissions) && saveRequests == old(saveRequests)
    {
      reels := reels + [Reel("")];
    }

    /** A click on the add control, which exists only while it is offered, keeps the list within three. */
    method ClickAddReel()
      requires Valid() && AddOffered()
      modifies this
      ensures Valid() && |reels| == |old(reels)| + 1 && reels[..|old(reels)|] == old(reels)
      ensures file == old(file) && submissions == old(submissions) && saveRequests == old(saveRequests)
    {
      HandleAddReel();
      assert reels[..|old(reels)|] == old(reels);
    }

    method HandleRemoveReel(index: int)
      requires Valid()
      modifies this
      ensures reels == Without(old(reels), index) && Valid()
      ensures file == old(file) && submissions == old(submissions) && saveRequests == old(saveRequests)
    {
      WithoutSpec(reels, index);
      reels := Without(reels, index);
    }

    /** Replaces the URL of the entry at `index` (an entry the form renders), keeping the others and the length. */
    method HandleReelUrlChange(index: nat, url: string)
      requires index < |reels| && Valid()
      modifies this
      ensures reels == old(reels)[index := Reel(url)] && Valid()
      ensures file == old(file) && submissions == old(submissions) && saveRequests == old(saveRequests)
    {
      var updatedReels := reels;
      updatedReels := updatedReels[index := Reel(url)];
      reels := updatedReels;
    }

    /**
     * Without a file nothing happens. With one, `onSubmit` is called first;
     * the save-reels POST is sent only when a user is signed in.
     */
    method HandleUpload(currentUser: Option<string>)
      modifies this
      ensures file == old(file) && reels == old(reels)
      ensures submissions == if old(file).Some? then old(submissions) + [Submission(old(file).value, old(reels))]
                             else old(submissions)
      ensures saveRequests == if old(file).Some? && currentUser.Some?
                              then old(saveRequests) + [SaveRequest(currentUser.value, old(reels))]
                              else old(saveRequests)
    {
      if file.Some? {
        submissions := submissions + [Submission(file.value, reels)];
        if currentUser.None? {
          return;
        }
        saveRequests := saveRequests + [SaveRequest(currentUser.value, reels)];
      }
    }

    /** A click on the enabled upload button always reaches `onSubmit` with the selected file and the reels. */
    method ClickUpload(isUploading: bool, isProcessing: bool, currentUser: Option<string>)
      requires !UploadDisabled(file.Some?, isUploading, isProcessing)
      modifies this
      ensures file == old(file) && reels == old(reels)
      ensures submissions == old(submissions) + [Submission(file.value, reels)]
      ensures |saveRequests| == |old(saveRequests)| + (if currentUser.Some? then 1 else 0)
    {
      HandleUpload(currentUser);
    }
  }
}
