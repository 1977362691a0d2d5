/**
 * The auto-cropping Lambda (auto_cropper.py): gathering face rectangles
 * without duplicates, the crop-window arithmetic, the frame loop that writes
 * one cropped frame per face, and the handler that assembles one result per
 * analysed segment into a 200 or 500 envelope. The face detector, the video
 * reader and writer, speech recognition, the chat-completion call and S3 are
 * not modelled: their results or failures are inputs.
 */
module AutoCropper {
  import opened Base
  import opened Text
  import opened JsonValue

  /** A face rectangle `(x, y, w, h)` as the detector reports it. */
  datatype Rect = Rect(x: int, y: int, w: int, h: int)

  /** A crop region `frame[y:y2, x:x2]`. */
  datatype Window = Window(x: int, y: int, x2: int, y2: int)

  /** The frame size and the target size computed from it (lines 33-36). */
  datatype Dims = Dims(frameWidth: int, frameHeight: int, targetWidth: int, targetHeight: int)

  /** The exceptions the handler catches. */
  datatype PyError =
    | KeyError(key: string)  // a missing dictionary key; `str(e)` is the key in quotes
    | TypeError              // a subscript on a non-dict, `len(None)`, `basename` of a non-string
    | CvError                // `cv2.resize` of an empty region
    | Raised(message: string) // an exception raised by a call the model does not perform

  const MaxFaces := 5

  // ---------------------------------------------------------------------------
  // detect_faces (lines 14-28)
  // ---------------------------------------------------------------------------

  /** The faces held after appending every detection of one frame that is not held already. */
  function AddNew(faces: seq<Rect>, detected: seq<Rect>): seq<Rect>
    decreases |detected|
  {
    if detected == [] then faces
    else
      var held := AddNew(faces, detected[..|detected| - 1]);
      var face := detected[|detected| - 1];
      if face in held then held else held + [face]
  }

  /** Frames are read while fewer than five faces are held and a frame remains. */
  function Gathered(faces: seq<Rect>, frames: seq<seq<Rect>>): seq<Rect>
    decreases |frames|
  {
    if |faces| >= MaxFaces || frames == [] then faces
    else Gathered(AddNew(faces, frames[0]), frames[1..])
  }

  /** What `detect_faces` returns: the faces gathered, or `None` when there are none. */
  function DetectedFaces(frames: seq<seq<Rect>>): Option<seq<Rect>> {
    var faces := Gathered([], frames);
    if |faces| > 0 then Some(faces) else None
  }

  /** `detect_faces`, with the detector's output for each frame the capture yields as input. */
  method DetectFaces(frames: seq<seq<Rect>>) returns (r: Option<seq<Rect>>)
    ensures r == DetectedFaces(frames)
  {
    var faces: seq<Rect> := [];
    var next := 0;
    while |faces| < MaxFaces && next < |frames|
      invariant 0 <= next <= |frames|
      invariant Gathered(faces, frames[next..]) == Gathered([], frames)
      decreases |frames| - next
    {
      var detected := frames[next];
      assert frames[next..][1..] == frames[next + 1..];
      ghost var before := faces;
      for k := 0 to |detected|
        invariant faces == AddNew(before, detected[..k])
      {
        assert detected[..k + 1][..k] == detected[..k];
        if detected[k] !in faces {
          faces := faces + [detected[k]];
        }
      }
      assert detected[..|detected|] == detected;
      next := next + 1;
    }
    if |faces| > 0 {
      r := Some(faces);
    } else {
      r := None;
    }
  }

  predicate NoDuplicates(faces: seq<Rect>) {
    forall i, j :: 0 <= i < j < |faces| ==> faces[i] != faces[j]
  }

  /** The detections of the given frames, frame after frame and within a frame in the detector's order. */
  function Detections(frames: seq<seq<Rect>>): seq<Rect>
    decreases |frames|
  {
    if frames == [] then [] else frames[0] + Detections(frames[1..])
  }

  /** The position of the first detection of `f`. */
  function FirstSeen(s: seq<Rect>, f: Rect): (p: nat)
    requires f in s
    ensures p < |s| && s[p] == f && f !in s[..p]
    decreases |s|
  {
    if s[0] == f then 0
    else
      var q := FirstSeen(s[1..], f);
      assert s[..q + 1] == [s[0]] + s[1..][..q];
      q + 1
  }

  /** The faces of `g` from position `from` on appear in `stream`, in the order of their first appearance there. */
  predicate InFirstSeenOrder(g: seq<Rect>, from: nat, stream: seq<Rect>) {
    forall i, j :: from <= i < j < |g| ==>
      g[i] in stream && g[j] in stream && FirstSeen(stream, g[i]) < FirstSeen(stream, g[j])
  }

  /** A detection's first position is the same in any extension of the detections. */
  lemma FirstSeenPrefix(a: seq<Rect>, b: seq<Rect>, f: Rect)
    requires f in a
    ensures FirstSeen(a + b, f) == FirstSeen(a, f)
  {
    var p := FirstSeen(a, f);
    var q := FirstSeen(a + b, f);
    forall k | 0 <= k < p
      ensures (a + b)[k] != f
    {
      assert a[..p][k] == a[k];
    }
    assert (a + b)[p] == a[p];
    forall k | 0 <= k < q
      ensures (a + b)[k] != f
    {
      assert (a + b)[..q][k] == (a + b)[k];
    }
  }

  /** The membership half of AddNewSpec, by induction on the detections. */
  lemma {:induction false} AddNewMembers(faces: seq<Rect>, detected: seq<Rect>)
    ensures var r := AddNew(faces, detected);
            |r| >= |faces| && r[..|faces|] == faces &&
            (NoDuplicates(faces) ==> NoDuplicates(r)) &&
            (forall f :: f in r <==> f in faces || f in detected) &&
            (forall i :: |faces| <= i < |r| ==> r[i] !in faces && r[i] in detected)
    decreases |detected|
  {
    if detected != [] {
      var front := detected[..|detected| - 1];
      AddNewMembers(faces, front);
      var held := AddNew(faces, front);
      var face := detected[|detected| - 1];
      assert detected == front + [face];
      if face !in held {
        assert (held + [face])[..|faces|] == held[..|faces|];
      }
    }
  }

  /** The order half of AddNewSpec, by induction on the detections. */
  lemma {:induction false} AddNewOrder(faces: seq<Rect>, detected: seq<Rect>)
    ensures InFirstSeenOrder(AddNew(faces, detected), |faces|, detected)
    decreases |detected|
  {
    if detected != [] {
      var front := detected[..|detected| - 1];
      AddNewOrder(faces, front);
      AddNewMembers(faces, front);
      var held := AddNew(faces, front);
      var face := detected[|detected| - 1];
      assert detected == front + [face];
      var r := AddNew(faces, detected);
      forall i | |faces| <= i < |held|
        ensures FirstSeen(detected, held[i]) == FirstSeen(front, held[i])
      {
        FirstSeenPrefix(front, [face], held[i]);
      }
      if face !in held {
        assert r == held + [face];
        forall k | 0 <= k < |front|
          ensures detected[k] != face
        {
          assert detected[k] == front[k];
        }
        forall i, j | |faces| <= i < j < |r|
          ensures FirstSeen(detected, r[i]) < FirstSeen(detected, r[j])
        {
          if j == |held| {
            assert r[i] == held[i];
          }
        }
      }
    }
  }

  /**
   * Appending keeps the faces already held, in place, and after them puts
   * each detected face not yet held exactly once, in the order of its first
   * detection: no duplicate is added, and the faces held afterwards are
   * exactly those held before or detected.
   */
  lemma AddNewSpec(faces: seq<Rect>, detected: seq<Rect>)
    ensures var r := AddNew(faces, detected);
            |r| >= |faces| && r[..|faces|] == faces &&
            (NoDuplicates(faces) ==> NoDuplicates(r)) &&
            (forall f :: f in r <==> f in faces || f in detected) &&
            (forall i :: |faces| <= i < |r| ==> r[i] !in faces && r[i] in detected) &&
            InFirstSeenOrder(r, |faces|, detected)
  {
    AddNewMembers(faces, detected);
    AddNewOrder(faces, detected);
  }

  /** Appending the detections of `a` and then of `b` is appending those of `a + b`. */
  lemma {:induction false} AddNewAppend(faces: seq<Rect>, a: seq<Rect>, b: seq<Rect>)
    ensures AddNew(faces, a + b) == AddNew(AddNew(faces, a), b)
    decreases |b|
  {
    if b == [] {
      assert a + b == a;
    } else {
      assert (a + b)[..|a + b| - 1] == a + b[..|b| - 1];
      AddNewAppend(faces, a, b[..|b| - 1]);
    }
  }

  /** Appending adds at most one face per detection. */
  lemma {:induction false} AddNewLength(faces: seq<Rect>, detected: seq<Rect>)
    ensures |AddNew(faces, detected)| <= |faces| + |detected|
    decreases |detected|
  {
    if detected != [] {
      AddNewLength(faces, detected[..|detected| - 1]);
    }
  }

  /** The detections of the first `m` frames come first among the detections of all frames. */
  lemma {:induction false} DetectionsPrefix(frames: seq<seq<Rect>>, m: nat)
    requires m <= |frames|
    ensures Detections(frames) == Detections(frames[..m]) + Detections(frames[m..])
    decreases m
  {
    if m > 0 {
      DetectionsPrefix(frames[1..], m - 1);
      assert frames[..m][1..] == frames[1..][..m - 1];
      assert frames[m..] == frames[1..][m - 1..];
    } else {
      assert frames[m..] == frames;
    }
  }

  /**
   * `detect_faces` reads the frames in order and stops before the end only
   * once five faces are held; what it holds is what appending the detections
   * of the frames it read gives.
   */
  lemma {:induction false} GatheredPrefix(faces: seq<Rect>, frames: seq<seq<Rect>>)
    ensures exists m :: 0 <= m <= |frames| &&
              Gathered(faces, frames) == AddNew(faces, Detections(frames[..m])) &&
              (m < |frames| ==> |Gathered(faces, frames)| >= MaxFaces)
    decreases |frames|
  {
    if |faces| >= MaxFaces || frames == [] {
      assert frames[..0] == [] && Detections(frames[..0]) == [];
    } else {
      var next := AddNew(faces, frames[0]);
      GatheredPrefix(next, frames[1..]);
      var m :| 0 <= m <= |frames[1..]| &&
                Gathered(next, frames[1..]) == AddNew(next, Detections(frames[1..][..m])) &&
                (m < |frames[1..]| ==> |Gathered(next, frames[1..])| >= MaxFaces);
      assert frames[..m + 1][1..] == frames[1..][..m];
      assert Detections(frames[..m + 1]) == frames[0] + Detections(frames[1..][..m]);
      AddNewAppend(faces, frames[0], Detections(frames[1..][..m]));
    }
  }

  /**
   * The faces gathered after the ones held at the start come in the order
   * of their first detection: by frame, and within a frame by the detector's order.
   */
  lemma GatheredOrder(faces: seq<Rect>, frames: seq<seq<Rect>>)
    ensures InFirstSeenOrder(Gathered(faces, frames), |faces|, Detections(frames))
  {
    GatheredPrefix(faces, frames);
    var g := Gathered(faces, frames);
    var m :| 0 <= m <= |frames| && g == AddNew(faces, Detections(frames[..m])) &&
              (m < |frames| ==> |g| >= MaxFaces);
    var read := Detections(frames[..m]);
    AddNewSpec(faces, read);
    DetectionsPrefix(frames, m);
    forall i | |faces| <= i < |g|
      ensures g[i] in Detections(frames) && FirstSeen(Detections(frames), g[i]) == FirstSeen(read, g[i])
    {
      FirstSeenPrefix(read, Detections(frames[m..]), g[i]);
    }
  }

  /**
   * The five-face limit is tested only between frames: when no frame has more
   * than `n` detections, at most four faces plus one frame's worth are held.
   */
  lemma {:induction false} GatheredBound(faces: seq<Rect>, frames: seq<seq<Rect>>, n: nat)
    requires forall k :: 0 <= k < |frames| ==> |frames[k]| <= n
    ensures |Gathered(faces, frames)| <= Max(|faces|, MaxFaces - 1 + n)
    decreases |frames|
  {
    if !(|faces| >= MaxFaces || frames == []) {
      AddNewLength(faces, frames[0]);
      GatheredBound(AddNew(faces, frames[0]), frames[1..], n);
    }
  }

  /** The membership half of GatheredSpec, by induction on the frames. */
  lemma {:induction false} GatheredMembers(faces: seq<Rect>, frames: seq<seq<Rect>>)
    requires NoDuplicates(faces)
    ensures var g := Gathered(faces, frames);
            NoDuplicates(g) && |g| >= |faces| && g[..|faces|] == faces &&
            (forall f :: f in g ==> f in faces || exists i :: 0 <= i < |frames| && f in frames[i]) &&
            (|g| < MaxFaces ==> forall i, f :: 0 <= i < |frames| && f in frames[i] ==> f in g)
    decreases |frames|
  {
    if !(|faces| >= MaxFaces || frames == []) {
      var next := AddNew(faces, frames[0]);
      AddNewSpec(faces, frames[0]);
      GatheredMembers(next, frames[1..]);
      var g := Gathered(faces, frames);
      assert g == Gathered(next, frames[1..]);
      assert g[..|faces|] == g[..|next|][..|faces|];
      forall f | f in g && f !in faces
        ensures exists i :: 0 <= i < |frames| && f in frames[i]
      {
        if f in frames[0] {
          assert 0 < |frames| && f in frames[0];
        } else {
          assert f !in next;
          var i :| 0 <= i < |frames[1..]| && f in frames[1..][i];
          assert f in frames[i + 1];
        }
      }
      if |g| < MaxFaces {
        forall i, f | 0 <= i < |frames| && f in frames[i]
          ensures f in g
        {
          if i == 0 {
            assert f in next;
            assert g[..|next|] == next;
            assert f in g[..|next|];
          } else {
            assert f in frames[1..][i - 1];
          }
        }
      }
    }
  }

  /**
   * The faces `detect_faces` gathers: no duplicates, each taken from some
   * frame, the new ones after the held ones in the order of their first
   * detection; and when fewer than five were gathered, every frame was read
   * and every face of every frame is among them.
   */
  lemma GatheredSpec(faces: seq<Rect>, frames: seq<seq<Rect>>)
    requires NoDuplicates(faces)
    ensures var g := Gathered(faces, frames);
            NoDuplicates(g) && |g| >= |faces| && g[..|faces|] == faces &&
            (forall f :: f in g ==> f in faces || exists i :: 0 <= i < |frames| && f in frames[i]) &&
            InFirstSeenOrder(g, |faces|, Detections(frames)) &&
            (|g| < MaxFaces ==> forall i, f :: 0 <= i < |frames| && f in frames[i] ==> f in g)
  {
    GatheredMembers(faces, frames);
    GatheredOrder(faces, frames);
  }

  /** Nothing is gathered exactly when no frame has a face. */
  lemma {:induction false} NothingGathered(frames: seq<seq<Rect>>)
    ensures Gathered([], frames) == [] <==> forall i :: 0 <= i < |frames| ==> frames[i] == []
    decreases |frames|
  {
    if frames != [] {
      if frames[0] == [] {
        assert AddNew([], frames[0]) == [];
        NothingGathered(frames[1..]);
        assert forall i :: 1 <= i < |frames| ==> frames[i] == frames[1..][i - 1];
      } else {
        var next := AddNew([], frames[0]);
        AddNewSpec([], frames[0]);
        GatheredSpec(next, frames[1..]);
        assert frames[0][0] in next;
      }
    }
  }

  /** `detect_faces` returns `None` exactly when no frame has a face, and never an empty list. */
  lemma NoneIffNoFaces(frames: seq<seq<Rect>>)
    ensures DetectedFaces(frames).None? <==> forall i :: 0 <= i < |frames| ==> frames[i] == []
    ensures DetectedFaces(frames).Some? ==> |DetectedFaces(frames).value| > 0
  {
    NothingGathered(frames);
  }

  /** One frame with six different faces leaves six faces: the limit of five is checked only between frames. */
  lemma OneFramePastFive()
    ensures var six := [Rect(0, 0, 1, 1), Rect(1, 0, 1, 1), Rect(2, 0, 1, 1), Rect(3, 0, 1, 1), Rect(4, 0, 1, 1), Rect(5, 0, 1, 1)];
            DetectedFaces([six]) == Some(six)
  {
    var six := [Rect(0, 0, 1, 1), Rect(1, 0, 1, 1), Rect(2, 0, 1, 1), Rect(3, 0, 1, 1), Rect(4, 0, 1, 1), Rect(5, 0, 1, 1)];
    assert six[..0] == [];
    assert six[..1] == [six[0]] && six[..1][..0] == [];
    assert six[..2][..1] == six[..1];
    assert six[..3][..2] == six[..2];
    assert six[..4][..3] == six[..3];
    assert six[..5][..4] == six[..4];
    assert six[..6][..5] == six[..5];
    assert AddNew([], six[..1]) == six[..1];
    assert AddNew([], six[..2]) == six[..2];
    assert AddNew([], six[..3]) == six[..3];
    assert AddNew([], six[..4]) == six[..4];
    assert AddNew([], six[..5]) == six[..5];
    assert AddNew([], six) == six;
    var frames := [six];
    assert frames[1..] == [];
  }

  // ---------------------------------------------------------------------------
  // crop_video (lines 30-53)
  // ---------------------------------------------------------------------------

  function Max(a: int, b: int): int { if a >= b then a else b }
  function Min(a: int, b: int): int { if a <= b then a else b }

  /**
   * The crop region for one face: centred on the face, moved right or down to
   * stay at or after the frame's origin, then cut at the frame's far edge.
   * Python's `//` floors; Dafny's `/` by the positive 2 floors too.
   */
  function CropWindow(face: Rect, d: Dims): (w: Window)
    ensures w.x >= 0 && w.y >= 0
    ensures w.x2 <= d.frameWidth && w.y2 <= d.frameHeight
    ensures w.x2 - w.x <= d.targetWidth && w.y2 - w.y <= d.targetHeight
  {
    var x := Max(0, face.x + (face.w - d.targetWidth) / 2);
    var y := Max(0, face.y + (face.h - d.targetHeight) / 2);
    Window(x, y, Min(x + d.targetWidth, d.frameWidth), Min(y + d.targetHeight, d.frameHeight))
  }

  /** When the centred region lies inside the frame it has exactly the target size. */
  lemma CentredWindowFits(face: Rect, d: Dims)
    requires var x := face.x + (face.w - d.targetWidth) / 2; 0 <= x && x + d.targetWidth <= d.frameWidth
    requires var y := face.y + (face.h - d.targetHeight) / 2; 0 <= y && y + d.targetHeight <= d.frameHeight
    ensures var w := CropWindow(face, d);
            w.x2 - w.x == d.targetWidth && w.y2 - w.y == d.targetHeight &&
            2 * w.x <= 2 * face.x + face.w - d.targetWidth
  {
  }

  /** A region with no pixels, which `cv2.resize` rejects. */
  predicate Empty(w: Window) {
    w.x2 <= w.x || w.y2 <= w.y
  }

  function Windows(faces: seq<Rect>, d: Dims): (ws: seq<Window>)
    ensures |ws| == |faces|
  {
    seq(|faces|, k requires 0 <= k < |faces| => CropWindow(faces[k], d))
  }

  /** The frames written for `n` input frames: the faces' regions, frame after frame. */
  function Repeat(ws: seq<Window>, n: nat): seq<Window> {
    if n == 0 then [] else Repeat(ws, n - 1) + ws
  }

  /** The outcome of `crop_video`: the regions written in order, or the exception it raises. */
  function CropOutcome(faces: Option<seq<Rect>>, frameCount: nat, d: Dims): Result<seq<Window>, PyError> {
    match faces
    case None => Err(TypeError)
    case Some(fs) =>
      if |fs| == 0 || frameCount == 0 then Ok([])
      else if exists k :: 0 <= k < |fs| && Empty(CropWindow(fs[k], d)) then Err(CvError)
      else Ok(Repeat(Windows(fs, d), frameCount))
  }

  /** `crop_video` over `frameCount` frames; each written frame is represented by its crop region. */
  method CropVideo(faces: Option<seq<Rect>>, frameCount: nat, d: Dims) returns (r: Result<seq<Window>, PyError>)
    ensures r == CropOutcome(faces, frameCount, d)
  {
    if faces.None? {
      return Err(TypeError);
    }
    var fs := faces.value;
    if |fs| == 0 {
      return Ok([]);
    }
    ghost var ws := Windows(fs, d);
    var written: seq<Window> := [];
    for f := 0 to frameCount
      invariant written == Repeat(ws, f)
      invariant f > 0 ==> forall k :: 0 <= k < |fs| ==> !Empty(CropWindow(fs[k], d))
    {
      for k := 0 to |fs|
        invariant written == Repeat(ws, f) + ws[..k]
        invariant forall j :: 0 <= j < k ==> !Empty(CropWindow(fs[j], d))
      {
        var w := CropWindow(fs[k], d);
        if w.x2 <= w.x || w.y2 <= w.y {
          return Err(CvError);
        }
        assert ws[..k + 1] == ws[..k] + [w];
        written := written + [w];
      }
      assert ws[..|fs|] == ws;
    }
    return Ok(written);
  }

  /** Frame `f` of the output holds, at position `k`, the region of face `k`. */
  lemma {:induction false} RepeatAt(ws: seq<Window>, n: nat, f: nat, k: nat)
    requires f < n && k < |ws|
    ensures |Repeat(ws, n)| == n * |ws|
    ensures f * |ws| + k < |Repeat(ws, n)| && Repeat(ws, n)[f * |ws| + k] == ws[k]
    decreases n
  {
    RepeatLength(ws, n - 1);
    var prev := Repeat(ws, n - 1);
    assert Repeat(ws, n) == prev + ws;
    assert n * |ws| == (n - 1) * |ws| + |ws|;
    if f < n - 1 {
      RepeatAt(ws, n - 1, f, k);
      assert (Repeat(ws, n))[f * |ws| + k] == prev[f * |ws| + k];
    } else {
      assert f * |ws| == |prev|;
    }
  }

  lemma {:induction false} RepeatLength(ws: seq<Window>, n: nat)
    ensures |Repeat(ws, n)| == n * |ws|
    decreases n
  {
    if n > 0 {
      RepeatLength(ws, n - 1);
    }
  }

  /**
   * One frame is written per face per input frame: when no region is empty,
   * the output has `frameCount * |faces|` frames, and the one at
   * `f * |faces| + k` is face `k`'s region.
   */
  lemma FramePerFacePerFrame(fs: seq<Rect>, frameCount: nat, d: Dims, f: nat, k: nat)
    requires f < frameCount && k < |fs|
    requires forall j :: 0 <= j < |fs| ==> !Empty(CropWindow(fs[j], d))
    ensures var r := CropOutcome(Some(fs), frameCount, d);
            r.Ok? && |r.value| == frameCount * |fs| && r.value[f * |fs| + k] == CropWindow(fs[k], d)
  {
    RepeatAt(Windows(fs, d), frameCount, f, k);
  }

  /** A segment in which no frame shows a face makes `crop_video` raise `TypeError` on `len(None)`. */
  lemma NoFacesCropFails(frames: seq<seq<Rect>>, frameCount: nat, d: Dims)
    requires forall i :: 0 <= i < |frames| ==> frames[i] == []
    ensures CropOutcome(DetectedFaces(frames), frameCount, d) == Err(TypeError)
  {
    NoneIffNoFaces(frames);
  }

  // ---------------------------------------------------------------------------
  // lambda_handler (lines 87-145)
  // ---------------------------------------------------------------------------

  /** What the handler returns: 200 with the cropped videos, or 500 with the error. */
  datatype Envelope = Success(croppedVideos: seq<Json>) | Failure(error: PyError)

  function StatusCode(env: Envelope): int {
    if env.Success? then 200 else 500
  }

  /** `os.path.basename`: the part after the last slash. */
  function Basename(path: string): (name: string)
    ensures |name| <= |path| && name == path[|path| - |name|..]
    ensures Lacks(name, '/')
    ensures |name| < |path| ==> path[|path| - |name| - 1] == '/'
  {
    if |path| == 0 || path[|path| - 1] == '/' then ""
    else
      var front := Basename(path[..|path| - 1]);
      assert path[..|path| - 1][|path| - 1 - |front|..] == path[|path| - 1 - |front|..|path| - 1];
      front + [path[|path| - 1]]
  }

  function SegmentKey(base: string, i: nat): string {
    "cropped_videos/" + base + "_segment_" + NatToString(i) + ".mp4"
  }

  /** Different segments of one upload get different keys. */
  lemma SegmentKeysDistinct(base: string, i: nat, j: nat)
    requires i != j
    ensures SegmentKey(base, i) != SegmentKey(base, j)
  {
    var prefix := "cropped_videos/" + base + "_segment_";
    if SegmentKey(base, i) == SegmentKey(base, j) {
      var a, b := prefix + NatToString(i), prefix + NatToString(j);
      assert a + ".mp4" == b + ".mp4";
      assert |a| == |b|;
      assert a == (a + ".mp4")[..|a|] == (b + ".mp4")[..|b|] == b;
      assert NatToString(i) == a[|prefix|..] == b[|prefix|..] == NatToString(j);
      NatToStringInjective(i, j);
      assert false;
    }
  }

  /** `value[key]` in Python: a dict's entry, `KeyError` for a missing key, `TypeError` on anything else. */
  function Subscript(v: Json, key: string): Result<Json, PyError> {
    match v
    case JObject(m) => if key in m then Ok(m[key]) else Err(KeyError(key))
    case _ => Err(TypeError)
  }

  /**
   * `enumerate` over the analysis result: a list gives its items; a non-empty
   * dict or string gives strings, whose subscript raises `TypeError`; an empty
   * one gives nothing; any other value is not iterable.
   */
  function Iterated(v: Json): Result<seq<Json>, PyError> {
    match v
    case JArray(items) => Ok(items)
    case JObject(m) => if |m| == 0 then Ok([]) else Err(TypeError)
    case JString(s) => if s == "" then Ok([]) else Err(TypeError)
    case _ => Err(TypeError)
  }

  /**
   * One iteration of the segment loop (lines 110-131): the times, the cut,
   * detection and cropping (`cut`), the key, the upload (`upload`), then the
   * description.
   */
  function SegmentEntry(i: nat, segment: Json, s3Key: Json,
                        cut: nat -> Option<PyError>, upload: nat -> Option<PyError>): Result<Json, PyError>
  {
    match Subscript(segment, "start_time")
    case Err(e) => Err(e)
    case Ok(start) =>
      match Subscript(segment, "end_time")
      case Err(e) => Err(e)
      case Ok(end) =>
        if cut(i).Some? then Err(cut(i).value)
        else if !s3Key.JString? then Err(TypeError)
        else if upload(i).Some? then Err(upload(i).value)
        else
          match Subscript(segment, "description")
          case Err(e) => Err(e)
          case Ok(description) =>
            Ok(VideoEntry(SegmentKey(Basename(s3Key.s), i), start, end, description))
  }

  /** The record appended for one segment (lines 126-131). */
  function VideoEntry(s3Key: string, start: Json, end: Json, description: Json): Json {
    JObject(map["s3_key" := JString(s3Key), "start_time" := start, "end_time" := end, "description" := description])
  }

  function SegmentEntries(segments: seq<Json>, s3Key: Json,
                          cut: nat -> Option<PyError>, upload: nat -> Option<PyError>): (rs: seq<Result<Json, PyError>>)
    ensures |rs| == |segments|
  {
    seq(|segments|, i requires 0 <= i < |segments| => SegmentEntry(i, segments[i], s3Key, cut, upload))
  }

  /**
   * The handler's envelope. `analysis` is the outcome of the download, audio
   * extraction, speech recognition and chat-completion steps: the parsed
   * segments, or the exception one of them raised.
   */
  function Handled(event: map<string, Json>, analysis: Result<Json, PyError>,
                   cut: nat -> Option<PyError>, upload: nat -> Option<PyError>): Envelope
  {
    if "s3_bucket" !in event then Failure(KeyError("s3_bucket"))
    else if "s3_key" !in event then Failure(KeyError("s3_key"))
    else
      match analysis
      case Err(e) => Failure(e)
      case Ok(a) =>
        match Iterated(a)
        case Err(e) => Failure(e)
        case Ok(segments) =>
          match Collect(SegmentEntries(segments, event["s3_key"], cut, upload))
          case Err(e) => Failure(e)
          case Ok(videos) => Success(videos)
  }

  /** `lambda_handler`: the keys, the analysis, then the segment loop appending to `cropped_videos`. */
  method LambdaHandler(event: map<string, Json>, analysis: Result<Json, PyError>,
                       cut: nat -> Option<PyError>, upload: nat -> Option<PyError>) returns (env: Envelope)
    ensures env == Handled(event, analysis, cut, upload)
  {
    if "s3_bucket" !in event {
      return Failure(KeyError("s3_bucket"));
    }
    if "s3_key" !in event {
      return Failure(KeyError("s3_key"));
    }
    var s3Key := event["s3_key"];
    if analysis.Err? {
      return Failure(analysis.error);
    }
    var iterated := Iterated(analysis.value);
    if iterated.Err? {
      return Failure(iterated.error);
    }
    var segments := iterated.value;
    ghost var outcomes := SegmentEntries(segments, s3Key, cut, upload);
    var croppedVideos: seq<Json> := [];
    for i := 0 to |segments|
      invariant Collect(outcomes[..i]) == Ok(croppedVideos)
    {
      var entry := SegmentEntry(i, segments[i], s3Key, cut, upload);
      assert outcomes[i] == entry;
      PrefixSnoc(outcomes, i);
      if entry.Err? {
        CollectStops(outcomes, i + 1);
        return Failure(entry.error);
      }
      croppedVideos := croppedVideos + [entry.value];
    }
    assert outcomes[..|segments|] == outcomes;
    return Success(croppedVideos);
  }

  /**
   * On success there is one entry per segment, in order: entry `i` carries
   * segment `i`'s `start_time`, `end_time` and `description`, and the key
   * `cropped_videos/<basename>_segment_<i>.mp4`.
   */
  lemma SuccessEntries(event: map<string, Json>, segments: seq<Json>,
                       cut: nat -> Option<PyError>, upload: nat -> Option<PyError>)
    requires "s3_bucket" in event && "s3_key" in event
    requires Handled(event, Ok(JArray(segments)), cut, upload).Success?
    ensures var videos := Handled(event, Ok(JArray(segments)), cut, upload).croppedVideos;
            |videos| == |segments| && (|segments| > 0 ==> event["s3_key"].JString?) &&
            forall i :: 0 <= i < |segments| ==>
              event["s3_key"].JString? && segments[i].JObject? &&
              segments[i].fields.Keys >= {"start_time", "end_time", "description"} &&
              videos[i] == VideoEntry(SegmentKey(Basename(event["s3_key"].s), i),
                                      segments[i].fields["start_time"],
                                      segments[i].fields["end_time"],
                                      segments[i].fields["description"])
  {
    var rs := SegmentEntries(segments, event["s3_key"], cut, upload);
    CollectSpec(rs);
    var videos := Collect(rs).value;
    if |segments| > 0 {
      assert rs[0] == Ok(videos[0]);
    }
    forall i | 0 <= i < |segments|
      ensures event["s3_key"].JString? && segments[i].JObject? &&
              segments[i].fields.Keys >= {"start_time", "end_time", "description"} &&
              videos[i] == VideoEntry(SegmentKey(Basename(event["s3_key"].s), i),
                                      segments[i].fields["start_time"],
                                      segments[i].fields["end_time"],
                                      segments[i].fields["description"])
    {
      assert rs[i] == SegmentEntry(i, segments[i], event["s3_key"], cut, upload) == Ok(videos[i]);
    }
  }

  /** A missing `s3_bucket` is reported before anything else, then a missing `s3_key`. */
  lemma KeyErrorOrder(event: map<string, Json>, analysis: Result<Json, PyError>,
                      cut: nat -> Option<PyError>, upload: nat -> Option<PyError>)
    ensures "s3_bucket" !in event ==> Handled(event, analysis, cut, upload) == Failure(KeyError("s3_bucket"))
    ensures "s3_bucket" in event && "s3_key" !in event ==>
              Handled(event, analysis, cut, upload) == Failure(KeyError("s3_key"))
  {
  }

  /** When segment `i` is the first to fail, the handler returns 500 with that segment's exception. */
  lemma FirstFailingSegment(event: map<string, Json>, segments: seq<Json>,
                            cut: nat -> Option<PyError>, upload: nat -> Option<PyError>, i: nat)
    requires "s3_bucket" in event && "s3_key" in event && i < |segments|
    requires forall k :: 0 <= k < i ==> SegmentEntry(k, segments[k], event["s3_key"], cut, upload).Ok?
    requires SegmentEntry(i, segments[i], event["s3_key"], cut, upload).Err?
    ensures Handled(event, Ok(JArray(segments)), cut, upload) ==
              Failure(SegmentEntry(i, segments[i], event["s3_key"], cut, upload).error)
    ensures StatusCode(Handled(event, Ok(JArray(segments)), cut, upload)) == 500
  {
    var rs := SegmentEntries(segments, event["s3_key"], cut, upload);
    FirstErrorDecides(rs, i, SegmentEntry(i, segments[i], event["s3_key"], cut, upload).error);
  }
}
