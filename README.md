# PennApps2024 video pipeline — a verified Dafny model

This project models the deterministic logic of the PennApps2024 video tool. The tool has four parts:

- **Whisper transcription scripts** (`whisper/main`). A loop renders Whisper segments as `Segment Start / Text / Keywords` text blocks, and `parse_transcript` reads that text back. A silence scanner finds the non-silent intervals of a clip's audio.
- **Auto-cropping Lambda** (`auto_cropper.py`). It collects face rectangles without duplicates and computes a crop window per face. It writes one cropped frame per face per input frame, and assembles one result record per analysed segment into a 200 or 500 envelope.
- **Local processing API route** (`pages/api/process-local-video.ts`). It checks the HTTP method, steps through the form and the files, and reads the Lambda's response envelope.
- **Instagram reel processor** (`instagram-reel-processor/lambda_function.py`). It extracts a shortcode from a URL and the hashtags and mentions from a caption.

It also models four small React components: the upload form with its reel list capped at three, the clamped "How it works" stepper, the saturating loading ramp, and the dashboard's status colours, link formatting, loading and redirect rules.

One module per source file:

| module | file |
|---|---|
| `Transcript` | `transcript.dfy` |
| `Silencer` | `silencer.dfy` |
| `AutoCropper` | `auto_cropper.dfy` |
| `LocalVideoApi` | `local_video_api.dfy` |
| `ReelProcessor` | `reel_processor.dfy` |
| `VideoInputForm` | `video_input_form.dfy` |
| `HowItWorks` | `how_it_works.dfy` |
| `Loading` | `loading.dfy` |
| `Dashboard` | `dashboard.dfy` |

Three shared modules support them:

- `Base` (`base.dfy`): `Option`, `Result`, and `Collect`, which is "append each result, stop at the first error".
- `Text` (`text.dfy`): the Python and JavaScript string operations the sources use — `strip`, `split`, `join`, `replace(x, "")`, `startswith` and decimal rendering — with their algebra.
- `JsonValue` (`json.dfy`): a JSON value datatype with JavaScript's truthiness and property-read rules.

Code that changes state step by step is modelled with methods, each proved equal to a specification function:

- the rendering loop, `parse_transcript`, the silence scan, `detect_faces`, `crop_video` and `lambda_handler`;
- the React components, as classes whose fields are the component's state.

Code that is only expressions is modelled as functions, with lemmas about them.

Calls into libraries, services and devices become parameters:

- Whisper, KeyBERT, OpenCV, S3, the chat-completion API and `sam local invoke`;
- `JSON.parse` on text;
- `urlparse` and `parse_qs`;
- the signed-in user.

Three defects in the sources are stated as lemmas about the code as written:

- `parse_transcript` cannot read what the rendering loop writes. The second comma field of a start line is `End: <t>` once the `s` characters are removed, and `float()` rejects it. So `parse_transcript(result_text)` raises for every non-empty segment list (`Transcript.RenderedTranscriptDoesNotParse`).
- `detect_faces` returns `None` when no frame has a face, and `crop_video` then raises on `len(None)` (`AutoCropper.NoFacesCropFails`).
- The cropper reports failures with a body that is already text. So the API route never sees `body.error` and reports the fallback message (`LocalVideoApi.CropperErrorLost`).

## Model

| member | source | states |
|---|---|---|
| Transcript.SerializeSegments | whisper/main/whisper_main.py:71-81 | the text the loop accumulates is the concatenation, in segment order, of each segment's start line, text line, keywords line and blank line |
| Transcript.SerializedSnoc | whisper/main/whisper_main.py:79-81 | rendering one more segment appends exactly that segment's block to the text |
| Transcript.SerializedLines | whisper/main/whisper_main.py:72-81 | when no rendered field holds a line break, the text read line by line is a start, text, keywords and blank line per segment, in order |
| Transcript.KeywordsLineRoundTrip | whisper/main/whisper_main.py:47-48 | the whole rendered keywords line (line 81) reads back as the segment's keywords when there is at least one, none contains ", " or "Keywords:", and the list neither starts nor ends with white space |
| Transcript.KeywordsRoundTrip | whisper/main/whisper_main.py:81 | keywords joined with ", " and split on ", " (line 48) come back unchanged when none contains ", "; an empty list comes back as [""] |
| Transcript.ParseTranscript | whisper/main/whisper_main.py:32-52 | the parser's outer loop yields exactly the specification `Parsed`: one dictionary per block, or the first block's exception |
| Transcript.ParseBlock | whisper/main/whisper_main.py:37-48 | the inner loop over a block's lines yields exactly the specification `ParsedBlock` |
| Transcript.ParsedBlocksSpec | whisper/main/whisper_main.py:34-50 | the parse succeeds iff every block parses; it then holds one record per block, in block order; otherwise it raises the exception of the first failing block |
| Transcript.FirstFailureDecides | whisper/main/whisper_main.py:36-50 | when every block before block i parses and block i raises x, the whole parse raises x |
| Transcript.BlankTranscript | whisper/main/whisper_main.py:34-50 | empty or white-space-only input gives a list holding one empty dictionary, not an empty list |
| Transcript.IgnoredLines | whisper/main/whisper_main.py:40-48 | lines with none of the three prefixes leave the dictionary unchanged |
| Transcript.ParsedLinesAppend | whisper/main/whisper_main.py:40-48 | a block's lines are processed in order and the first exception ends the block |
| Transcript.TextLineParsed | whisper/main/whisper_main.py:45-46 | a "Text:" line sets the text to the line with every "Text:" removed, then stripped |
| Transcript.KeywordsLineParsed | whisper/main/whisper_main.py:47-48 | a "Keywords:" line sets the keywords to the stripped remainder split on ", " |
| Transcript.TextKept | whisper/main/whisper_main.py:45-46 | lines that are not "Text:" lines never change the text field |
| Transcript.KeywordsKept | whisper/main/whisper_main.py:47-48 | lines that are not "Keywords:" lines never change the keywords field |
| Transcript.LastTextLineWins | whisper/main/whisper_main.py:45-46 | with several "Text:" lines in a block, the last one's value is kept |
| Transcript.LastKeywordsLineWins | whisper/main/whisper_main.py:47-48 | with several "Keywords:" lines in a block, the last one's value is kept |
| Transcript.NumberLiteralStart | whisper/main/whisper_main.py:43-44 | a literal that `float()` accepts begins with a sign, a point or a digit |
| Transcript.FixedParses | whisper/main/whisper_main.py:43-44 | every `:.2f` rendering (line 79) is accepted by `float()` |
| Transcript.LabelNotNumber | whisper/main/whisper_main.py:44 | a literal beginning with "E" is rejected by `float()` |
| Transcript.StartFields | whisper/main/whisper_main.py:42 | a rendered start line, with its prefix removed, stripped and split on commas, has exactly the fields "a s" and " End: b s" |
| Transcript.TimesOfStartLine | whisper/main/whisper_main.py:42-44 | reading a rendered start line raises ValueError on the literal "End: b" |
| Transcript.StartLineRaises | whisper/main/whisper_main.py:41-44 | the parser raises that ValueError on any rendered start line |
| Transcript.RenderedTranscriptDoesNotParse | whisper/main/whisper_main.py:88 | parsing the text the loop renders raises ValueError("End: b") for every non-empty segment list, b being the first segment's end time |
| Silencer.NonSilentIntervals | whisper/main/silencer.py:20-36 | the loop and the final close give exactly the specification `Intervals` |
| Silencer.ScannedInvariant | whisper/main/silencer.py:24-33 | after any number of samples, the closed intervals are well formed, ordered and disjoint, and an open interval starts at a loud sample after all of them |
| Silencer.ScannedCovers | whisper/main/silencer.py:24-32 | after n samples every loud one lies in a closed interval or at or after the open interval's start |
| Silencer.IntervalsCoverLoud | whisper/main/silencer.py:24-36 | every loud sample lies in some reported interval: at or after its start and, when it stops at a sample, before that stop |
| Silencer.IntervalsWellFormed | whisper/main/silencer.py:24-36 | every interval starts at a loud sample; every one but the last ends at a later quiet sample more than MIN_SILENCE_DURATION later; intervals are in increasing order and do not overlap |
| Silencer.LoudOpens | whisper/main/silencer.py:27-29 | a loud sample with no open interval opens one at that sample |
| Silencer.ShortGapKeepsOpen | whisper/main/silencer.py:30-31 | a quiet sample before the minimum duration has passed leaves the open interval open and records nothing |
| Silencer.QuietPrefix | whisper/main/silencer.py:24-33 | on all-quiet input the scan never opens an interval |
| Silencer.AllQuietNoIntervals | whisper/main/silencer.py:39-47 | all-quiet input yields no interval, and no output video is written |
| AutoCropper.DetectFaces | auto_cropper.py:14-28 | the reading loop yields exactly the specification `DetectedFaces` |
| AutoCropper.AddNewSpec | auto_cropper.py:24-26 | the held faces stay in place; after them come exactly the detections not yet held, each once, in the order of their first detection in the frame |
| AutoCropper.GatheredSpec | auto_cropper.py:17-26 | the gathered faces have no duplicates and each comes from some frame; the new ones follow the order of their first detection, by frame and then by position in the frame; with fewer than five, every face of every frame is among them |
| AutoCropper.GatheredPrefix | auto_cropper.py:18-26 | the frames are read in order, reading stops before the last frame only once five faces are held, and the faces held are what the read frames' detections add |
| AutoCropper.GatheredOrder | auto_cropper.py:18-26 | every two gathered faces after the held ones are in the order of their first detection across all frames |
| AutoCropper.GatheredBound | auto_cropper.py:18-26 | with at most n detections per frame, at most max(held, 4 + n) faces are gathered: the limit of five is tested only between frames |
| AutoCropper.NothingGathered | auto_cropper.py:17-26 | nothing is gathered iff no frame has a face |
| AutoCropper.NoneIffNoFaces | auto_cropper.py:28 | `detect_faces` returns None iff no frame has a face, and never an empty list |
| AutoCropper.OneFramePastFive | auto_cropper.py:18-26 | one frame with six different faces leaves six faces, because the limit is checked only between frames |
| AutoCropper.CropWindow | auto_cropper.py:45-48 | the crop region starts at or after the origin, ends within the frame, and is no larger than the target size |
| AutoCropper.CentredWindowFits | auto_cropper.py:45-48 | when the centred region lies inside the frame it has exactly the target size |
| AutoCropper.CropVideo | auto_cropper.py:30-53 | the frame loop yields exactly the specification `CropOutcome`: TypeError on None, nothing for no faces or frames, CvError on an empty region, otherwise the regions written |
| AutoCropper.FramePerFacePerFrame | auto_cropper.py:39-51 | one frame is written per face per input frame; the frame at f·n + k is face k's region |
| AutoCropper.NoFacesCropFails | auto_cropper.py:119-121 | a segment in which no frame has a face makes `crop_video` raise TypeError |
| AutoCropper.Basename | auto_cropper.py:124 | `os.path.basename` is the longest slash-free suffix of the path |
| AutoCropper.SegmentKeysDistinct | auto_cropper.py:124 | different segment indices give different S3 keys |
| AutoCropper.LambdaHandler | auto_cropper.py:87-145 | the handler yields exactly the specification `Handled` |
| AutoCropper.SuccessEntries | auto_cropper.py:108-138 | on success, entry i carries segment i's start_time, end_time and description and the key cropped_videos/<basename>_segment_<i>.mp4 |
| AutoCropper.KeyErrorOrder | auto_cropper.py:90-91 | a missing s3_bucket is reported before a missing s3_key, and both before anything else |
| AutoCropper.FirstFailingSegment | auto_cropper.py:139-145 | when segment i is the first to fail, the handler returns 500 with that exception |
| JsonValue.ArraysAreTruthy | pages/api/process-local-video.ts:85 | an empty array is truthy, so the check rejects exactly the non-arrays |
| LocalVideoApi.Status | pages/api/process-local-video.ts:21-105 | the response is 200 iff the video was processed |
| LocalVideoApi.NonPostRejected | pages/api/process-local-video.ts:102-105 | any other method gets 405 with Allow: POST, whatever the form and I/O would have been |
| LocalVideoApi.FormErrorFirst | pages/api/process-local-video.ts:25-28 | a form-parse error gives 500 "Error parsing form data" before any file work |
| LocalVideoApi.OnlyNumber200Succeeds | pages/api/process-local-video.ts:77-81 | success requires a statusCode that is the number 200 |
| LocalVideoApi.StringStatusFails | pages/api/process-local-video.ts:79-81 | a statusCode that is the string "200" fails like any other status |
| LocalVideoApi.LambdaErrorKept | pages/api/process-local-video.ts:79-81 | on a non-200 status, a truthy body.error of an object body becomes the error message |
| LocalVideoApi.LambdaErrorLost | pages/api/process-local-video.ts:80 | on a non-200 status without such an error, the message is "Unknown error occurred in Lambda function" |
| LocalVideoApi.AcceptedIffArray | pages/api/process-local-video.ts:83-91 | whatever the 200 body parses to, it is accepted iff it has a cropped_videos field that is an array, even an empty one, and then its elements are returned unchanged; a body without the field or not an object is rejected |
| LocalVideoApi.ProcessedExactly | pages/api/process-local-video.ts:30-92 | the response is 200 iff the request is a POST with a parsed form and a file, every I/O step succeeded and the output was accepted; it then carries s3://local-test-bucket/uploads/<name> and the Lambda's videos unchanged |
| LocalVideoApi.OriginalVideoUrlShape | pages/api/process-local-video.ts:43-44 | the original video's URL is the fixed bucket-and-folder prefix followed by the uploaded file's name |
| LocalVideoApi.FailureReported | pages/api/process-local-video.ts:93-100 | any failure inside the try block gives 500 "Error processing video" with the thrown error as details |
| LocalVideoApi.CropperErrorLost | pages/api/process-local-video.ts:79-80 | a failure envelope from the cropper, whose body is text (auto_cropper.py lines 139-145), always yields the fallback message, whatever the exception was |
| LocalVideoApi.CropperSuccessAccepted | pages/api/process-local-video.ts:77-91 | a cropper success whose body text parses back to its videos is accepted with those videos |
| ReelProcessor.PathParts | instagram-reel-processor/lambda_function.py:20 | splitting the stripped path always gives at least one segment |
| ReelProcessor.IndexOf | instagram-reel-processor/lambda_function.py:22 | `list.index` finds the first occurrence |
| ReelProcessor.ReelFollowedBySegment | instagram-reel-processor/lambda_function.py:21-24 | when the first "reel" is not the last segment, the result is the segment right after it |
| ReelProcessor.NoReelLastSegment | instagram-reel-processor/lambda_function.py:25-26 | with no "reel" segment, the result is the last segment and nothing is raised |
| ReelProcessor.QueryOnlyWhenReelLast | instagram-reel-processor/lambda_function.py:21-29 | the query affects the result only when the first "reel" is the last segment |
| ReelProcessor.ValueErrorExactly | instagram-reel-processor/lambda_function.py:21-30 | ValueError is raised iff the first "reel" is last and there is no igsh parameter; with one, the first igsh value is returned |
| ReelProcessor.SurroundingSlashesIgnored | instagram-reel-processor/lambda_function.py:20 | a leading or trailing slash does not change the result |
| ReelProcessor.WordRun | instagram-reel-processor/lambda_function.py:111 | the greedy `\w+` takes the longest prefix of word characters |
| ReelProcessor.NoCaptionNoTags | instagram-reel-processor/lambda_function.py:110-116 | a missing or empty caption gives no hashtags and no mentions |
| ReelProcessor.TagsAreWords | instagram-reel-processor/lambda_function.py:111-112 | every tag found is a non-empty run of word characters |
| ReelProcessor.NoMarkerNoTags | instagram-reel-processor/lambda_function.py:111-112 | a caption without the marker has no tags of that kind |
| ReelProcessor.TagsOfTagged | instagram-reel-processor/lambda_function.py:111-112 | a caption built as marker+word separated by spaces gives back exactly those words, in order |
| ReelProcessor.WordRunStops | instagram-reel-processor/lambda_function.py:111 | a run of word characters ends where a non-word character begins |
| VideoInputForm.WithoutSpec | components/VideoInputForm.tsx:40-42 | removing index i deletes exactly that entry and keeps the others in order; an out-of-range index changes nothing |
| VideoInputForm.UploadLabelMatchesButton | components/VideoInputForm.tsx:142-156 | any label but "Upload and Process" shows on a disabled button, and with a file chosen "Upload and Process" shows exactly when the button is enabled |
| VideoInputForm.Form.constructor | components/VideoInputForm.tsx:27-28 | the form starts with no file and no reels |
| VideoInputForm.Form.HandleFileChange | components/VideoInputForm.tsx:30-34 | a chosen file replaces the selection; an empty choice keeps it |
| VideoInputForm.Form.HandleAddReel | components/VideoInputForm.tsx:36-38 | appends an empty reel and leaves the existing entries unchanged |
| VideoInputForm.Form.ClickAddReel | components/VideoInputForm.tsx:121-125 | the add control exists only below three reels, so the list never exceeds three through the UI |
| VideoInputForm.Form.HandleRemoveReel | components/VideoInputForm.tsx:40-42 | the list becomes the filtered list; the cap of three is kept |
| VideoInputForm.Form.HandleReelUrlChange | components/VideoInputForm.tsx:44-48 | replaces only entry i and keeps the length |
| VideoInputForm.Form.HandleUpload | components/VideoInputForm.tsx:50-85 | without a file nothing happens; otherwise onSubmit is called first, and the save-reels request is sent only for a signed-in user |
| VideoInputForm.Form.ClickUpload | components/VideoInputForm.tsx:142-144 | the enabled button, with a file and neither uploading nor processing, always reaches onSubmit with the file and the reels |
| HowItWorks.NextLabel | components/HowItWorks.tsx:73 | the label is "Finish" iff on the last step |
| HowItWorks.StepsStayInRange | components/HowItWorks.tsx:21-22 | Next sets min(4, s+1) and Previous sets max(0, s-1), so the step stays in 0..4 |
| HowItWorks.EndsAreFixed | components/HowItWorks.tsx:21-22 | Next at the last step and Previous at the first change nothing, and exactly those buttons are disabled (lines 65 and 71) |
| HowItWorks.PreviousUndoesNext | components/HowItWorks.tsx:21-22 | Next then Previous from a step other than the last restores the step |
| HowItWorks.ProgressEnds | components/HowItWorks.tsx:48 | progress is 0 on the first step and 100 on the last, and grows with the step |
| HowItWorks.Stepper.constructor | components/HowItWorks.tsx:19 | the walkthrough starts on step 0 |
| HowItWorks.Stepper.HandleNext | components/HowItWorks.tsx:21 | the step becomes the clamped next step, within range |
| HowItWorks.Stepper.HandlePrevious | components/HowItWorks.tsx:22 | the step becomes the clamped previous step, within range |
| HowItWorks.Stepper.SelectTab | components/HowItWorks.tsx:34-41 | only a tab at or before the active step can be chosen (tab i is disabled iff i > step), so choosing one never moves forward |
| Loading.TicksFromStart | components/Loading.tsx:9-22 | after n ticks from 0 the progress is min(n, 100) |
| Loading.TickBounded | components/Loading.tsx:13-22 | a tick keeps the progress within [0, 100], never lowers it, and leaves it unchanged only at 100 |
| Loading.CompletionOnTick101 | components/Loading.tsx:14-19 | progress reaches 100 exactly after 100 ticks, so the tick that schedules completion is the 101st |
| Loading.LoadingScreen.constructor | components/Loading.tsx:9 | progress starts at 0 with the interval running |
| Loading.LoadingScreen.OnTick | components/Loading.tsx:12-23 | a tick applies the saturating update; completion is scheduled and the interval cleared exactly when the tick finds 100 |
| Dashboard.StatusColorsDistinct | components/Dashboard.tsx:42-45 | two statuses share a colour exactly when they are the same known status or both are neither Completed nor Processing |
| Dashboard.FormattedUrl | components/Dashboard.tsx:55 | the link target always starts with http:// or https:// |
| Dashboard.FormattedUrlSpec | components/Dashboard.tsx:55 | a URL with a scheme is unchanged, any other gets "https://" before it, and formatting twice changes nothing more |
| Dashboard.RenderAgreesWithRedirect | components/Dashboard.tsx:128-158 | the component renders nothing exactly when the redirect effect sends the browser to /login; the page shows only to a signed-in user once loading is over; the spinner never redirects |
| Dashboard.DashboardState.constructor | components/Dashboard.tsx:75-78 | the dashboard starts loading, with an empty input and no links |
| Dashboard.DashboardState.SetNewInspoLink | components/Dashboard.tsx:233 | typing sets the input and nothing else |
| Dashboard.DashboardState.HandleAddInspoLink | components/Dashboard.tsx:143-146 | adding clears the input and does not change the saved links |
| Dashboard.DashboardState.UserKnownEffect | components/Dashboard.tsx:118-126 | once the user is known, signed in or not, loading ends |
| Dashboard.DashboardState.RedirectEffect | components/Dashboard.tsx:128-132 | when not loading and nobody is signed in, the browser is sent to /login, and otherwise nowhere |
| Dashboard.Visit | components/Dashboard.tsx:118-158 | once the user is settled, a signed-in visitor sees the page and is sent nowhere; a signed-out one sees nothing and is sent to /login exactly once; while the user is unknown the spinner shows and nothing is pushed |

## Left out

- Whisper transcription, KeyBERT keyword extraction, the ffmpeg audio conversion and the Supabase insert (whisper/main/whisper_main.py:54-76, 89-90). A segment arrives as its rendered times, its text and its keywords.
- Transcript.ParseFloat: `float()` is modelled on optionally signed decimal literals only. Exponents, `inf`/`nan`, underscores and surrounding white space are not accepted. That is enough for the `:.2f` renderings and the "End:" literal the parser meets.
- Floating-point rounding: `:.2f` renderings are inputs, the silence scanner computes sample times `i / fps` exactly on reals, and the parsed times are reals.
- Silencer.NonSilentIntervals: the volume sampling (whisper/main/silencer.py:18) is an input, and `fps > 0` is required because that sampling already divides by it. The clip cutting and video writing (lines 39-47) are reduced to whether any interval exists. An interval running to the end stops at `audio.duration`, modelled as the symbol `AtDuration`.
- OpenCV: face detection, frame reading, the target sizes derived with `0.9` and `9/16`, and the video writer (auto_cropper.py:15-23, 32-38, 50) are inputs or represented by the crop region written.
- AutoCropper.CropOutcome: `cv2.resize` is taken to fail (CvError) only on a region without pixels. A region cut by the frame edge, smaller than the target, is resized like any other.
- AutoCropper.LambdaHandler:
  - The download, audio extraction, speech recognition and chat-completion steps (auto_cropper.py:55-105) are one input outcome.
  - A segment's ffmpeg cut, face detection and cropping are one per-segment outcome `cut(i)`, and the S3 upload is `upload(i)`. The link from `cut(i)` to `DetectedFaces`/`CropOutcome` is stated separately (`NoFacesCropFails`), not inside the handler.
  - The envelope carries the exception, not `str(e)` or the `json.dumps` text of the body.
- LocalVideoApi.ParseBody: `JSON.parse(result.body)` on an array body is taken to throw. JavaScript first converts the array to comma-joined text, and a one-element array such as `[5]` becomes text that parses.
- The API route's file-system steps, the event file and `sam local invoke` (pages/api/process-local-video.ts:32-75) are opaque outcomes. Logging, `stderr` and the exact text of a `TypeError` message are not modelled. `JSON.parse` on text is a parameter.
- ReelProcessor: `urlparse` and `parse_qs` are library code, so the path and the parsed query are inputs. `\w` is taken as ASCII word characters, while Python's default matches Unicode word characters.
- The rest of instagram-reel-processor/lambda_function.py: `download_reel`, the audio and video analyses, Whisper, the handler and `process_video_to_text` (lines 32-107, 118-274). These are I/O and numerics on foreign libraries.
- VideoInputForm.Form.HandleReelUrlChange: requires an index the form renders. JavaScript assignment past the end, which would lengthen the array, cannot happen through the UI.
- VideoInputForm.Form.HandleUpload: the save-reels request is recorded, but its response handling and the console output are not modelled. The file input's disabled state (line 97), the progress bars and the error text are rendering only.
- HowItWorks.Stepper.SelectTab: the tab value's `parseInt` is modelled by the index itself.
- Timers and animation: the 20 ms interval, the 500 ms completion delay, the interval cleanup on unmount and framer-motion in components/Loading.tsx. A tick is one call of `OnTick`, and scheduling completion is a flag.
- The Dashboard's Supabase fetch effect with its `isMounted` guard (components/Dashboard.tsx:81-116), sign-out, the Home and Generate navigation buttons and the mock video list. These are network calls or navigation without logic.
- The directory walkers (whisper/main/whisper_main.py:93-99, whisper/main/silencer.py:56-71).
- The other components (Login, VideoScreen, VideoApp, VideoInputScreen, VideoPlayerScreen), the upload and process-video API routes, backend/server.py and the Supabase client. These files are not part of this model.
