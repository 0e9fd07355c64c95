# Group-work video tools: a verified model of the processing scripts

This project models in Dafny the deterministic logic of four batch scripts
from a group-work video analysis tool chain, and proves what they promise.

- `bodypose/estimate_bodypose.py` runs a body-pose detector over a video.
  It builds one CSV row of 99 coordinates per frame. Before the first
  detection a missed frame gets zeros; after it, a missed frame repeats the
  last detected row. Modelled in `bodypose.dfy` (module `BodyPose`): the
  argument scan, the output names, the flattening loop, the loop state as
  the class `TrackBuilder`, and the whole frame loop `ProcessVideo`. The
  loop is proved equal to a reference track defined by the most recent
  detection.
- `headpose/opencv_dlib_custom/head_pose_estimation.py` reports "Head
  up/down/left/right" for each face from two angles: the angle of the nose
  line and the angle of a sideways line that `head_pose_points` derives from
  a projected 3D box. Modelled in `headpose_estimation.dfy` (module
  `HeadPoseEstimation`): the ten box points, the floor midpoint of the
  sideways line, the 90-degree sentinel of the nose angle, the ±48 degree
  rules, the output video name and the frame loop that never writes the
  sizing frame. The script also defines `draw_annotation_box`, which would
  draw the box itself with fixed sizes, but `main` never calls it;
  `DrawAnnotationBox` models that function as defined.
- `headpose/openface/check_headpose_reliability.py` plots head translations
  from several CSV files in a 3 × N grid. Modelled in
  `headpose_reliability.dfy` (module `HeadPoseReliability`): default
  inputs, the grid as an `array2` of panel records, colours, limits,
  labels, titles, the column projection of a table and the figure's file
  name.
- `utils/cut_snippet.py` cuts a cropped clip from a video. Modelled in
  `cut_snippet.dfy` (module `CutSnippet`): clamping of the crop rectangle,
  the crop size, Python slicing of a frame, and the bounded copy loop.

`py_strings.dfy` (module `PyStrings`) models the parts of Python's standard
library these scripts use on names: `str.split`, `str.join`, and
`os.path.basename`, `os.path.splitext` and `os.path.join` for POSIX paths.
`RFind` (the last occurrence of a character) is the building block of
`basename` and `splitext`, and `Count` (the number of occurrences) is used
only to state contracts; no script calls either directly. `wrappers.dfy` holds the `Option` type.

Detectors, projections, trigonometry, video reading and writing, drawing
and file I/O are not modelled. Each frame's outcome arrives as an input
event. The projection is a function parameter. Angles arrive as integers.

## Model

| member | source | states |
|---|---|---|
| PyStrings.RFind | headpose/openface/check_headpose_reliability.py:71 | the result is -1 or an index holding the character, and no later index holds it |
| PyStrings.RFindIs | headpose/openface/check_headpose_reliability.py:71 | those two facts determine the last occurrence uniquely |
| PyStrings.RFindAppend | headpose/openface/check_headpose_reliability.py:71 | the last occurrence in a concatenation lies in the right part when that part has one, otherwise in the left part |
| PyStrings.Basename | headpose/openface/check_headpose_reliability.py:71 | the base name has no '/', is a suffix of the path, and is preceded by '/' when shorter than the path |
| PyStrings.Splitext | headpose/opencv_dlib_custom/head_pose_estimation.py:167 | root + extension is the path; the extension is empty or a dot followed by no dot and no '/'; it is non-empty only when a non-dot precedes its dot in the last component, and empty when every character before any dot of that component is a dot |
| PyStrings.PathJoin | bodypose/estimate_bodypose.py:56-57 | an absolute second part is the result on its own; a relative one is appended directly after a first part that is empty or ends in '/', and after an added '/' otherwise |
| PyStrings.BasenameOfPlain | headpose/opencv_dlib_custom/head_pose_estimation.py:173 | a name without '/' is its own base name |
| PyStrings.BasenameOfJoin | bodypose/estimate_bodypose.py:56-57 | joining onto a folder leaves the base name unchanged |
| PyStrings.BasenameAfterSeparator | bodypose/estimate_bodypose.py:56-57 | after a prefix ending in '/', the base name is that of the rest |
| PyStrings.JoinWithLength | headpose/openface/check_headpose_reliability.py:84 | joining n ≥ 1 parts gives their total length plus n - 1 separators |
| PyStrings.JoinWithSnoc | headpose/openface/check_headpose_reliability.py:84 | joining one more part appends one separator and that part |
| PyStrings.JoinWithNoChar | headpose/openface/check_headpose_reliability.py:84 | a character in no part and not in the separator is not in the joined string |
| PyStrings.Split | bodypose/estimate_bodypose.py:55 | splitting gives one more piece than separators, no piece holds the separator, and joining the pieces with it gives back the string |
| PyStrings.SplitTwo | bodypose/estimate_bodypose.py:55 | a split into two pieces is the string cut at its only separator |
| PyStrings.SplitNone | headpose/openface/check_headpose_reliability.py:29 | a string without the separator splits into itself alone |
| PyStrings.SplitAfterPiece | headpose/openface/check_headpose_reliability.py:29 | the split of x + sep + y is x followed by the split of y |
| PyStrings.SplitextAtDot | headpose/openface/check_headpose_reliability.py:71 | a name whose last dot is at d, not starting with a dot, splits into the text before d and the text from d |
| PyStrings.SplitextAtLastDot | headpose/opencv_dlib_custom/head_pose_estimation.py:167 | a name without '/' made of a root not starting with a dot, a dot and a dotless extension splits into the root and the dotted extension |
| BodyPose.Zeros | bodypose/estimate_bodypose.py:73 | the fallback row before any detection has the given length and is all zeros |
| BodyPose.ScanArgs | bodypose/estimate_bodypose.py:28-35 | only odd positions followed by a value are flags; without an `-input` flag the default video is used, otherwise the value of the last one; the display is on exactly when some `-display on` pair occurs |
| BodyPose.OutputPaths | bodypose/estimate_bodypose.py:55-57 | output names exist exactly when the input's base name has exactly one dot; otherwise the unpacking fails |
| BodyPose.OutputPathsNaming | bodypose/estimate_bodypose.py:55-57 | both outputs sit directly in the output folder: the video is named by the text before the dot, "__bodypose.", then the text after it; the CSV by the text before the dot then "__bodypose.csv"; those are also their base names |
| BodyPose.OutputPathsRejectsTwoDots | bodypose/estimate_bodypose.py:55 | any base name with two dots gets no output names: the script stops there |
| BodyPose.TaggedNames | bodypose/estimate_bodypose.py:56-57 | for a root and an extension without '/', the two outputs are the output folder followed by root + "__bodypose" + extension and by root + "__bodypose.csv" |
| BodyPose.OutputPathsFixed | bodypose/estimate_bodypose.py:55-57 | the corrected naming always succeeds and puts in the output folder the `splitext` root of the base name tagged "__bodypose" followed by its extension, and the root tagged "__bodypose.csv" |
| BodyPose.OutputPathsFixedOnTwoDots | bodypose/estimate_bodypose.py:55-57 | the corrected naming handles a two-dot name, keeping everything before the last dot as the root |
| BodyPose.OutputPathsFixedAgrees | bodypose/estimate_bodypose.py:55-57 | the corrected naming gives the script's names wherever the script succeeds on a name not starting with its dot |
| BodyPose.Flattened | bodypose/estimate_bodypose.py:103-110 | a pose of n landmarks flattens to 3n values; entry 3k + j is coordinate j of landmark k |
| BodyPose.FlattenedSnoc | bodypose/estimate_bodypose.py:104-109 | appending a landmark appends its x, y and z |
| BodyPose.FlattenPose | bodypose/estimate_bodypose.py:103-110 | the loop from three zeros, appending each landmark and dropping the zeros at the end, yields exactly the flattened pose |
| BodyPose.LastPose | bodypose/estimate_bodypose.py:102-111 | the most recent detection, when there is one, has 33 landmarks |
| BodyPose.Halt | bodypose/estimate_bodypose.py:65-132 | from `idx == k` the loop stops at some h ≥ k; when k is below the larger of the number of reads and the declared frame count, h is at most that larger number, and otherwise h is k |
| BodyPose.Track | bodypose/estimate_bodypose.py:65-114 | the saved track has one row per value of `idx` up to where the loop stops |
| BodyPose.DecodedCount | bodypose/estimate_bodypose.py:126 | no more frames are written than reads were made |
| BodyPose.TrackBuilder.constructor | bodypose/estimate_bodypose.py:41-52 | the loop starts with no rows, no last detected row and `idx` 0 |
| BodyPose.TrackBuilder.Step | bodypose/estimate_bodypose.py:66-114 | a failed read at or past the frame count stops without change; a failed read below it appends the fallback row and writes nothing; a frame without a pose appends the fallback row; a detection replaces the last detected row and appends it; every decoded frame is written, and ESC stops only with the display on; the row count stays equal to `idx` and every row has 99 entries |
| BodyPose.ProcessVideo | bodypose/estimate_bodypose.py:62-135 | the loop's saved track is the reference track and the frames written are the decoded reads among its rows; a capture that is not open gives nothing |
| BodyPose.TrackRowWidth | bodypose/estimate_bodypose.py:73-111 | every row of the track has 99 entries |
| BodyPose.ZerosBeforeFirstDetection | bodypose/estimate_bodypose.py:97-99 | every row before the first detection is all zeros |
| BodyPose.NoDetectionNoPose | bodypose/estimate_bodypose.py:72-73 | without any detection so far there is no last detected row |
| BodyPose.CarryForward | bodypose/estimate_bodypose.py:70-111 | after a detection at frame i, each later frame without a newer detection repeats frame i's row exactly |
| BodyPose.HaltFacts | bodypose/estimate_bodypose.py:65-132 | the loop stops either at a failed read at or past the frame count or right after a frame with ESC (display on); every earlier failed read was below the frame count and no earlier frame had ESC |
| BodyPose.FailedReadRowsBelowFrameCount | bodypose/estimate_bodypose.py:67-79 | a row produced by a failed read always sits below the declared frame count |
| BodyPose.NoDisplayCoversDeclaredFrames | bodypose/estimate_bodypose.py:65-79 | without the display every declared frame gets a row, and the run ends at a failed read at or past the count |
| BodyPose.EscKeepsCurrentRow | bodypose/estimate_bodypose.py:126-135 | ESC on frame k ends the track with k + 1 rows, and frame k's row is kept |
| BodyPose.HaltFrom | bodypose/estimate_bodypose.py:128-132 | from any earlier `idx` the loop runs through to the frame where ESC is pressed |
| HeadPoseEstimation.Square | headpose/opencv_dlib_custom/head_pose_estimation.py:34-38 | a square is five points at one depth, its corners following the signs (-,-), (-,+), (+,+), (+,-), (-,-) |
| HeadPoseEstimation.Box | headpose/opencv_dlib_custom/head_pose_estimation.py:30-46 | the box points are ten: points 0-4 the rear square and points 5-9 the front square, in that order |
| HeadPoseEstimation.Box3dPoints | headpose/opencv_dlib_custom/head_pose_estimation.py:30-46 | the ten appends build the rear square followed by the front square |
| HeadPoseEstimation.BoxShape | headpose/opencv_dlib_custom/head_pose_estimation.py:30-47 | the box has ten points; points 0-4 are the closed rear square and 5-9 the closed front square, so 4 repeats 0 and 9 repeats 5 |
| HeadPoseEstimation.SquareCornersDistinct | headpose/opencv_dlib_custom/head_pose_estimation.py:34-37 | a square of non-zero size has four distinct corners |
| HeadPoseEstimation.Get2dPoints | headpose/opencv_dlib_custom/head_pose_estimation.py:28-56 | ten 2D points, point i the projection of box point i |
| HeadPoseEstimation.FixedBox | headpose/opencv_dlib_custom/head_pose_estimation.py:93-97 | the fixed sizes put box point 2 at (1, 1, 0) and points 5 and 8 at (-w, -w, 2w) and (w, -w, 2w), w being the image width |
| HeadPoseEstimation.DrawAnnotationBox | headpose/opencv_dlib_custom/head_pose_estimation.py:93-106 | the size arguments are ignored: the polyline is the projected box with a unit rear square at depth 0 and a front square of the image width at twice that depth, closed at 4 and 9, and the extra edges join points 1-6, 2-7 and 3-8 |
| HeadPoseEstimation.FloorMid | headpose/opencv_dlib_custom/head_pose_estimation.py:136 | the floor midpoint m satisfies 2m ≤ a + b < 2m + 2 and lies between a and b |
| HeadPoseEstimation.HeadPosePoints | headpose/opencv_dlib_custom/head_pose_estimation.py:130-139 | the sideways line runs from the projection of (1, 1, 0) to the floor midpoint of the projections of (-w, -w, 2w) and (w, -w, 2w) |
| HeadPoseEstimation.NoseAngle | headpose/opencv_dlib_custom/head_pose_estimation.py:263-267 | the nose angle is the sentinel 90 exactly when both points share an x coordinate, otherwise the arctangent value |
| HeadPoseEstimation.VerticalMessage | headpose/opencv_dlib_custom/head_pose_estimation.py:276-281 | "Head down" exactly when ang1 ≥ 48, "Head up" exactly when ang1 ≤ -48 |
| HeadPoseEstimation.SidewaysMessage | headpose/opencv_dlib_custom/head_pose_estimation.py:283-288 | "Head right" exactly when ang2 ≥ 48, "Head left" exactly when ang2 ≤ -48 |
| HeadPoseEstimation.VerticalNoseLineReadsHeadDown | headpose/opencv_dlib_custom/head_pose_estimation.py:263-281 | a vertical nose line always reads "Head down" |
| HeadPoseEstimation.QuietBand | headpose/opencv_dlib_custom/head_pose_estimation.py:276-288 | angles strictly between -48 and 48 give no message |
| HeadPoseEstimation.JudgeFace | headpose/opencv_dlib_custom/head_pose_estimation.py:254-291 | each face's messages are the rules applied to its nose angle and its sideways angle |
| HeadPoseEstimation.Annotate | headpose/opencv_dlib_custom/head_pose_estimation.py:230-291 | one verdict per face |
| HeadPoseEstimation.AnnotateFrame | headpose/opencv_dlib_custom/head_pose_estimation.py:230-291 | the per-face loop gives, in order, each face's verdict |
| HeadPoseEstimation.HeadposeName | headpose/opencv_dlib_custom/head_pose_estimation.py:167-169 | the output name is the base name with "_headpose" inserted between its `splitext` root and its extension, nine characters longer than the base name |
| HeadPoseEstimation.HeadposeNameSplit | headpose/opencv_dlib_custom/head_pose_estimation.py:167-169 | the output name keeps the input's extension, and its root is the input's root followed by "_headpose" |
| HeadPoseEstimation.HeadposeNameNoSlash | headpose/opencv_dlib_custom/head_pose_estimation.py:169 | the output name of a base name holds no '/' |
| HeadPoseEstimation.ExtensionKept | headpose/opencv_dlib_custom/head_pose_estimation.py:167-169 | a root tagged "_headpose" followed by a dotted extension splits back into the tagged root and that extension |
| HeadPoseEstimation.NoExtensionKept | headpose/opencv_dlib_custom/head_pose_estimation.py:167-169 | a base name without an extension gives a tagged name without an extension |
| HeadPoseEstimation.OutputVideoName | headpose/opencv_dlib_custom/head_pose_estimation.py:162-185 | an existing input file gives a name whose `splitext` root is the file's root followed by "_headpose" and whose extension is the file's; no input with an open webcam gives "webcam_headpose.avi"; a missing input file, or no input and no webcam, gives "test_1min_1p_headpose.avi"; the name holds no '/' |
| HeadPoseEstimation.DefaultVideoName | headpose/opencv_dlib_custom/head_pose_estimation.py:173-174 | the default video "test_1min_1p.avi" gives "test_1min_1p_headpose.avi" |
| HeadPoseEstimation.DefaultVideoSplit | headpose/opencv_dlib_custom/head_pose_estimation.py:173 | the default video is its own base name and splits into "test_1min_1p" and ".avi" |
| HeadPoseEstimation.OutputVideoPath | headpose/opencv_dlib_custom/head_pose_estimation.py:162-185 | the output path is the output folder, '/', then the chosen output name, whose base name it therefore is |
| HeadPoseEstimation.RunHeadPose | headpose/opencv_dlib_custom/head_pose_estimation.py:190-297 | the loop writes exactly the reference sequence of annotated frames |
| HeadPoseEstimation.WrittenFrom | headpose/opencv_dlib_custom/head_pose_estimation.py:226-297 | from read k on, nothing is written once the reads are exhausted, and at most one frame per remaining read |
| HeadPoseEstimation.HeadPoseRun | headpose/opencv_dlib_custom/head_pose_estimation.py:190-297 | a failed sizing read writes nothing, and at most one frame is written per read after the sizing read |
| HeadPoseEstimation.WrittenFromFacts | headpose/opencv_dlib_custom/head_pose_estimation.py:226-297 | written frame i is read k + i, all those reads succeeded, no `q` came before the last of them, and the loop stops at a failed read or right after a `q` |
| HeadPoseEstimation.HeadPoseRunFacts | headpose/opencv_dlib_custom/head_pose_estimation.py:190-297 | a failed sizing read writes nothing; otherwise written frame i is read i + 1, so the sizing frame is never written |
| HeadPoseEstimation.HeadPoseRunLength | headpose/opencv_dlib_custom/head_pose_estimation.py:226-297 | at most one frame is written per read after the sizing read |
| HeadPoseReliability.ResolveInputs | headpose/openface/check_headpose_reliability.py:42-48 | a missing or empty list becomes the two default files; any other list is used as given |
| HeadPoseReliability.ColorFor | headpose/openface/check_headpose_reliability.py:60-77 | every column's colour is one of the seven palette colours |
| HeadPoseReliability.ColorsRepeat | headpose/openface/check_headpose_reliability.py:60-77 | colours repeat every seven files |
| HeadPoseReliability.FirstColorsDistinct | headpose/openface/check_headpose_reliability.py:60-77 | the first seven files all get different colours |
| HeadPoseReliability.YLabel | headpose/openface/check_headpose_reliability.py:29 | a y label exists exactly when the series label has an underscore, and it holds none |
| HeadPoseReliability.YLabelsOfRows | headpose/openface/check_headpose_reliability.py:29-64 | the three rows are labelled Tx, Ty and Tz |
| HeadPoseReliability.YLabelOfPoseLabel | headpose/openface/check_headpose_reliability.py:29 | a "pose_" series label has its axis name as y label |
| HeadPoseReliability.SplitPoseLabel | headpose/openface/check_headpose_reliability.py:29 | "pose_" followed by an axis name splits into "pose" and the axis |
| HeadPoseReliability.Stem | headpose/openface/check_headpose_reliability.py:71 | a file's stem has no '/', and it is its base name with the `splitext` extension removed: stem followed by that extension gives the base name back |
| HeadPoseReliability.Title | headpose/openface/check_headpose_reliability.py:73 | a title is the stem followed by the row's " - X/Y/Z Coordinate" suffix, 15 characters longer than the stem |
| HeadPoseReliability.PanelFor | headpose/openface/check_headpose_reliability.py:71-77 | the panel at row `row`, column `col` plots the row's series with the row's y limits (lower below upper), in a palette colour, under a title starting with the file's stem |
| HeadPoseReliability.PanelContents | headpose/openface/check_headpose_reliability.py:62-77 | column `col`'s rows show pose_Tx, pose_Ty and pose_Tz with limits (-500, 500), (-500, 500) and (0, 1500), titled after the file with " - X/Y/Z Coordinate", in the column's colour, with y labels Tx, Ty, Tz |
| HeadPoseReliability.LoadedPrefix | headpose/openface/check_headpose_reliability.py:67-69 | the files before the returned position all load, and the file at it, if any, is missing a column |
| HeadPoseReliability.PlotLayout | headpose/openface/check_headpose_reliability.py:42-88 | the grid has 3 rows and one column per resolved input (3 × 1 for one file); every column up to the first file missing a column holds that file's panels; the figure is saved, at `OutputPath`, exactly when every file loads |
| HeadPoseReliability.PlotColumn | headpose/openface/check_headpose_reliability.py:76-77 | filling one column sets its three panels and leaves every other column as it was |
| HeadPoseReliability.Stems | headpose/openface/check_headpose_reliability.py:83 | one stem per file, in input order |
| HeadPoseReliability.OutputFileName | headpose/openface/check_headpose_reliability.py:83-84 | the figure name ends with "__headpose.png" and its length is the stems' total length, N - 1 separators and the suffix |
| HeadPoseReliability.OutputFileNameSnoc | headpose/openface/check_headpose_reliability.py:83-84 | one more file adds a separator and its stem just before the suffix, so names appear in input order |
| HeadPoseReliability.OutputFileNameSingle | headpose/openface/check_headpose_reliability.py:83-84 | a single file gives its stem followed by the suffix, with no separator |
| HeadPoseReliability.OutputPath | headpose/openface/check_headpose_reliability.py:86 | the figure is saved at the output folder, '/', then the figure name, which is therefore its base name |
| HeadPoseReliability.OutputFileNameNoSlash | headpose/openface/check_headpose_reliability.py:83-84 | the figure name holds no '/', since stems and the separator and suffix hold none |
| HeadPoseReliability.IndexOf | headpose/openface/check_headpose_reliability.py:21 | the position of a column label, -1 exactly when absent |
| HeadPoseReliability.LoadAndFilter | headpose/openface/check_headpose_reliability.py:15-21 | the projection succeeds exactly when all four columns exist; it then has header timestamp, pose_Tx, pose_Ty, pose_Tz, the same number of rows, and each value taken from the matching column |
| CutSnippet.Trunc | utils/cut_snippet.py:27 | conversion to int truncates toward zero, from either side |
| CutSnippet.FramesToExtract | utils/cut_snippet.py:27 | for a non-negative frame rate the frame budget is the largest integer not above 20 seconds' worth of frames |
| CutSnippet.Clamped | utils/cut_snippet.py:29-43 | with cropping on, each bound is clamped on its own side into the frame; with cropping off the rectangle is the whole frame |
| CutSnippet.ClampCrop | utils/cut_snippet.py:29-43 | the bounds are the clamped rectangle and the crop size is the difference of its bounds; with cropping off the size is the frame size |
| CutSnippet.NegativeSize | utils/cut_snippet.py:31-36 | with cropping on, any requested left edge beyond the frame's right edge gives a negative width, and any requested top edge beyond its bottom edge a negative height |
| CutSnippet.NegativeWidthExample | utils/cut_snippet.py:31-35 | a requested left edge of 700 on a frame 600 wide gives width -100 |
| CutSnippet.SliceIndex | utils/cut_snippet.py:56 | a slice bound in range is kept, one past the end becomes the length, a negative one counts from the end, and one before the start becomes 0 |
| CutSnippet.PySlice | utils/cut_snippet.py:56 | a Python slice has the length between its normalised bounds (zero when they cross) and element i is element a + i of the sequence |
| CutSnippet.CropFrame | utils/cut_snippet.py:56 | the crop has exactly as many rows as the Python slice of rows between the vertical bounds (none when they cross), and row i is frame row (normalised min_y) + i sliced between the horizontal bounds |
| CutSnippet.CropContents | utils/cut_snippet.py:56 | a rectangle inside the frame crops to exactly its rows and columns, pixel for pixel |
| CutSnippet.ClampedCropFitsWriter | utils/cut_snippet.py:47-57 | with bounds in order, each cropped frame has the size the writer was opened with |
| CutSnippet.InvertedCropIsEmpty | utils/cut_snippet.py:56 | a rectangle whose left edge lies past its right edge crops every row to nothing |
| CutSnippet.InvertedRowsCropIsEmpty | utils/cut_snippet.py:56 | a rectangle whose top edge lies below its bottom edge, within the frame, crops to no rows |
| CutSnippet.SuccessfulPrefix | utils/cut_snippet.py:51-54 | the reads before the first failed one all succeeded, and the next one failed |
| CutSnippet.CopiedCount | utils/cut_snippet.py:50-58 | the loop copies no more frames than successful reads before the first failure, none for a non-positive budget, at most the budget, and stops at whichever of the two comes first |
| CutSnippet.CopyFrames | utils/cut_snippet.py:50-58 | the loop writes min(budget, successful reads before the first failure) frames, `frame_count` ends equal to that number, and frame i written is read i cropped |
| CutSnippet.CutSnippet | utils/cut_snippet.py:13-58 | a video that fails to open produces nothing; otherwise the clip has the source frame rate, the size of the clamped rectangle, and frame i is read i cropped to that rectangle |
| CutSnippet.ScriptSettingsOnFullHd | utils/cut_snippet.py:4-36 | with the script's settings a 1920 × 1080 video is cut to 750 × 600 |

## Left out

- Pose detection, face detection, landmark regression, `cv2.solvePnP` and `cv2.projectPoints`: these are model inference and camera geometry. A frame's detection arrives in its read event. The projection is the parameter `project`, which already returns integer points, so the `np.int32` conversion of projected points is folded into it.
- `math.atan` and `math.degrees` for a non-vertical nose line: floating-point trigonometry. The truncated angle is an input (`noseAtan`). Only the exception path that puts 90 in its place is modelled.
- The sideways angle `ang2` is taken as an input. Its operands are numpy int32 values, so a zero difference gives inf or nan with a warning rather than an exception, and the 90 fallback fires only on nan. The model makes no claim about when `ang2` is 90.
- HeadPoseEstimation.HeadPosePoints: does not model the int32 wrap-around of the sum of two projected coordinates, because the model's integers are unbounded; the two agree whenever the sum fits in 32 bits.
- HeadPoseEstimation.NoseAngle: the result is stated relative to the supplied arctangent value. A nearly vertical line whose truncated arctangent is itself 90 or more is not distinguished from the sentinel.
- Video reading and writing, `imshow`, `waitKey`, colour conversion and resizing: I/O and display. A read outcome and a key press arrive as per-frame events. Reads past the end of the given events fail. The frame written is represented by its verdicts or by the fact that it was written.
- Drawing: circles, lines, text, polylines, and the matplotlib calls that draw, add legends, grids, the "Timestamp" x label, `tight_layout`, `savefig` and `show`. A panel records its series, title, colour and y limits; its y label is `YLabel(series)`.
- `np.savetxt` and `pd.read_csv`: file I/O. A loaded CSV file is a `Table` whose header is already distinct, as pandas makes it.
- Printing, logging and the verbosity options of the head-pose script: these are side effects only.
- Command-line parsing by `argparse` in the two head-pose scripts: the parsed values are the inputs. `os.path.isfile` and whether the webcam opens are boolean parameters of `OutputVideoPath`.
- Camera matrix, model points and video properties (frame rate, size) of the head-pose script: they only feed the projection and the writer.
- BodyPose.ProcessVideo: whether the capture is open is read once. Once a capture has opened, the script's `cap.isOpened()` stays true for the whole loop.
- BodyPose.FlattenPose: requires the 33 landmarks that the pose model always reports.
- CutSnippet.FramesToExtract: multiplies exact reals, while Python rounds the double product fps × 20 before `int()` truncates it, so the two can differ by one when the product rounds up to a whole number (fps 12.35 gives 247 in Python and 246 here).
- HeadPoseReliability.PlotLayout: the panels record what `plot_data` sets, not the plotted values; a file missing a column is modelled as the KeyError ending `main` at that column, so nothing after it is drawn and the figure is not saved.
- CutSnippet's `total_frames` (utils/cut_snippet.py:24) is read but never used, so it is not modelled.
- `utils/divide_and_rotate.py` (a floating-point rotation matrix) and `headpose/opencv_dlib_custom/detect_face.py` (a neural-network face detector) are not part of this model.

## Findings

| source | as written | input that shows it | evidently intended | confidence | as-written member | corrected member |
|---|---|---|---|---|---|---|
| bodypose/estimate_bodypose.py:55 | the base name is split at every dot and unpacked into exactly a name and an extension, so a name with a second dot raises ValueError before any frame is processed | `-input clip.v2.mp4` (base name `clip.v2.mp4`) | split off only the last extension, as `os.path.splitext` does in the head-pose scripts, giving `clip.v2__bodypose.mp4` and `clip.v2__bodypose.csv` | medium, not executed | BodyPose.OutputPathsRejectsTwoDots | BodyPose.OutputPathsFixedOnTwoDots |

The corrected naming is `BodyPose.OutputPathsFixed`. It is total.
`BodyPose.OutputPathsFixedOnTwoDots` proves that it names a two-dot input after
everything before the last dot. `BodyPose.OutputPathsFixedAgrees` proves that
it gives the script's own names wherever the script succeeds on a base name
that does not start with its dot.
