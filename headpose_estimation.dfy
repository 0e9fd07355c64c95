/** The head-pose estimation script
    (headpose/opencv_dlib_custom/head_pose_estimation.py): the 3D annotation
    box, the two projected points that give the sideways line, the
    up/down/left/right decision rules, the output video name and the frame
    loop. Face detection, landmark regression, `cv2.solvePnP`,
    `cv2.projectPoints` and `math.atan` are outside the model: the
    projection is a function parameter, and each face arrives with the
    integer angles those calls produce. */
module HeadPoseEstimation {
  import opened Wrappers
  import opened PyStrings

  const DefaultVideo: string := "test_1min_1p.avi"
  const OutputFolder: string := "../../data/data_processed/videos/opencv_dlib_custom"

  /** Threshold, in degrees, of the direction messages. */
  const Threshold: int := 48
  /** The angle substituted when the slope computation raises. */
  const Sentinel: int := 90

  datatype Point3 = Point3(x: int, y: int, z: int)
  datatype Point2 = Point2(x: int, y: int)

  /** The four box parameters: the rear square's half-side and depth, then
      the front square's. */
  datatype BoxParams = BoxParams(rearSize: int, rearDepth: int, frontSize: int, frontDepth: int)

  // ---------------------------------------------------------------------
  // The annotation box

  /** The corner order of each square: (-,-), (-,+), (+,+), (+,-) and back
      to (-,-). */
  const CornerSigns: seq<(int, int)> := [(-1, -1), (-1, 1), (1, 1), (1, -1), (-1, -1)]

  /** One closed square of half-side `size` at depth `depth`. */
  function Square(size: int, depth: int): (sq: seq<Point3>)
    ensures |sq| == 5
    ensures forall i :: 0 <= i < 5 ==>
      sq[i] == Point3(CornerSigns[i].0 * size, CornerSigns[i].1 * size, depth)
  {
    seq(5, i requires 0 <= i < 5 => Point3(CornerSigns[i].0 * size, CornerSigns[i].1 * size, depth))
  }

  /** The ten 3D points: the rear square, then the front square. */
  function Box(val: BoxParams): (b: seq<Point3>)
    ensures |b| == 10
    ensures forall i :: 0 <= i < 5 ==>
      b[i] == Square(val.rearSize, val.rearDepth)[i] && b[i + 5] == Square(val.frontSize, val.frontDepth)[i]
  {
    Square(val.rearSize, val.rearDepth) + Square(val.frontSize, val.frontDepth)
  }

  /** The ten appends that build the 3D points in `get_2d_points`. */
  method Box3dPoints(val: BoxParams) returns (points: seq<Point3>)
    ensures points == Box(val)
  {
    var rs, rd := val.rearSize, val.rearDepth;
    points := [];
    points := points + [Point3(-rs, -rs, rd)];
    points := points + [Point3(-rs, rs, rd)];
    points := points + [Point3(rs, rs, rd)];
    points := points + [Point3(rs, -rs, rd)];
    points := points + [Point3(-rs, -rs, rd)];
    var fs, fd := val.frontSize, val.frontDepth;
    points := points + [Point3(-fs, -fs, fd)];
    points := points + [Point3(-fs, fs, fd)];
    points := points + [Point3(fs, fs, fd)];
    points := points + [Point3(fs, -fs, fd)];
    points := points + [Point3(-fs, -fs, fd)];
  }

  /** The box is two closed squares: ten points, the rear square first
      and the front square after it, so point 4 repeats point 0 and point 9
      repeats point 5. */
  lemma BoxShape(val: BoxParams)
    ensures var b := Box(val);
      |b| == 10 && b[4] == b[0] && b[9] == b[5] &&
      b[..5] == Square(val.rearSize, val.rearDepth) && b[5..] == Square(val.frontSize, val.frontDepth)
  {
    var b := Box(val);
    assert b[..5] == Square(val.rearSize, val.rearDepth);
    assert b[5..] == Square(val.frontSize, val.frontDepth);
  }

  /** A square of non-zero size has four distinct corners. */
  lemma SquareCornersDistinct(size: int, depth: int)
    requires size != 0
    ensures forall i, j :: 0 <= i < j < 4 ==> Square(size, depth)[i] != Square(size, depth)[j]
  {
    var sq := Square(size, depth);
    assert sq[0] == Point3(-size, -size, depth) && sq[1] == Point3(-size, size, depth);
    assert sq[2] == Point3(size, size, depth) && sq[3] == Point3(size, -size, depth);
  }

  /** `get_2d_points`: build the box and project it. */
  method Get2dPoints(val: BoxParams, project: Point3 -> Point2) returns (points: seq<Point2>)
    ensures |points| == 10
    ensures forall i :: 0 <= i < 10 ==> points[i] == project(Box(val)[i])
  {
    var points3 := Box3dPoints(val);
    points := seq(10, i requires 0 <= i < 10 => project(points3[i]));
  }

  /** `draw_annotation_box` and `head_pose_points` both overwrite their
      size arguments: a unit rear square at depth 0 and a front square as
      large as the image width at twice that depth. */
  function FixedBox(imageWidth: int): (val: BoxParams)
    ensures Box(val)[2] == Point3(1, 1, 0)
    ensures Box(val)[5] == Point3(-imageWidth, -imageWidth, 2 * imageWidth)
    ensures Box(val)[8] == Point3(imageWidth, -imageWidth, 2 * imageWidth)
  {
    BoxParams(1, 0, imageWidth, imageWidth * 2)
  }

  /** `draw_annotation_box`: the closed polyline through the ten projected
      points and the three edges 1-6, 2-7 and 3-8; the size arguments play
      no part in the result. */
  method DrawAnnotationBox(imageWidth: int, rearSize: int, rearDepth: int, frontSize: int,
                           frontDepth: int, project: Point3 -> Point2)
    returns (polyline: seq<Point2>, edges: seq<(Point2, Point2)>)
    ensures |polyline| == 10 && polyline[4] == polyline[0] && polyline[9] == polyline[5]
    ensures polyline[0] == project(Point3(-1, -1, 0))
    ensures polyline[5] == project(Point3(-imageWidth, -imageWidth, 2 * imageWidth))
    ensures forall i :: 0 <= i < 10 ==> polyline[i] == project(Box(FixedBox(imageWidth))[i])
    ensures edges == [(polyline[1], polyline[6]), (polyline[2], polyline[7]), (polyline[3], polyline[8])]
  {
    var rs, rd, fs, fd := 1, 0, imageWidth, imageWidth * 2;
    polyline := Get2dPoints(BoxParams(rs, rd, fs, fd), project);
    BoxShape(FixedBox(imageWidth));
    edges := [(polyline[1], polyline[6]), (polyline[2], polyline[7]), (polyline[3], polyline[8])];
  }

  /** Python's floor division of a sum by two: the floor of the midpoint.
      Dafny's `/` by a positive divisor rounds down as Python's `//` does. */
  function FloorMid(a: int, b: int): (m: int)
    ensures 2 * m <= a + b < 2 * m + 2
    ensures (a <= b ==> a <= m <= b) && (b <= a ==> b <= m <= a)
  {
    (a + b) / 2
  }

  function Midpoint(p: Point2, q: Point2): Point2
  {
    Point2(FloorMid(p.x, q.x), FloorMid(p.y, q.y))
  }

  /** `head_pose_points`: the sideways line runs from the projection of the
      rear corner (1, 1, 0) to the floor midpoint of the projections of the
      two front corners (-w, -w, 2w) and (w, -w, 2w). */
  method HeadPosePoints(imageWidth: int, project: Point3 -> Point2) returns (x: Point2, y: Point2)
    ensures x == project(Point3(1, 1, 0))
    ensures y == Midpoint(project(Point3(-imageWidth, -imageWidth, 2 * imageWidth)),
                          project(Point3(imageWidth, -imageWidth, 2 * imageWidth)))
  {
    var points := Get2dPoints(FixedBox(imageWidth), project);
    BoxShape(FixedBox(imageWidth));
    y := Point2((points[5].x + points[8].x) / 2, (points[5].y + points[8].y) / 2);
    x := points[2];
  }

  // ---------------------------------------------------------------------
  // Angles and messages

  /** `ang1`, the angle of the nose line p1 -> p2. `atanDegrees` is the
      arctangent of the slope m in degrees, truncated to an integer; when p1
      and p2 share an x coordinate the division raises ZeroDivisionError and
      the handler puts the sentinel in its place. */
  function NoseAngle(p1: Point2, p2: Point2, atanDegrees: int): (ang1: int)
    ensures p2.x == p1.x ==> ang1 == Sentinel
    ensures p2.x != p1.x ==> ang1 == atanDegrees
  {
    if p2.x - p1.x == 0 then Sentinel else atanDegrees
  }

  datatype Vertical = HeadDown | HeadUp | NoVertical
  datatype Sideways = HeadRight | HeadLeft | NoSideways

  /** The up/down message chosen from `ang1`. */
  function VerticalMessage(ang1: int): (v: Vertical)
    ensures v == HeadDown <==> ang1 >= Threshold
    ensures v == HeadUp <==> ang1 <= -Threshold
  {
    if ang1 >= Threshold then HeadDown
    else if ang1 <= -Threshold then HeadUp
    else NoVertical
  }

  /** The left/right message chosen from `ang2`. */
  function SidewaysMessage(ang2: int): (s: Sideways)
    ensures s == HeadRight <==> ang2 >= Threshold
    ensures s == HeadLeft <==> ang2 <= -Threshold
  {
    if ang2 >= Threshold then HeadRight
    else if ang2 <= -Threshold then HeadLeft
    else NoSideways
  }

  /** A vertical nose line always reads "Head down". */
  lemma VerticalNoseLineReadsHeadDown(p1: Point2, p2: Point2, atanDegrees: int)
    requires p2.x == p1.x
    ensures VerticalMessage(NoseAngle(p1, p2, atanDegrees)) == HeadDown
  {
  }

  /** Angles strictly between the two thresholds give no message. */
  lemma QuietBand(ang1: int, ang2: int)
    requires -Threshold < ang1 < Threshold && -Threshold < ang2 < Threshold
    ensures VerticalMessage(ang1) == NoVertical && SidewaysMessage(ang2) == NoSideways
  {
  }

  /** What the detector and the two oracles give for one face: the nose
      tip p1, the projection p2 of (0, 0, 1000), the truncated arctangent
      of the nose-line slope, and the sideways angle `ang2`. */
  datatype FaceObservation = FaceObservation(nose: Point2, noseEnd: Point2, noseAtan: int, ang2: int)

  /** What is drawn for one face: both angles and the messages. */
  datatype FaceVerdict = FaceVerdict(ang1: int, ang2: int, vertical: Vertical, sideways: Sideways)

  function JudgeFace(face: FaceObservation): (v: FaceVerdict)
    ensures v.vertical == VerticalMessage(v.ang1) && v.sideways == SidewaysMessage(v.ang2)
    ensures v.ang1 == NoseAngle(face.nose, face.noseEnd, face.noseAtan) && v.ang2 == face.ang2
  {
    var ang1 := NoseAngle(face.nose, face.noseEnd, face.noseAtan);
    FaceVerdict(ang1, face.ang2, VerticalMessage(ang1), SidewaysMessage(face.ang2))
  }

  function Annotate(faces: seq<FaceObservation>): (vs: seq<FaceVerdict>)
    ensures |vs| == |faces|
  {
    seq(|faces|, i requires 0 <= i < |faces| => JudgeFace(faces[i]))
  }

  /** The `for face in faces` loop of one frame. */
  method AnnotateFrame(faces: seq<FaceObservation>) returns (verdicts: seq<FaceVerdict>)
    ensures |verdicts| == |faces|
    ensures forall i :: 0 <= i < |faces| ==> verdicts[i] == JudgeFace(faces[i])
  {
    verdicts := [];
    for i := 0 to |faces|
      invariant |verdicts| == i
      invariant forall j :: 0 <= j < i ==> verdicts[j] == JudgeFace(faces[j])
    {
      var ang1 := NoseAngle(faces[i].nose, faces[i].noseEnd, faces[i].noseAtan);
      var ang2 := faces[i].ang2;
      verdicts := verdicts + [FaceVerdict(ang1, ang2, VerticalMessage(ang1), SidewaysMessage(ang2))];
    }
  }

  // ---------------------------------------------------------------------
  // Output name

  /** The output file name: the input's root, "_headpose", then the
      input's extension. */
  function HeadposeName(base: string): (name: string)
    ensures var root, ext := Splitext(base).0, Splitext(base).1;
      |name| == |base| + 9 && name[..|root|] == root &&
      name[|root|..|root| + 9] == "_headpose" && name[|root| + 9..] == ext
  {
    var (root, ext) := Splitext(base);
    root + "_headpose" + ext
  }

  /** The output keeps the input's extension, and its stem is the input's
      stem followed by "_headpose". */
  lemma HeadposeNameSplit(base: string)
    requires '/' !in base
    ensures Splitext(HeadposeName(base)) == (Splitext(base).0 + "_headpose", Splitext(base).1)
  {
    var (root, ext) := Splitext(base);
    HeadposeNameNoSlash(base);
    var out := HeadposeName(base);
    RFindIs(out, '/', -1);
    if ext != [] {
      ExtensionKept(root, ext, out);
    } else {
      NoExtensionKept(base, out);
    }
  }

  lemma ExtensionKept(root: string, ext: string, out: string)
    requires out == root + "_headpose" + ext && RFind(out, '/') == -1
    requires ext != [] && ext[0] == '.' && '.' !in ext[1..]
    ensures Splitext(out) == (root + "_headpose", ext)
  {
    var stem := root + "_headpose";
    var d := |stem|;
    assert out == stem + ext;
    assert out[d] == '.';
    assert forall j :: d < j < |out| ==> out[j] == ext[1..][j - d - 1];
    RFindIs(out, '.', d);
    assert out[|root|] == '_';
    assert HasNonDot(out, 0, d);
    assert out[..d] == stem && out[d..] == ext;
  }

  lemma NoExtensionKept(base: string, out: string)
    requires '/' !in base && Splitext(base).1 == [] && out == HeadposeName(base)
    requires RFind(out, '/') == -1
    ensures Splitext(out) == (Splitext(base).0 + "_headpose", [])
  {
    RFindIs(base, '/', -1);
    assert Splitext(base).0 == base;
    assert out == base + "_headpose";
    RFindAppend(base, "_headpose", '.');
    RFindIs("_headpose", '.', -1);
    var d := RFind(base, '.');
    assert RFind(out, '.') == d;
    if d >= 0 {
      assert !HasNonDot(out, 0, d) by {
        forall j | 0 <= j < d ensures out[j] == '.' {
          assert base[d] == '.' && out[j] == base[j];
        }
      }
    }
  }

  /** Whether the `-i` argument is given (an empty string counts as absent). */
  predicate HasInput(input: Option<string>)
  {
    input.Some? && input.value != []
  }

  /** The output video path chosen in `main`: the output folder, a '/',
      then the chosen file name. */
  function OutputVideoPath(input: Option<string>, inputIsFile: bool, webcamOpened: bool): (path: string)
    ensures path == OutputFolder + "/" + OutputVideoName(input, inputIsFile, webcamOpened)
    ensures Basename(path) == OutputVideoName(input, inputIsFile, webcamOpened)
  {
    var name := OutputVideoName(input, inputIsFile, webcamOpened);
    BasenameOfJoin(OutputFolder, name);
    BasenameOfPlain(name);
    PathJoin(OutputFolder, name)
  }

  /** The file name part of the output path: from the input file when it
      exists, "webcam_headpose.avi" when no input is given and the webcam
      opens, and from the default video otherwise (an input that is not a
      file, or no input and no webcam). */
  function OutputVideoName(input: Option<string>, inputIsFile: bool, webcamOpened: bool): (name: string)
    ensures '/' !in name
    ensures HasInput(input) && inputIsFile ==>
      var base := Basename(input.value);
      Splitext(name) == (Splitext(base).0 + "_headpose", Splitext(base).1)
    ensures !HasInput(input) && webcamOpened ==> name == "webcam_headpose.avi"
    ensures (HasInput(input) && !inputIsFile) || (!HasInput(input) && !webcamOpened) ==>
      name == "test_1min_1p_headpose.avi"
  {
    if HasInput(input) && inputIsFile then
      HeadposeNameNoSlash(Basename(input.value));
      HeadposeNameSplit(Basename(input.value));
      HeadposeName(Basename(input.value))
    else if !HasInput(input) && webcamOpened then
      WebcamName();
      "webcam" + "_headpose" + ".avi"
    else
      DefaultVideoName();
      DefaultVideoNameNoSlash();
      HeadposeName(Basename(DefaultVideo))
  }

  /** The webcam's output name. */
  lemma WebcamName()
    ensures "webcam" + "_headpose" + ".avi" == "webcam_headpose.avi"
    ensures '/' !in "webcam_headpose.avi"
  {
  }

  /** The default video's output name. */
  lemma DefaultVideoName()
    ensures HeadposeName(Basename(DefaultVideo)) == "test_1min_1p_headpose.avi"
  {
    var root: string, ext: string := "test_1min_1p", ".avi";
    DefaultVideoSplit();
    HeadposeNameOf(Basename(DefaultVideo), root, ext);
    assert root + "_headpose" + ext == "test_1min_1p_headpose.avi";
  }

  lemma DefaultVideoNameNoSlash()
    ensures '/' !in "test_1min_1p_headpose.avi"
  {
  }

  /** `HeadposeName` for a known split. */
  lemma HeadposeNameOf(base: string, root: string, ext: string)
    requires Splitext(base) == (root, ext)
    ensures HeadposeName(base) == root + "_headpose" + ext
  {
  }

  /** The default video is its own base name, with root "test_1min_1p"
      and extension ".avi". */
  lemma DefaultVideoSplit()
    ensures Splitext(Basename(DefaultVideo)) == ("test_1min_1p", ".avi")
  {
    DefaultVideoPlain();
    DefaultVideoExt();
  }

  lemma DefaultVideoPlain()
    ensures Basename(DefaultVideo) == DefaultVideo
  {
    BasenameOfPlain(DefaultVideo);
  }

  lemma DefaultVideoExt()
    ensures Splitext(DefaultVideo) == ("test_1min_1p", ".avi")
  {
    var root: string, ext: string := "test_1min_1p", "avi";
    assert DefaultVideo == root + "." + ext;
    SplitextAtLastDot(DefaultVideo, root, ext);
  }

  lemma HeadposeNameNoSlash(base: string)
    requires '/' !in base
    ensures '/' !in HeadposeName(base)
  {
    var (root, ext) := Splitext(base);
    var out := root + "_headpose" + ext;
    assert forall j :: 0 <= j < |out| ==> out[j] == (if j < |root| then base[j] else if j < |root| + 9 then "_headpose"[j - |root|] else base[j - 9]);
  }

  // ---------------------------------------------------------------------
  // The frame loop

  /** One `cap.read()`: failure, or a frame with the faces found on it and
      whether `q` was pressed while it was shown. */
  datatype HeadRead = HeadReadFailed | HeadFrame(faces: seq<FaceObservation>, quitPressed: bool)

  function HeadReadAt(events: seq<HeadRead>, k: nat): HeadRead
  {
    if k < |events| then events[k] else HeadReadFailed
  }

  /** The annotated frames written from read k on. */
  function WrittenFrom(events: seq<HeadRead>, k: nat): (out: seq<seq<FaceVerdict>>)
    ensures k >= |events| ==> out == []
    ensures k < |events| ==> |out| <= |events| - k
    decreases |events| - k
  {
    match HeadReadAt(events, k)
    case HeadReadFailed => []
    case HeadFrame(faces, quit) =>
      [Annotate(faces)] + (if quit then [] else WrittenFrom(events, k + 1))
  }

  /** Everything written to the output video: nothing when the first
      (sizing) read fails, otherwise the frames from the second read on. */
  function HeadPoseRun(events: seq<HeadRead>): (out: seq<seq<FaceVerdict>>)
    ensures HeadReadAt(events, 0).HeadReadFailed? ==> out == []
    ensures |out| <= if |events| == 0 then 0 else |events| - 1
  {
    if HeadReadAt(events, 0).HeadReadFailed? then [] else WrittenFrom(events, 1)
  }

  /** `main` from the sizing read to the end of the `while True` loop. */
  method RunHeadPose(events: seq<HeadRead>) returns (written: seq<seq<FaceVerdict>>)
    ensures written == HeadPoseRun(events)
  {
    written := [];
    if HeadReadAt(events, 0).HeadReadFailed? {
      return;
    }
    var k := 1;
    while true
      invariant 1 <= k
      invariant written + WrittenFrom(events, k) == WrittenFrom(events, 1)
      decreases |events| - k
    {
      var read := HeadReadAt(events, k);
      if read.HeadFrame? {
        var verdicts := AnnotateFrame(read.faces);
        assert verdicts == Annotate(read.faces);
        ghost var rest := if read.quitPressed then [] else WrittenFrom(events, k + 1);
        assert WrittenFrom(events, k) == [verdicts] + rest;
        assert written + WrittenFrom(events, k) == (written + [verdicts]) + rest;
        written := written + [verdicts];
        if read.quitPressed {
          break;
        }
      } else {
        break;
      }
      k := k + 1;
    }
  }

  /** `q` was pressed after read k. */
  predicate QuitAt(events: seq<HeadRead>, k: nat)
  {
    HeadReadAt(events, k).HeadFrame? && HeadReadAt(events, k).quitPressed
  }

  /** From read k on: written frame i is read k + i, every one of those
      reads succeeded, no `q` came before the last of them, and the loop
      stops at a failed read or right after a `q`. */
  lemma {:induction false} WrittenFromFacts(events: seq<HeadRead>, k: nat)
    ensures var out := WrittenFrom(events, k);
      (forall j :: k <= j < k + |out| ==>
        HeadReadAt(events, j).HeadFrame? && out[j - k] == Annotate(HeadReadAt(events, j).faces)) &&
      (forall j :: k <= j < k + |out| - 1 ==> !QuitAt(events, j)) &&
      (HeadReadAt(events, k + |out|).HeadReadFailed? || (|out| > 0 && QuitAt(events, k + |out| - 1)))
    decreases |events| - k
  {
    match HeadReadAt(events, k)
    case HeadReadFailed =>
    case HeadFrame(faces, quit) =>
      if !quit {
        WrittenFromFacts(events, k + 1);
      }
  }

  /** The sizing read is never written: written frame i is read i + 1, and
      every read before it succeeded without a `q`. */
  lemma HeadPoseRunFacts(events: seq<HeadRead>)
    ensures var out := HeadPoseRun(events);
      (HeadReadAt(events, 0).HeadReadFailed? ==> out == []) &&
      (forall j :: 1 <= j < |out| + 1 ==>
        HeadReadAt(events, j).HeadFrame? && out[j - 1] == Annotate(HeadReadAt(events, j).faces)) &&
      (forall j :: 1 <= j < |out| ==> !QuitAt(events, j)) &&
      (out != [] ==> HeadReadAt(events, |out| + 1).HeadReadFailed? || QuitAt(events, |out|))
  {
    if HeadReadAt(events, 0).HeadFrame? {
      WrittenFromFacts(events, 1);
    }
  }

  /** Only frames actually read are written: never more than one per read
      after the first. */
  lemma HeadPoseRunLength(events: seq<HeadRead>)
    ensures |HeadPoseRun(events)| <= if |events| == 0 then 0 else |events| - 1
  {
    HeadPoseRunFacts(events);
    var out := HeadPoseRun(events);
    if |out| > 0 {
      assert HeadReadAt(events, |out|).HeadFrame?;
    }
  }
}
