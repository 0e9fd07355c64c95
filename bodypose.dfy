/** The body-pose extraction script (bodypose/estimate_bodypose.py): its
    command-line scan, the output names it derives from the input video,
    and the frame loop that turns the pose detector's per-frame answers into
    a dense track of 99-column rows, one per frame, carrying the last
    detection forward over missed frames. The detector, the video reader and
    writer, the display and the CSV writer are outside the model: each
    frame's read outcome, detection and key press arrive as a `Read`. */
module BodyPose {
  import opened Wrappers
  import opened PyStrings

  const DefaultInputVideo: string :=
    "/home/groupwork/groupwork-tool/data/data_raw/videos/webcam/test_distance_webcam.avi"
  const OutputFolder: string :=
    "/home/groupwork/groupwork-tool/data/data_processed/videos/mediapipe/"

  /** The pose model reports 33 landmarks of three coordinates each. */
  const LandmarkCount: nat := 33
  const RowWidth: nat := 99

  datatype Landmark = Landmark(x: real, y: real, z: real)

  /** One iteration's input: `cap.read()` failed, or it gave a frame on
      which the detector found a pose (or `None`) and after which the ESC
      key was (or was not) pressed. */
  datatype Read =
    | ReadFailed
    | Decoded(pose: Option<seq<Landmark>>, escPressed: bool)

  predicate IsDetection(r: Read)
  {
    r.Decoded? && r.pose.Some?
  }

  /** The reader keeps failing once the recorded reads are used up. */
  function ReadAt(events: seq<Read>, k: nat): Read
  {
    if k < |events| then events[k] else ReadFailed
  }

  /** Every pose the detector reports has the model's 33 landmarks. */
  predicate WellFormed(events: seq<Read>)
  {
    forall k :: 0 <= k < |events| && IsDetection(events[k]) ==> |events[k].pose.value| == LandmarkCount
  }

  function Coord(l: Landmark, j: nat): real
    requires j < 3
  {
    if j == 0 then l.x else if j == 1 then l.y else l.z
  }

  function Zeros(n: nat): (z: seq<real>)
    ensures |z| == n && forall i :: 0 <= i < n ==> z[i] == 0.0
  {
    seq(n, _ => 0.0)
  }

  // ---------------------------------------------------------------------
  // Command line and output names

  predicate InputFlagAt(argv: seq<string>, i: int)
  {
    1 <= i && i % 2 == 1 && i + 1 < |argv| && argv[i] == "-input"
  }

  predicate DisplayFlagAt(argv: seq<string>, i: int)
  {
    1 <= i && i % 2 == 1 && i + 1 < |argv| && argv[i] == "-display" && argv[i + 1] == "on"
  }

  /** The scan of `sys.argv` (argv[0] is the script): only odd positions
      are flags; the last `-input v` wins, any `-display on` turns the
      display on, everything else is ignored. */
  method ScanArgs(argv: seq<string>) returns (inputVideo: string, displayVideo: bool)
    ensures (forall i :: 0 <= i < |argv| ==> !InputFlagAt(argv, i)) ==> inputVideo == DefaultInputVideo
    ensures forall i :: 0 <= i < |argv| && InputFlagAt(argv, i) ==>
      (forall j :: i < j < |argv| ==> !InputFlagAt(argv, j)) ==> inputVideo == argv[i + 1]
    ensures displayVideo <==> exists i :: 0 <= i < |argv| && DisplayFlagAt(argv, i)
  {
    inputVideo, displayVideo := DefaultInputVideo, false;
    ghost var last := -1;
    var i := 1;
    while i < |argv|
      invariant 1 <= i <= |argv| + 1 && i % 2 == 1
      invariant -1 <= last < i && last < |argv|
      invariant last == -1 ==> inputVideo == DefaultInputVideo
      invariant last == -1 ==> forall j :: 0 <= j < i && j < |argv| ==> !InputFlagAt(argv, j)
      invariant last >= 0 ==> InputFlagAt(argv, last) && inputVideo == argv[last + 1]
      invariant forall j :: last < j < i && j < |argv| ==> !InputFlagAt(argv, j)
      invariant displayVideo <==> exists j :: 0 <= j < i && j < |argv| && DisplayFlagAt(argv, j)
    {
      if argv[i] == "-input" && i + 1 < |argv| {
        inputVideo := argv[i + 1];
        last := i;
      } else if argv[i] == "-display" && i + 1 < |argv| && argv[i + 1] == "on" {
        assert DisplayFlagAt(argv, i);
        displayVideo := true;
      }
      assert !InputFlagAt(argv, i + 1) && !DisplayFlagAt(argv, i + 1);
      i := i + 2;
    }
  }

  datatype OutputNames = OutputNames(video: string, csv: string)

  /** The output video and CSV paths: the input's base name is split at
      every dot and unpacked into a name and an extension, which are then
      tagged "__bodypose" and joined onto the output folder. `None` is the
      `ValueError` the unpacking raises when the base name does not have
      exactly one dot. */
  function OutputPaths(inputVideo: string): (r: Option<OutputNames>)
    ensures r.Some? <==> Count(Basename(inputVideo), '.') == 1
  {
    var parts := Split(Basename(inputVideo), '.');
    if |parts| != 2 then None
    else Some(OutputNames(
      PathJoin(OutputFolder, parts[0] + "__bodypose." + parts[1]),
      PathJoin(OutputFolder, parts[0] + "__bodypose.csv")))
  }

  /** The output files are named after the text before and after the one
      dot of the input's base name. */
  lemma OutputPathsNaming(inputVideo: string)
    requires OutputPaths(inputVideo).Some?
    ensures var base := Basename(inputVideo);
      var d := RFind(base, '.');
      var names := OutputPaths(inputVideo).value;
      0 <= d && '.' !in base[..d] &&
      names.video == OutputFolder + (base[..d] + "__bodypose." + base[d + 1..]) &&
      names.csv == OutputFolder + (base[..d] + "__bodypose.csv") &&
      Basename(names.video) == base[..d] + "__bodypose." + base[d + 1..] &&
      Basename(names.csv) == base[..d] + "__bodypose.csv"
  {
    var base := Basename(inputVideo);
    var parts := Split(base, '.');
    var name, ext := parts[0], parts[1];
    var d := |name|;
    SplitTwo(base, '.', name, ext);
    TwoPieces(base, name, ext);
    var video, csv := name + "__bodypose." + ext, name + "__bodypose.csv";
    NoSlash(video, base, name, ext);
    NoSlash(csv, base, name, ext);
    OutputFolderEndsInSlash();
    BasenameOfJoin(OutputFolder, video);
    BasenameOfJoin(OutputFolder, csv);
    BasenameOfPlain(video);
    BasenameOfPlain(csv);
  }

  /** As written, a base name with a second dot makes the unpacking raise,
      so the script stops before processing any frame. */
  lemma OutputPathsRejectsTwoDots(name: string, mid: string, ext: string)
    requires '.' !in name && '.' !in mid && '.' !in ext
    requires '/' !in name && '/' !in mid && '/' !in ext
    ensures OutputPaths(name + "." + mid + "." + ext) == None
  {
    var base := name + "." + mid + "." + ext;
    assert '/' !in base;
    BasenameOfPlain(base);
    assert base == name + ['.'] + (mid + ['.'] + ext);
    SplitAfterPiece(name, '.', mid + ['.'] + ext);
    SplitAfterPiece(mid, '.', ext);
    SplitNone(ext, '.');
    assert |Split(base, '.')| == 3;
  }

  /** The output folder ends with its separator, so joining appends. */
  lemma OutputFolderEndsInSlash()
    ensures |OutputFolder| > 0 && OutputFolder[|OutputFolder| - 1] == '/'
  {
  }

  /** The output names for a base name split into `root` and `ext`: both
      files land directly in the output folder. */
  function TaggedNames(root: string, ext: string): (r: OutputNames)
    ensures '/' !in root && '/' !in ext ==>
      r.video == OutputFolder + (root + "__bodypose" + ext) &&
      r.csv == OutputFolder + (root + "__bodypose.csv")
  {
    OutputFolderEndsInSlash();
    OutputNames(PathJoin(OutputFolder, root + "__bodypose" + ext),
                PathJoin(OutputFolder, root + "__bodypose.csv"))
  }

  /** The naming the script evidently means: split off the extension with
      `os.path.splitext`, which never fails. */
  function OutputPathsFixed(inputVideo: string): (r: OutputNames)
    ensures var parts := Splitext(Basename(inputVideo));
      r.video == OutputFolder + (parts.0 + "__bodypose" + parts.1) &&
      r.csv == OutputFolder + (parts.0 + "__bodypose.csv")
  {
    var parts := Splitext(Basename(inputVideo));
    TaggedNames(parts.0, parts.1)
  }

  /** Where the script as written gives up on a second dot, the fixed
      naming keeps everything before the last dot as the root. */
  lemma OutputPathsFixedOnTwoDots(name: string, mid: string, ext: string)
    requires '.' !in name && '.' !in mid && '.' !in ext
    requires '/' !in name && '/' !in mid && '/' !in ext
    requires |name| > 0
    ensures OutputPathsFixed(name + "." + mid + "." + ext) == TaggedNames(name + "." + mid, "." + ext)
  {
    var root := name + "." + mid;
    var base := name + "." + mid + "." + ext;
    assert base == root + "." + ext;
    assert '/' !in base;
    BasenameOfPlain(base);
    SplitextAtLastDot(base, root, ext);
  }

  /** The fixed naming agrees with the script wherever the script succeeds
      on a name that does not start with its dot. */
  lemma OutputPathsFixedAgrees(inputVideo: string)
    ensures var base := Basename(inputVideo);
      OutputPaths(inputVideo).Some? && base[0] != '.' ==>
        OutputPathsFixed(inputVideo) == OutputPaths(inputVideo).value
  {
    var base := Basename(inputVideo);
    if OutputPaths(inputVideo).Some? && base[0] != '.' {
      var parts := Split(base, '.');
      var name, ext := parts[0], parts[1];
      var expected := OutputNames(
        PathJoin(OutputFolder, name + "__bodypose." + ext),
        PathJoin(OutputFolder, name + "__bodypose.csv"));
      assert OutputPaths(inputVideo).value == expected;
      assert Splitext(base) == (name, "." + ext) by {
        SplitTwo(base, '.', name, ext);
        SplitextAtLastDot(base, name, ext);
      }
      TaggedDotted(name, ext);
    }
  }

  /** Tagging a dotted extension gives the script's "__bodypose." infix. */
  lemma TaggedDotted(name: string, ext: string)
    ensures TaggedNames(name, "." + ext) == OutputNames(
      PathJoin(OutputFolder, name + "__bodypose." + ext),
      PathJoin(OutputFolder, name + "__bodypose.csv"))
  {
    var tag: string := "__bodypose";
    assert tag + "." == "__bodypose.";
    assert name + tag + ("." + ext) == name + (tag + ".") + ext;
  }

  /** A base name split at its only dot. */
  lemma TwoPieces(base: string, name: string, ext: string)
    requires base == name + "." + ext && '.' !in name && '.' !in ext
    ensures var d := |name|;
      d < |base| && RFind(base, '.') == d && base[..d] == name && base[d + 1..] == ext
  {
    var d := |name|;
    assert base[d] == '.';
    assert forall j :: d < j < |base| ==> base[j] == ext[j - d - 1];
    RFindIs(base, '.', d);
  }

  lemma NoSlash(s: string, base: string, name: string, ext: string)
    requires '/' !in base && base == name + "." + ext
    requires s == name + "__bodypose." + ext || s == name + "__bodypose.csv"
    ensures '/' !in s
  {
    assert forall j :: 0 <= j < |name| ==> name[j] == base[j];
    assert forall j :: 0 <= j < |ext| ==> ext[j] == base[|name| + 1 + j];
  }

  // ---------------------------------------------------------------------
  // Flattening a pose into one row

  /** x0, y0, z0, ..., x32, y32, z32. */
  function Flattened(pose: seq<Landmark>): (row: seq<real>)
    ensures |row| == 3 * |pose|
    ensures forall k, j :: 0 <= k < |pose| && 0 <= j < 3 ==> row[3 * k + j] == Coord(pose[k], j)
  {
    if |pose| == 0 then []
    else
      var rest := Flattened(pose[1..]);
      [pose[0].x, pose[0].y, pose[0].z] + rest
  }

  lemma {:induction false} FlattenedSnoc(pose: seq<Landmark>, l: Landmark)
    ensures Flattened(pose + [l]) == Flattened(pose) + [l.x, l.y, l.z]
  {
    if |pose| > 0 {
      assert (pose + [l])[1..] == pose[1..] + [l];
      FlattenedSnoc(pose[1..], l);
    }
  }

  /** The flattening loop: start from a block of three zeros, append each
      landmark's three coordinates, then drop the three leading zeros. */
  method FlattenPose(pose: seq<Landmark>) returns (row: seq<real>)
    requires |pose| == LandmarkCount
    ensures row == Flattened(pose)
  {
    row := [0.0, 0.0, 0.0];
    for x := 0 to LandmarkCount
      invariant |row| == 3 + 3 * x
      invariant row[..3] == [0.0, 0.0, 0.0]
      invariant row[3..] == Flattened(pose[..x])
    {
      FlattenedSnoc(pose[..x], pose[x]);
      assert pose[..x + 1] == pose[..x] + [pose[x]];
      row := row + [pose[x].x, pose[x].y, pose[x].z];
    }
    assert pose[..LandmarkCount] == pose;
    row := row[3..];
  }

  // ---------------------------------------------------------------------
  // The reference track: what the carry-forward policy is meant to give

  /** The most recent detection among the first `n` events. */
  function LastPose(events: seq<Read>, n: nat): (last: Option<seq<Landmark>>)
    requires WellFormed(events)
    ensures last.Some? ==> |last.value| == LandmarkCount
  {
    if n == 0 then None
    else if IsDetection(ReadAt(events, n - 1)) then ReadAt(events, n - 1).pose
    else LastPose(events, n - 1)
  }

  /** The row for a given latest detection: zeros before the first one. */
  function RowOf(last: Option<seq<Landmark>>): seq<real>
  {
    match last
    case None => Zeros(RowWidth)
    case Some(pose) => Flattened(pose)
  }

  /** Row k of the track: the latest detection at or before frame k. */
  function ExpectedRow(events: seq<Read>, k: nat): seq<real>
    requires WellFormed(events)
  {
    RowOf(LastPose(events, k + 1))
  }

  function Bound(events: seq<Read>, frameCount: int): nat
  {
    if |events| >= frameCount then |events| else frameCount
  }

  /** The value of `idx` when the loop ends, starting from `idx == k`: a
      failed read stops it once `idx` has reached the declared frame count,
      and ESC stops it (when the display is on) after the current frame. */
  function Halt(events: seq<Read>, frameCount: int, display: bool, k: nat): (h: nat)
    ensures k <= h <= (if k < Bound(events, frameCount) then Bound(events, frameCount) else k)
    decreases Bound(events, frameCount) - k
  {
    match ReadAt(events, k)
    case ReadFailed =>
      if k < frameCount then Halt(events, frameCount, display, k + 1) else k
    case Decoded(_, esc) =>
      if display && esc then k + 1 else Halt(events, frameCount, display, k + 1)
  }

  /** The saved track for the whole run. */
  function Track(events: seq<Read>, frameCount: int, display: bool): (track: seq<seq<real>>)
    requires WellFormed(events)
    ensures |track| == Halt(events, frameCount, display, 0)
  {
    seq(Halt(events, frameCount, display, 0), k requires 0 <= k => ExpectedRow(events, k))
  }

  /** Frames passed to the video writer among the first `n` events. */
  function DecodedCount(events: seq<Read>, n: nat): (c: nat)
    ensures c <= n
  {
    if n == 0 then 0
    else DecodedCount(events, n - 1) + (if ReadAt(events, n - 1).Decoded? then 1 else 0)
  }

  // ---------------------------------------------------------------------
  // The imperative loop

  /** The script's loop state: `data_land` (rows so far), `data_land2`
      (last detected row, `None` before any detection) and `idx`. */
  class TrackBuilder {
    var dataLand: seq<seq<real>>
    var dataLand2: Option<seq<real>>
    var idx: nat
    const frameCount: int

    ghost predicate Valid()
      reads this
    {
      |dataLand| == idx &&
      (forall r :: 0 <= r < |dataLand| ==> |dataLand[r]| == RowWidth) &&
      (dataLand2.Some? ==> |dataLand2.value| == RowWidth)
    }

    /** The row appended on a miss. */
    function Fallback(): (row: seq<real>)
      reads this
    {
      match dataLand2
      case None => Zeros(RowWidth)
      case Some(last) => last
    }

    constructor (frameCount: int)
      ensures Valid()
      ensures dataLand == [] && dataLand2 == None && idx == 0
      ensures this.frameCount == frameCount
    {
      dataLand, dataLand2, idx := [], None, 0;
      this.frameCount := frameCount;
    }

    /** One pass of the loop body. `stop` is its `break`; `wrote` says the
        frame went to the video writer. */
    method Step(read: Read, display: bool) returns (stop: bool, wrote: bool)
      requires Valid()
      requires IsDetection(read) ==> |read.pose.value| == LandmarkCount
      modifies this
      ensures Valid()
      ensures read.ReadFailed? && old(idx) >= frameCount ==>
        stop && !wrote && dataLand == old(dataLand) && dataLand2 == old(dataLand2) && idx == old(idx)
      ensures read.ReadFailed? && old(idx) < frameCount ==>
        !stop && !wrote && dataLand == old(dataLand) + [old(Fallback())] &&
        dataLand2 == old(dataLand2) && idx == old(idx) + 1
      ensures read.Decoded? && read.pose.None? ==>
        stop == (display && read.escPressed) && wrote &&
        dataLand == old(dataLand) + [old(Fallback())] &&
        dataLand2 == old(dataLand2) && idx == old(idx) + 1
      ensures IsDetection(read) ==>
        stop == (display && read.escPressed) && wrote &&
        dataLand2 == Some(Flattened(read.pose.value)) &&
        dataLand == old(dataLand) + [Flattened(read.pose.value)] && idx == old(idx) + 1
    {
      match read
      case ReadFailed =>
        if idx < frameCount {
          idx := idx + 1;
          dataLand := dataLand + [Fallback()];
          return false, false;
        } else {
          return true, false;
        }
      case Decoded(pose, esc) =>
        if pose.None? {
          dataLand := dataLand + [Fallback()];
        } else {
          var row := FlattenPose(pose.value);
          dataLand2 := Some(row);
          dataLand := dataLand + [row];
        }
        idx := idx + 1;
        stop, wrote := display && esc, true;
    }
  }

  /** The whole frame loop, run while the capture is open: returns the track saved
      to the CSV file and the number of frames written to the output video.
      ESC ends the loop after the current row is appended and its frame
      written, so the partial track is what gets saved. */
  method ProcessVideo(isOpened: bool, events: seq<Read>, frameCount: int, display: bool)
    returns (track: seq<seq<real>>, written: nat)
    requires WellFormed(events)
    ensures isOpened ==> track == Track(events, frameCount, display)
    ensures isOpened ==> written == DecodedCount(events, |track|)
    ensures !isOpened ==> track == [] && written == 0
  {
    var b := new TrackBuilder(frameCount);
    written := 0;
    ghost var halt := Halt(events, frameCount, display, 0);
    while isOpened
      invariant b.Valid() && b.frameCount == frameCount
      invariant Halt(events, frameCount, display, b.idx) == halt
      invariant forall k :: 0 <= k < b.idx ==> b.dataLand[k] == ExpectedRow(events, k)
      invariant b.dataLand2 == (match LastPose(events, b.idx)
                                case None => None
                                case Some(pose) => Some(Flattened(pose)))
      invariant b.Fallback() == RowOf(LastPose(events, b.idx))
      invariant written == DecodedCount(events, b.idx)
      invariant !isOpened ==> b.idx == 0 && written == 0
      decreases Bound(events, frameCount) - b.idx
    {
      var read := ReadAt(events, b.idx);
      var stop, wrote := b.Step(read, display);
      if wrote {
        written := written + 1;
      }
      if stop {
        assert b.idx == halt;
        break;
      }
    }
    track := b.dataLand;
    if isOpened {
      assert |track| == halt;
      assert forall k :: 0 <= k < |track| ==> track[k] == Track(events, frameCount, display)[k];
    }
  }

  // ---------------------------------------------------------------------
  // Properties of the track

  /** Every row of the track has 99 entries. */
  lemma TrackRowWidth(events: seq<Read>, frameCount: int, display: bool, k: nat)
    requires WellFormed(events)
    requires k < |Track(events, frameCount, display)|
    ensures |Track(events, frameCount, display)[k]| == RowWidth
  {
  }

  /** Before the first detection every row is all zeros. */
  lemma {:induction false} ZerosBeforeFirstDetection(events: seq<Read>, k: nat)
    requires WellFormed(events)
    requires forall i :: 0 <= i <= k ==> !IsDetection(ReadAt(events, i))
    ensures ExpectedRow(events, k) == Zeros(RowWidth)
  {
    NoDetectionNoPose(events, k + 1);
  }

  lemma {:induction false} NoDetectionNoPose(events: seq<Read>, n: nat)
    requires WellFormed(events)
    requires forall i :: 0 <= i < n ==> !IsDetection(ReadAt(events, i))
    ensures LastPose(events, n) == None
  {
    if n > 0 {
      NoDetectionNoPose(events, n - 1);
    }
  }

  /** Once frame i had a detection, every later frame k without a newer
      detection repeats exactly the row of frame i. */
  lemma {:induction false} CarryForward(events: seq<Read>, i: nat, k: nat)
    requires WellFormed(events)
    requires i <= k && IsDetection(ReadAt(events, i))
    requires forall j :: i < j <= k ==> !IsDetection(ReadAt(events, j))
    ensures ExpectedRow(events, k) == Flattened(ReadAt(events, i).pose.value)
    ensures ExpectedRow(events, k) == ExpectedRow(events, i)
  {
    if k > i {
      CarryForward(events, i, k - 1);
    }
  }

  /** Facts about where the loop stops, from any starting `idx`. */
  lemma {:induction false} HaltFacts(events: seq<Read>, frameCount: int, display: bool, k: nat)
    ensures var h := Halt(events, frameCount, display, k);
      k <= h &&
      (forall j :: k <= j < h && ReadAt(events, j).ReadFailed? ==> j < frameCount) &&
      (forall j :: k <= j < h - 1 && ReadAt(events, j).Decoded? ==> !(display && ReadAt(events, j).escPressed)) &&
      ((ReadAt(events, h).ReadFailed? && h >= frameCount) ||
       (k < h && display && ReadAt(events, h - 1).Decoded? && ReadAt(events, h - 1).escPressed))
    decreases Bound(events, frameCount) - k
  {
    match ReadAt(events, k)
    case ReadFailed =>
      if k < frameCount {
        HaltFacts(events, frameCount, display, k + 1);
      }
    case Decoded(_, esc) =>
      if !(display && esc) {
        HaltFacts(events, frameCount, display, k + 1);
      }
  }

  /** A fallback row produced by a failed read always sits below the
      declared frame count: a failed read at or past it ends the loop. */
  lemma FailedReadRowsBelowFrameCount(events: seq<Read>, frameCount: int, display: bool, k: nat)
    requires WellFormed(events)
    requires k < |Track(events, frameCount, display)| && ReadAt(events, k).ReadFailed?
    ensures k < frameCount
  {
    HaltFacts(events, frameCount, display, 0);
  }

  /** Without the display there is no ESC, so every declared frame gets a
      row, and the run ends exactly at the first failed read at or past the
      declared count. */
  lemma NoDisplayCoversDeclaredFrames(events: seq<Read>, frameCount: int)
    requires WellFormed(events)
    ensures var h := |Track(events, frameCount, false)|;
      h >= frameCount && ReadAt(events, h).ReadFailed? &&
      forall j :: 0 <= j && frameCount <= j < h ==> ReadAt(events, j).Decoded?
  {
    HaltFacts(events, frameCount, false, 0);
  }

  /** A run cut short by ESC ends right after the frame on which the key
      was pressed, and that frame's row is the track's last row. */
  lemma EscKeepsCurrentRow(events: seq<Read>, frameCount: int, k: nat)
    requires WellFormed(events)
    requires ReadAt(events, k).Decoded? && ReadAt(events, k).escPressed
    requires forall j :: 0 <= j < k ==> ReadAt(events, j).Decoded? ==> !ReadAt(events, j).escPressed
    requires forall j :: 0 <= j < k ==> ReadAt(events, j).ReadFailed? ==> j < frameCount
    ensures |Track(events, frameCount, true)| == k + 1
    ensures Track(events, frameCount, true)[k] == ExpectedRow(events, k)
  {
    HaltFrom(events, frameCount, k, 0);
  }

  lemma {:induction false} HaltFrom(events: seq<Read>, frameCount: int, k: nat, i: nat)
    requires i <= k
    requires ReadAt(events, k).Decoded? && ReadAt(events, k).escPressed
    requires forall j :: i <= j < k ==> ReadAt(events, j).Decoded? ==> !ReadAt(events, j).escPressed
    requires forall j :: i <= j < k ==> ReadAt(events, j).ReadFailed? ==> j < frameCount
    ensures Halt(events, frameCount, true, i) == k + 1
    decreases k - i
  {
    if i < k {
      HaltFrom(events, frameCount, k, i + 1);
    }
  }
}
