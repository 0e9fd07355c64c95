/** The clip cutter (utils/cut_snippet.py): clamps the crop rectangle to the
    frame, derives the output size, and copies the cropped frames until the
    requested duration is reached or a read fails. Video decoding and
    encoding are outside the model: each read is a frame or `None`, and the
    writer's input is returned as a sequence of cropped frames. */
module CutSnippet {
  import opened Wrappers

  const DurationSeconds: int := 20
  const Crop: bool := true
  /** The crop rectangle the script asks for. */
  const Requested: Bounds := Bounds(550, 1300, 400, 1000)

  /** The crop rectangle: columns [minX, maxX), rows [minY, maxY). */
  datatype Bounds = Bounds(minX: int, maxX: int, minY: int, maxY: int)

  /** A pixel's colour channels; frames are rows of pixels. */
  type Pixel = (int, int, int)
  type Frame = seq<seq<Pixel>>

  /** Python's `int(x)` on a float: truncation toward zero. */
  function Trunc(x: real): (n: int)
    ensures x >= 0.0 ==> 0 <= n && n as real <= x < n as real + 1.0
    ensures x < 0.0 ==> n <= 0 && n as real - 1.0 < x <= n as real
  {
    if x >= 0.0 then x.Floor else -((-x).Floor)
  }

  /** The number of frames in the requested duration, truncated. */
  function FramesToExtract(fps: real): (n: int)
    ensures fps >= 0.0 ==> 0 <= n && n as real <= fps * 20.0 < n as real + 1.0
  {
    Trunc(fps * DurationSeconds as real)
  }

  // ---------------------------------------------------------------------
  // Crop rectangle

  /** The crop rectangle after the bounds check: with cropping on, each
      bound is clamped to the frame on its own side only (so the bounds are
      not reordered); with cropping off, the rectangle is the whole frame. */
  function Clamped(crop: bool, requested: Bounds, frameWidth: int, frameHeight: int): (b: Bounds)
    ensures crop ==> 0 <= b.minX && b.maxX <= frameWidth && 0 <= b.minY && b.maxY <= frameHeight
    ensures crop ==> b.minX >= requested.minX && (b.minX == 0 || b.minX == requested.minX)
    ensures crop ==> b.minY >= requested.minY && (b.minY == 0 || b.minY == requested.minY)
    ensures crop ==> b.maxX <= requested.maxX && (b.maxX == frameWidth || b.maxX == requested.maxX)
    ensures crop ==> b.maxY <= requested.maxY && (b.maxY == frameHeight || b.maxY == requested.maxY)
    ensures !crop ==> b == Bounds(0, frameWidth, 0, frameHeight)
  {
    if crop then
      Bounds(if 0 >= requested.minX then 0 else requested.minX,
             if frameWidth <= requested.maxX then frameWidth else requested.maxX,
             if 0 >= requested.minY then 0 else requested.minY,
             if frameHeight <= requested.maxY then frameHeight else requested.maxY)
    else
      Bounds(0, frameWidth, 0, frameHeight)
  }

  /** The statements that reassign the four bounds in place and derive the
      crop size from them. */
  method ClampCrop(crop: bool, requested: Bounds, frameWidth: int, frameHeight: int)
    returns (b: Bounds, croppedWidth: int, croppedHeight: int)
    ensures b == Clamped(crop, requested, frameWidth, frameHeight)
    ensures croppedWidth == b.maxX - b.minX && croppedHeight == b.maxY - b.minY
    ensures !crop ==> croppedWidth == frameWidth && croppedHeight == frameHeight
  {
    var minX, maxX, minY, maxY := requested.minX, requested.maxX, requested.minY, requested.maxY;
    if crop {
      minX := if 0 >= minX then 0 else minX;
      maxX := if frameWidth <= maxX then frameWidth else maxX;
      minY := if 0 >= minY then 0 else minY;
      maxY := if frameHeight <= maxY then frameHeight else maxY;
      croppedWidth := maxX - minX;
      croppedHeight := maxY - minY;
    } else {
      croppedWidth := frameWidth;
      croppedHeight := frameHeight;
      minX := 0;
      maxX := frameWidth;
      minY := 0;
      maxY := frameHeight;
    }
    b := Bounds(minX, maxX, minY, maxY);
  }

  /** A requested left edge past the frame's right edge leaves a negative
      width, and a requested top edge below the frame's bottom edge a
      negative height: the clamp never reorders the bounds. */
  lemma NegativeSize(requested: Bounds, frameWidth: int, frameHeight: int)
    ensures var b := Clamped(true, requested, frameWidth, frameHeight);
      (requested.minX > frameWidth ==> b.maxX - b.minX < 0) &&
      (requested.minY > frameHeight ==> b.maxY - b.minY < 0)
  {
  }

  /** One instance: a left edge of 700 on a frame 600 wide. */
  method NegativeWidthExample() returns (width: int)
    ensures width == -100
  {
    var b, w, h := ClampCrop(true, Bounds(700, 1300, 0, 10), 600, 10);
    width := w;
  }

  // ---------------------------------------------------------------------
  // Slicing

  /** How Python normalises a slice bound for a sequence of length n. */
  function SliceIndex(i: int, n: nat): (k: nat)
    ensures k <= n
    ensures 0 <= i <= n ==> k == i
    ensures i > n ==> k == n
    ensures i < 0 && i + n >= 0 ==> k == i + n
    ensures i + n < 0 ==> k == 0
  {
    if i < 0 then (if i + n < 0 then 0 else i + n)
    else if i > n then n
    else i
  }

  /** Python's `s[lo:hi]`. */
  function PySlice<T>(s: seq<T>, lo: int, hi: int): (r: seq<T>)
    ensures var a, b := SliceIndex(lo, |s|), SliceIndex(hi, |s|);
      |r| == (if a <= b then b - a else 0) &&
      forall i :: 0 <= i < |r| ==> r[i] == s[a + i]
  {
    var a, b := SliceIndex(lo, |s|), SliceIndex(hi, |s|);
    if a <= b then s[a..b] else []
  }

  /** The crop: rows sliced by the y bounds, then each row by the x
      bounds, all channels kept. */
  function CropFrame(frame: Frame, b: Bounds): (c: Frame)
    ensures |c| == |PySlice(frame, b.minY, b.maxY)|
    ensures SliceIndex(b.minY, |frame|) + |c| <= |frame|
    ensures forall i :: 0 <= i < |c| ==>
      c[i] == PySlice(frame[SliceIndex(b.minY, |frame|) + i], b.minX, b.maxX)
  {
    var rows := PySlice(frame, b.minY, b.maxY);
    seq(|rows|, i requires 0 <= i < |rows| => PySlice(rows[i], b.minX, b.maxX))
  }

  predicate IsFrameOfSize(frame: Frame, width: nat, height: nat)
  {
    |frame| == height && forall i :: 0 <= i < |frame| ==> |frame[i]| == width
  }

  /** A rectangle inside the frame crops to exactly its rows [minY, maxY)
      and columns [minX, maxX). */
  lemma CropContents(frame: Frame, b: Bounds, width: nat, height: nat)
    requires IsFrameOfSize(frame, width, height)
    requires 0 <= b.minX <= b.maxX <= width && 0 <= b.minY <= b.maxY <= height
    ensures IsFrameOfSize(CropFrame(frame, b), b.maxX - b.minX, b.maxY - b.minY)
    ensures forall i, j :: 0 <= i < b.maxY - b.minY && 0 <= j < b.maxX - b.minX ==>
      CropFrame(frame, b)[i][j] == frame[b.minY + i][b.minX + j]
  {
    var crop := CropFrame(frame, b);
    assert PySlice(frame, b.minY, b.maxY) == frame[b.minY..b.maxY];
    forall i | 0 <= i < b.maxY - b.minY
      ensures crop[i] == frame[b.minY + i][b.minX..b.maxX]
    {
      assert |frame[b.minY + i]| == width;
    }
  }

  /** A clamped rectangle with non-negative size crops every full-size
      frame to the size the writer was opened with. */
  lemma ClampedCropFitsWriter(frame: Frame, b: Bounds, frameWidth: nat, frameHeight: nat)
    requires IsFrameOfSize(frame, frameWidth, frameHeight)
    requires 0 <= b.minX && b.maxX <= frameWidth && 0 <= b.minY && b.maxY <= frameHeight
    requires b.minX <= b.maxX && b.minY <= b.maxY
    ensures IsFrameOfSize(CropFrame(frame, b), b.maxX - b.minX, b.maxY - b.minY)
  {
    CropContents(frame, b, frameWidth, frameHeight);
  }

  /** A rectangle whose left edge lies past its right edge crops every row
      to nothing. */
  lemma InvertedCropIsEmpty(frame: Frame, b: Bounds, width: nat, height: nat)
    requires IsFrameOfSize(frame, width, height)
    requires 0 <= b.maxX < b.minX && 0 <= b.minY <= b.maxY <= height
    ensures |CropFrame(frame, b)| == b.maxY - b.minY
    ensures forall i :: 0 <= i < |CropFrame(frame, b)| ==> CropFrame(frame, b)[i] == []
  {
    assert PySlice(frame, b.minY, b.maxY) == frame[b.minY..b.maxY];
  }

  /** A rectangle whose top edge lies below its bottom edge, both within
      the frame, crops to no rows at all. */
  lemma InvertedRowsCropIsEmpty(frame: Frame, b: Bounds)
    requires 0 <= b.maxY < b.minY <= |frame|
    ensures CropFrame(frame, b) == []
  {
  }

  // ---------------------------------------------------------------------
  // The copy loop

  function ReadAt(events: seq<Option<Frame>>, k: nat): Option<Frame>
  {
    if k < |events| then events[k] else None
  }

  /** How many reads succeed before the first failure. */
  function SuccessfulPrefix(events: seq<Option<Frame>>): (n: nat)
    ensures n <= |events|
    ensures forall i :: 0 <= i < n ==> events[i].Some?
    ensures n < |events| ==> events[n].None?
  {
    if |events| == 0 || events[0].None? then 0
    else 1 + SuccessfulPrefix(events[1..])
  }

  /** The number of frames the loop copies. */
  function CopiedCount(framesToExtract: int, events: seq<Option<Frame>>): (c: nat)
    ensures c <= SuccessfulPrefix(events)
    ensures framesToExtract <= 0 ==> c == 0
    ensures framesToExtract > 0 ==> c <= framesToExtract
    ensures c == SuccessfulPrefix(events) || c == framesToExtract || framesToExtract <= 0
  {
    if framesToExtract <= 0 then 0
    else if framesToExtract <= SuccessfulPrefix(events) then framesToExtract
    else SuccessfulPrefix(events)
  }

  /** Copy cropped frames until `frames_to_extract` are written
      or a read fails; `frame_count` ends equal to the number written. */
  method CopyFrames(events: seq<Option<Frame>>, framesToExtract: int, b: Bounds)
    returns (written: seq<Frame>, frameCount: nat)
    ensures frameCount == |written| == CopiedCount(framesToExtract, events)
    ensures forall i :: 0 <= i < |written| ==>
      events[i].Some? && written[i] == CropFrame(events[i].value, b)
  {
    written := [];
    frameCount := 0;
    while frameCount < framesToExtract
      invariant frameCount == |written| <= SuccessfulPrefix(events)
      invariant framesToExtract > 0 ==> frameCount <= framesToExtract
      invariant framesToExtract <= 0 ==> frameCount == 0
      invariant forall i :: 0 <= i < |written| ==>
        events[i].Some? && written[i] == CropFrame(events[i].value, b)
      decreases framesToExtract - frameCount
    {
      var frame := ReadAt(events, frameCount);
      if frame.None? {
        assert frameCount == SuccessfulPrefix(events);
        break;
      }
      var cropped := CropFrame(frame.value, b);
      written := written + [cropped];
      frameCount := frameCount + 1;
    }
  }

  datatype Clip = Clip(width: int, height: int, fps: real, frames: seq<Frame>)

  /** The whole script: nothing is written when the video fails to open;
      otherwise the writer gets the clamped size, the source frame rate and
      the copied frames. */
  method CutSnippet(isOpened: bool, crop: bool, requested: Bounds, fps: real,
                    frameWidth: int, frameHeight: int, events: seq<Option<Frame>>)
    returns (clip: Option<Clip>)
    ensures !isOpened ==> clip.None?
    ensures isOpened ==> clip.Some? && clip.value.fps == fps
    ensures isOpened ==> var b := Clamped(crop, requested, frameWidth, frameHeight);
      clip.value.width == b.maxX - b.minX && clip.value.height == b.maxY - b.minY
    ensures isOpened ==> |clip.value.frames| == CopiedCount(FramesToExtract(fps), events)
    ensures isOpened ==> forall i :: 0 <= i < |clip.value.frames| ==>
      events[i].Some? &&
      clip.value.frames[i] == CropFrame(events[i].value, Clamped(crop, requested, frameWidth, frameHeight))
    ensures isOpened && crop ==> clip.value.width <= frameWidth && clip.value.height <= frameHeight
    ensures isOpened && !crop ==> clip.value.width == frameWidth && clip.value.height == frameHeight
  {
    if !isOpened {
      return None;
    }
    var framesToExtract := FramesToExtract(fps);
    var b, croppedWidth, croppedHeight := ClampCrop(crop, requested, frameWidth, frameHeight);
    var written, frameCount := CopyFrames(events, framesToExtract, b);
    clip := Some(Clip(croppedWidth, croppedHeight, fps, written));
  }

  /** With the script's settings a 1920 x 1080 video is cut to 750 x 600. */
  method ScriptSettingsOnFullHd() returns (width: int, height: int)
    ensures width == 750 && height == 600
  {
    var b, w, h := ClampCrop(Crop, Requested, 1920, 1080);
    width, height := w, h;
  }
}
