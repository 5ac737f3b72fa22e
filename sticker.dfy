/** The sticker builder's own logic: recognising WebP input, choosing which
    decoded frames to keep, the animation timestamps, the crop window and the
    padded canvas, and the choice between passing WebP through, a still image
    and an animation. */
module Sticker {
  import opened Wrappers
  import opened Text
  import StickerExif

  // ---------------------------------------------------------------------------
  // input recognition
  // ---------------------------------------------------------------------------

  /** A RIFF container whose form type is WEBP. */
  predicate IsWebP(d: string) {
    |d| >= 12 && d[..4] == "RIFF" && d[8..12] == "WEBP"
  }

  /** Any RIFF/WEBP header is recognised, whatever its size field and payload. */
  lemma WebPHeaderRecognised(size: string, rest: string)
    requires |size| == 4
    ensures IsWebP("RIFF" + size + "WEBP" + rest)
  {
    var d := "RIFF" + size + "WEBP" + rest;
    assert d[..4] == "RIFF";
    assert d[8..12] == "WEBP";
  }

  /** ... and only such headers are: recognised input is "RIFF", four size
      bytes, "WEBP" and the rest. */
  lemma WebPOnlyHeader(d: string)
    requires IsWebP(d)
    ensures d == "RIFF" + d[4..8] + "WEBP" + d[12..]
  {
    assert d == d[..4] + d[4..8] + d[8..12] + d[12..];
  }

  /** Input shorter than a RIFF header, or of another container, or with
      another form type in bytes 8 to 11, is decoded. */
  lemma NotWebP(d: string)
    requires |d| < 12 || (|d| >= 4 && d[0] != 'R') || (|d| >= 12 && d[8..12] != "WEBP")
    ensures !IsWebP(d)
  {
    if |d| >= 12 && d[0] != 'R' {
      assert d[..4][0] != "RIFF"[0];
    }
  }

  // ---------------------------------------------------------------------------
  // frame selection
  // ---------------------------------------------------------------------------

  /** A frame as the decoder hands it over: its size, its timestamp in stream
      time-base units when it has one, and that timestamp in milliseconds. */
  datatype DecodedFrame = DecodedFrame(width: int, height: int, pts: Option<int>, ms: int)

  /** The millisecond time recorded for a kept frame: 0 without a timestamp. */
  function PtsMs(f: DecodedFrame): int {
    if f.pts.Some? then f.ms else 0
  }

  predicate HasPicture(f: DecodedFrame) { f.width > 0 && f.height > 0 }

  /** A frame past the duration limit; Int64Max means "no limit". */
  predicate Stops(f: DecodedFrame, maxPts: int) {
    HasPicture(f) && maxPts != Int64Max && f.pts.Some? && f.pts.value > maxPts
  }

  datatype Selection = Selection(kept: seq<DecodedFrame>, stopped: bool)

  function Kept(fs: seq<DecodedFrame>, maxPts: int, step: int, nextKeep: int): seq<DecodedFrame> {
    Select(fs, maxPts, step, nextKeep).kept
  }

  /** The frames of the main decode loop that are kept: frames without a
      picture are skipped; the first timed frame past `maxPts` ends decoding;
      with a positive `step`, a timed frame earlier than `nextKeep` is dropped
      and a kept one moves `nextKeep` to its timestamp plus `step`. */
  function Select(fs: seq<DecodedFrame>, maxPts: int, step: int, nextKeep: int): Selection
    decreases |fs|
  {
    if fs == [] then Selection([], false)
    else
      var f := fs[0];
      if !HasPicture(f) then Select(fs[1..], maxPts, step, nextKeep)
      else if Stops(f, maxPts) then Selection([], true)
      else if step > 0 && f.pts.Some? then
        if f.pts.value < nextKeep then Select(fs[1..], maxPts, step, nextKeep)
        else var s := Select(fs[1..], maxPts, step, f.pts.value + step);
             Selection([f] + s.kept, s.stopped)
      else
        var s := Select(fs[1..], maxPts, step, nextKeep);
        Selection([f] + s.kept, s.stopped)
  }

  /** All frames kept by `DecodeAll`: the selected main-loop frames, then every
      frame of the decoder flush unless decoding was ended early. */
  function Selected(main: seq<DecodedFrame>, flush: seq<DecodedFrame>, maxPts: int, step: int): seq<DecodedFrame> {
    var s := Select(main, maxPts, step, 0);
    if s.stopped then s.kept else s.kept + flush
  }

  /** The frame loops of `DecodeAll`. */
  method SelectFrames(main: seq<DecodedFrame>, flush: seq<DecodedFrame>, maxPts: int, step: int)
    returns (out: seq<DecodedFrame>)
    ensures out == Selected(main, flush, maxPts, step)
  {
    out := [];
    var nextKeep := 0;
    var i := 0;
    while i < |main|
      invariant 0 <= i <= |main|
      invariant var s := Select(main[i..], maxPts, step, nextKeep);
                Select(main, maxPts, step, 0) == Selection(out + s.kept, s.stopped)
    {
      var f := main[i];
      assert main[i..][1..] == main[i + 1..];
      i := i + 1;
      if f.width <= 0 || f.height <= 0 {
        continue;
      }
      if maxPts != Int64Max && f.pts.Some? && f.pts.value > maxPts {
        assert out + [] == out;
        return;
      }
      if step > 0 && f.pts.Some? {
        if f.pts.value < nextKeep {
          continue;
        }
        nextKeep := f.pts.value + step;
      }
      assert out + ([f] + Select(main[i..], maxPts, step, nextKeep).kept)
             == (out + [f]) + Select(main[i..], maxPts, step, nextKeep).kept;
      out := out + [f];
    }
    assert Select(main[i..], maxPts, step, nextKeep) == Selection([], false);
    assert out + [] == out;
    var kept := out;
    for j := 0 to |flush|
      invariant out == kept + flush[..j]
    {
      out := out + [flush[j]];
      assert flush[..j + 1] == flush[..j] + [flush[j]];
    }
    assert flush[..|flush|] == flush;
  }

  /** Decoding ends early exactly when some frame with a picture lies past the
      duration limit. */
  lemma {:induction false} SelectStopsIff(fs: seq<DecodedFrame>, maxPts: int, step: int, nextKeep: int)
    ensures Select(fs, maxPts, step, nextKeep).stopped <==> exists i :: 0 <= i < |fs| && Stops(fs[i], maxPts)
    decreases |fs|
  {
    if fs != [] {
      var f := fs[0];
      var next := if HasPicture(f) && !Stops(f, maxPts) && step > 0 && f.pts.Some? && f.pts.value >= nextKeep
                  then f.pts.value + step else nextKeep;
      SelectStopsIff(fs[1..], maxPts, step, next);
      if exists i :: 0 <= i < |fs| && Stops(fs[i], maxPts) {
        var i :| 0 <= i < |fs| && Stops(fs[i], maxPts);
        if i > 0 {
          assert Stops(fs[1..][i - 1], maxPts);
        }
      }
      if exists i :: 0 <= i < |fs[1..]| && Stops(fs[1..][i], maxPts) {
        var i :| 0 <= i < |fs[1..]| && Stops(fs[1..][i], maxPts);
        assert Stops(fs[i + 1], maxPts);
      }
    }
  }

  /** Every kept frame has a picture, is one of the input frames, and, when it
      is timed, lies within the duration limit and no earlier than `nextKeep`
      under a positive step. */
  lemma {:induction false} SelectKeptBounds(fs: seq<DecodedFrame>, maxPts: int, step: int, nextKeep: int)
    ensures forall k :: 0 <= k < |Kept(fs, maxPts, step, nextKeep)| ==>
              HasPicture(Kept(fs, maxPts, step, nextKeep)[k]) && Kept(fs, maxPts, step, nextKeep)[k] in fs
    ensures forall k :: 0 <= k < |Kept(fs, maxPts, step, nextKeep)| && maxPts != Int64Max
                        && Kept(fs, maxPts, step, nextKeep)[k].pts.Some? ==>
              Kept(fs, maxPts, step, nextKeep)[k].pts.value <= maxPts
    ensures forall k :: 0 <= k < |Kept(fs, maxPts, step, nextKeep)| && step > 0
                        && Kept(fs, maxPts, step, nextKeep)[k].pts.Some? ==>
              Kept(fs, maxPts, step, nextKeep)[k].pts.value >= nextKeep
    decreases |fs|
  {
    if fs != [] {
      var f := fs[0];
      var next := if HasPicture(f) && !Stops(f, maxPts) && step > 0 && f.pts.Some? && f.pts.value >= nextKeep
                  then f.pts.value + step else nextKeep;
      SelectKeptBounds(fs[1..], maxPts, step, next);
      var rest := Kept(fs[1..], maxPts, step, next);
      forall k | 0 <= k < |rest| ensures rest[k] in fs {
        assert rest[k] in fs[1..];
      }
    }
  }

  /** Timed frames of `ks` are at least `step` apart. */
  predicate Spaced(ks: seq<DecodedFrame>, step: int) {
    forall a, b :: 0 <= a < b < |ks| && ks[a].pts.Some? && ks[b].pts.Some? ==>
      ks[b].pts.value >= ks[a].pts.value + step
  }

  /** Under a positive step, kept timed frames are at least `step` apart. */
  lemma {:induction false} SelectSpacing(fs: seq<DecodedFrame>, maxPts: int, step: int, nextKeep: int)
    requires step > 0
    ensures Spaced(Kept(fs, maxPts, step, nextKeep), step)
    decreases |fs|
  {
    if fs != [] {
      var f := fs[0];
      var next := if HasPicture(f) && !Stops(f, maxPts) && f.pts.Some? && f.pts.value >= nextKeep
                  then f.pts.value + step else nextKeep;
      SelectSpacing(fs[1..], maxPts, step, next);
      SelectKeptBounds(fs[1..], maxPts, step, next);
      var rest := Kept(fs[1..], maxPts, step, next);
      if HasPicture(f) && !Stops(f, maxPts) && !(f.pts.Some? && f.pts.value < nextKeep) {
        assert Kept(fs, maxPts, step, nextKeep) == [f] + rest;
        SpacedCons(f, rest, step);
      }
    }
  }

  /** A frame in front of spaced frames, all timed ones at least `step` after
      it, keeps them spaced. */
  lemma SpacedCons(f: DecodedFrame, rest: seq<DecodedFrame>, step: int)
    requires Spaced(rest, step)
    requires f.pts.Some? ==> forall k :: 0 <= k < |rest| && rest[k].pts.Some? ==> rest[k].pts.value >= f.pts.value + step
    ensures Spaced([f] + rest, step)
  {
    var ks := [f] + rest;
    forall a, b | 0 <= a < b < |ks| && ks[a].pts.Some? && ks[b].pts.Some?
      ensures ks[b].pts.value >= ks[a].pts.value + step
    {
      assert ks[b] == rest[b - 1];
      if a > 0 {
        assert ks[a] == rest[a - 1];
      }
    }
  }

  /** Frames with a picture but no timestamp escape both filters: unless
      decoding ends early, every one of them is kept. */
  lemma {:induction false} SelectKeepsUntimed(fs: seq<DecodedFrame>, maxPts: int, step: int, nextKeep: int)
    ensures var s := Select(fs, maxPts, step, nextKeep);
            !s.stopped ==> forall i :: 0 <= i < |fs| && HasPicture(fs[i]) && fs[i].pts.None? ==> fs[i] in s.kept
    decreases |fs|
  {
    if fs != [] {
      var f := fs[0];
      var next := if HasPicture(f) && !Stops(f, maxPts) && step > 0 && f.pts.Some? && f.pts.value >= nextKeep
                  then f.pts.value + step else nextKeep;
      SelectKeepsUntimed(fs[1..], maxPts, step, next);
      var s := Select(fs, maxPts, step, nextKeep);
      if !s.stopped {
        forall i | 0 <= i < |fs| && HasPicture(fs[i]) && fs[i].pts.None?
          ensures fs[i] in s.kept
        {
          if i > 0 {
            assert fs[1..][i - 1] == fs[i];
          }
        }
      }
    }
  }

  /** With no duration limit and no rate limit every frame with a picture is
      kept, in order. */
  lemma {:induction false} SelectUnlimited(fs: seq<DecodedFrame>, nextKeep: int)
    ensures Select(fs, Int64Max, 0, nextKeep) == Selection(WithPicture(fs), false)
    decreases |fs|
  {
    if fs != [] {
      SelectUnlimited(fs[1..], nextKeep);
    }
  }

  function WithPicture(fs: seq<DecodedFrame>): seq<DecodedFrame> {
    if fs == [] then [] else (if HasPicture(fs[0]) then [fs[0]] else []) + WithPicture(fs[1..])
  }

  /** The duration limit and the timestamp step in stream time-base units: both
      need a valid time base; the step also needs a positive frame rate.
      `toStreamTime` is the conversion from milliseconds. */
  function Limits(maxDurationSec: int, targetFps: int, timeBaseDen: int, toStreamTime: int -> int): (int, int) {
    (if timeBaseDen > 0 then toStreamTime(maxDurationSec * 1000) else Int64Max,
     if targetFps > 0 && timeBaseDen > 0 then toStreamTime(1000 / targetFps) else 0)
  }

  /** Without a valid time base nothing is dropped or cut off. */
  lemma NoTimeBaseKeepsAll(main: seq<DecodedFrame>, flush: seq<DecodedFrame>, maxDurationSec: int,
                           targetFps: int, timeBaseDen: int, toStreamTime: int -> int)
    requires timeBaseDen <= 0
    ensures var (maxPts, step) := Limits(maxDurationSec, targetFps, timeBaseDen, toStreamTime);
            Selected(main, flush, maxPts, step) == WithPicture(main) + flush
  {
    SelectUnlimited(main, 0);
  }

  // ---------------------------------------------------------------------------
  // animation timing
  // ---------------------------------------------------------------------------

  /** The timestamps handed to the animation encoder: each frame's time since
      the first frame (never negative), and a closing timestamp one frame
      duration, 1000 / max(1, fps) ms, after the last frame; each converted to
      a 32-bit int.  No frames is an error. */
  function AnimTimestamps(ms: seq<int>, fps: int): (r: Result<(seq<int>, int), string>)
    ensures r.Failure? <==> ms == []
    ensures r.Failure? ==> r.error == "no frames"
    ensures r.Success? ==> |r.value.0| == |ms| && r.value.0[0] == 0
    ensures r.Success? ==> forall i :: 0 <= i < |ms| ==> -0x8000_0000 <= r.value.0[i] < 0x8000_0000
  {
    if ms == [] then Failure("no frames")
    else
      var t0 := ms[0];
      var d := 1000 / (if fps >= 1 then fps else 1);
      Success((seq(|ms|, i requires 0 <= i < |ms| => ToInt32(if ms[i] - t0 >= 0 then ms[i] - t0 else 0)),
               ToInt32(if ms[|ms| - 1] - t0 + d >= 0 then ms[|ms| - 1] - t0 + d else 0)))
  }

  /** Whatever the frame order, as long as every span from the first frame
      fits in a 32-bit int: a frame's timestamp is its time since the first
      frame, clamped to 0 for a frame earlier than the first, and the closing
      timestamp is the last frame's time since the first plus one frame
      duration, clamped to 0 likewise. */
  lemma AnimTimestampsClamped(ms: seq<int>, fps: int)
    requires ms != []
    requires forall i :: 0 <= i < |ms| ==> ms[i] - ms[0] < 0x8000_0000
    requires ms[|ms| - 1] - ms[0] + 1000 / (if fps >= 1 then fps else 1) < 0x8000_0000
    ensures var (ts, last) := AnimTimestamps(ms, fps).value;
            && (forall i :: 0 <= i < |ms| ==> ts[i] >= 0)
            && (forall i :: 0 <= i < |ms| && ms[i] >= ms[0] ==> ts[i] == ms[i] - ms[0])
            && (forall i :: 0 <= i < |ms| && ms[i] < ms[0] ==> ts[i] == 0)
            && last == (if ms[|ms| - 1] - ms[0] + 1000 / (if fps >= 1 then fps else 1) >= 0
                        then ms[|ms| - 1] - ms[0] + 1000 / (if fps >= 1 then fps else 1) else 0)
  {
  }

  /** For frames in time order spanning less than 2^31 ms, the timestamps are
      the times since the first frame, in order, and the closing timestamp is
      one frame duration after the last. */
  lemma AnimTimestampsOrdered(ms: seq<int>, fps: int)
    requires ms != []
    requires forall i, j :: 0 <= i <= j < |ms| ==> ms[i] <= ms[j]
    requires ms[|ms| - 1] - ms[0] + 1000 < 0x8000_0000
    ensures var (ts, last) := AnimTimestamps(ms, fps).value;
            && (forall i :: 0 <= i < |ms| ==> ts[i] == ms[i] - ms[0])
            && (forall i, j :: 0 <= i <= j < |ms| ==> ts[i] <= ts[j])
            && last == ts[|ms| - 1] + 1000 / (if fps >= 1 then fps else 1)
  {
    var d := 1000 / (if fps >= 1 then fps else 1);
    assert 0 <= d <= 1000;
    forall i | 0 <= i < |ms|
      ensures ms[0] <= ms[i] && ms[i] - ms[0] < 0x8000_0000
    {
      assert ms[0] <= ms[i] <= ms[|ms| - 1];
    }
    AnimTimestampsClamped(ms, fps);
    var ts := AnimTimestamps(ms, fps).value.0;
    forall i, j | 0 <= i <= j < |ms|
      ensures ts[i] <= ts[j]
    {
      assert ts[i] == ms[i] - ms[0] && ts[j] == ms[j] - ms[0];
    }
  }

  /** The `(int)` cast wraps: a frame 2^31 ms after the first gets the most
      negative 32-bit timestamp instead of a larger one. */
  lemma AnimTimestampWraps(ms: seq<int>, fps: int)
    requires |ms| >= 2 && ms[1] == ms[0] + 0x8000_0000
    ensures AnimTimestamps(ms, fps).value.0[1] == -0x8000_0000
  {
    assert AnimTimestamps(ms, fps).value.0[1] == ToInt32(0x8000_0000);
  }

  /** Above 1000 fps the frame duration rounds down to zero and the closing
      timestamp equals the last frame's. */
  lemma AnimFastFrameRate(ms: seq<int>, fps: int)
    requires ms != [] && fps > 1000
    requires 0 <= ms[|ms| - 1] - ms[0] < 0x8000_0000
    ensures var (ts, last) := AnimTimestamps(ms, fps).value;
            last == ts[|ms| - 1]
  {
  }

  // ---------------------------------------------------------------------------
  // geometry
  // ---------------------------------------------------------------------------

  /** A square source window: left column, top row and side length. */
  datatype Window = Window(x: int, y: int, side: int)

  /** The centre crop: the largest centred square. */
  function CropWindow(w: int, h: int): Window {
    var side := if w <= h then w else h;
    Window((w - side) / 2, (h - side) / 2, side)
  }

  /** The crop window is the largest square inside the image, with margins on
      opposite sides differing by at most one pixel. */
  lemma CropWindowInside(w: int, h: int)
    requires w > 0 && h > 0
    ensures var c := CropWindow(w, h);
            && c.side > 0 && (c.side == w || c.side == h) && c.side <= w && c.side <= h
            && 0 <= c.x && c.x + c.side <= w && 0 <= c.y && c.y + c.side <= h
            && 0 <= (w - c.x - c.side) - c.x <= 1 && 0 <= (h - c.y - c.side) - c.y <= 1
  {
  }

  /** Multiplying by a non-negative factor keeps the order. */
  lemma MulMono(a: int, b: int, k: int)
    requires a <= b && k >= 0
    ensures a * k <= b * k
  {
  }

  /** The crop window's bytes in a w x h RGBA image all lie inside it: its
      first byte is at 4 * (y * w + x) and its last row ends within w * h * 4. */
  lemma CropWindowInBuffer(w: int, h: int)
    requires w > 0 && h > 0
    ensures var c := CropWindow(w, h);
            0 <= 4 * (c.y * w + c.x) && 4 * ((c.y + c.side - 1) * w + c.x + c.side) <= 4 * (w * h)
  {
    var c := CropWindow(w, h);
    CropWindowInside(w, h);
    var lastRow := c.y + c.side - 1;
    MulMono(lastRow, h - 1, w);
    MulMono(0, c.y, w);
    assert (h - 1) * w == h * w - w;
    assert lastRow * w + c.x + c.side <= w * h;
  }

  /** The side of the square canvas and the bytes in one of its rows. */
  const CanvasSide: int := 512
  const RowBytes: int := 2048

  /** The offset that centres `d` pixels in the canvas. */
  function PadOffset(d: int): int { (CanvasSide - d) / 2 }

  /** Cell (r, c) of a rows x width grid has an index inside the grid. */
  lemma RowIndexBound(r: int, c: int, width: int, rows: int)
    requires 0 <= r < rows && 0 <= c < width
    ensures 0 <= r * width + c < rows * width
  {
    MulMono(r + 1, rows, width);
    MulMono(0, r, width);
  }

  /** The byte of row `y`, byte column `k` of the scaled image lies inside it. */
  lemma ScaledIndex(dstW: int, dstH: int, y: int, k: int)
    requires 1 <= dstW && 0 <= y < dstH && 0 <= k < 4 * dstW
    ensures 0 <= y * (4 * dstW) + k < dstW * dstH * 4
  {
    RowIndexBound(y, k, 4 * dstW, dstH);
    assert dstH * (4 * dstW) == dstW * dstH * 4;
  }

  /** The byte the padded canvas holds at a row and a byte column: the scaled
      image's byte inside the centred rectangle, zero outside it. */
  function CanvasByte(scaled: string, dstW: int, dstH: int, row: int, col: int): char
    requires 1 <= dstW <= CanvasSide && 1 <= dstH <= CanvasSide && |scaled| == dstW * dstH * 4
  {
    var offX, offY := PadOffset(dstW), PadOffset(dstH);
    if offY <= row < offY + dstH && 4 * offX <= col < 4 * offX + 4 * dstW then
      RowIndexBound(row - offY, col - 4 * offX, 4 * dstW, dstH);
      assert dstH * (4 * dstW) == dstW * dstH * 4;
      scaled[(row - offY) * (4 * dstW) + (col - 4 * offX)]
    else 0 as char
  }

  function At(a: array<char>, row: int, col: int): char
    requires 0 <= row < CanvasSide && 0 <= col < RowBytes && a.Length == CanvasSide * RowBytes
    reads a
  {
    a[row * RowBytes + col]
  }

  /** The byte of a flat canvas at a row and a byte column. */
  function Cell(s: seq<char>, row: int, col: int): char
    requires 0 <= row < CanvasSide && 0 <= col < RowBytes && |s| == CanvasSide * RowBytes
  {
    s[row * RowBytes + col]
  }

  /** The canvas holds the padded image at every byte before (r, c) in row-major
      order and is still zero from there on. */
  ghost predicate FilledUpTo(s: seq<char>, scaled: string, dstW: int, dstH: int, r: int, c: int)
    requires 1 <= dstW <= CanvasSide && 1 <= dstH <= CanvasSide && |scaled| == dstW * dstH * 4
  {
    |s| == CanvasSide * RowBytes &&
    forall row, col :: 0 <= row < CanvasSide && 0 <= col < RowBytes ==>
      Cell(s, row, col) == (if row < r || (row == r && col < c) then CanvasByte(scaled, dstW, dstH, row, col) else 0 as char)
  }

  /** A zeroed canvas is filled up to the first byte of the centred rectangle. */
  lemma FillStart(s: seq<char>, scaled: string, dstW: int, dstH: int)
    requires 1 <= dstW <= CanvasSide && 1 <= dstH <= CanvasSide && |scaled| == dstW * dstH * 4
    requires |s| == CanvasSide * RowBytes && forall i :: 0 <= i < |s| ==> s[i] == 0 as char
    ensures FilledUpTo(s, scaled, dstW, dstH, PadOffset(dstH), 4 * PadOffset(dstW))
  {
    forall row, col | 0 <= row < CanvasSide && 0 <= col < RowBytes
      ensures Cell(s, row, col) == 0 as char
    {
      RowIndexBound(row, col, RowBytes, CanvasSide);
    }
  }

  /** Writing the padded image's byte at (r, c) moves the fill point one on. */
  lemma FillStep(s: seq<char>, scaled: string, dstW: int, dstH: int, r: int, c: int)
    requires 1 <= dstW <= CanvasSide && 1 <= dstH <= CanvasSide && |scaled| == dstW * dstH * 4
    requires 0 <= r < CanvasSide && 0 <= c < RowBytes
    requires FilledUpTo(s, scaled, dstW, dstH, r, c)
    ensures FilledUpTo(s[r * RowBytes + c := CanvasByte(scaled, dstW, dstH, r, c)], scaled, dstW, dstH, r, c + 1)
  {
    var t := s[r * RowBytes + c := CanvasByte(scaled, dstW, dstH, r, c)];
    forall row, col | 0 <= row < CanvasSide && 0 <= col < RowBytes
      ensures Cell(t, row, col)
              == (if row < r || (row == r && col < c + 1) then CanvasByte(scaled, dstW, dstH, row, col) else 0 as char)
    {
      if row != r || col != c {
        assert row * RowBytes + col != r * RowBytes + c;
        assert Cell(t, row, col) == Cell(s, row, col);
      }
    }
  }

  /** From the end of one row of the rectangle to the start of the next, every
      byte lies outside it. */
  lemma FillRowGap(s: seq<char>, scaled: string, dstW: int, dstH: int, y: int)
    requires 1 <= dstW <= CanvasSide && 1 <= dstH <= CanvasSide && |scaled| == dstW * dstH * 4
    requires 0 <= y < dstH
    requires FilledUpTo(s, scaled, dstW, dstH, PadOffset(dstH) + y, 4 * PadOffset(dstW) + 4 * dstW)
    ensures FilledUpTo(s, scaled, dstW, dstH, PadOffset(dstH) + y + 1, 4 * PadOffset(dstW))
  {
  }

  /** Once every row of the rectangle is written, the canvas is the padded image. */
  lemma FillFinish(s: seq<char>, scaled: string, dstW: int, dstH: int)
    requires 1 <= dstW <= CanvasSide && 1 <= dstH <= CanvasSide && |scaled| == dstW * dstH * 4
    requires FilledUpTo(s, scaled, dstW, dstH, PadOffset(dstH) + dstH, 4 * PadOffset(dstW))
    ensures forall row, col :: 0 <= row < CanvasSide && 0 <= col < RowBytes ==>
              Cell(s, row, col) == CanvasByte(scaled, dstW, dstH, row, col)
  {
  }

  /** The row copy of the pad branch: row `y` of the scaled image goes to its
      centred place in the canvas, byte by byte. */
  method CopyRow(canvas: array<char>, scaled: string, dstW: int, dstH: int, y: int)
    requires 1 <= dstW <= CanvasSide && 1 <= dstH <= CanvasSide && |scaled| == dstW * dstH * 4
    requires 0 <= y < dstH
    requires FilledUpTo(canvas[..], scaled, dstW, dstH, PadOffset(dstH) + y, 4 * PadOffset(dstW))
    modifies canvas
    ensures FilledUpTo(canvas[..], scaled, dstW, dstH, PadOffset(dstH) + y + 1, 4 * PadOffset(dstW))
  {
    var offX, offY := PadOffset(dstW), PadOffset(dstH);
    var w4 := 4 * dstW;
    var dst := (offY + y) * RowBytes + 4 * offX;
    var src := y * w4;
    for k := 0 to w4
      invariant FilledUpTo(canvas[..], scaled, dstW, dstH, offY + y, 4 * offX + k)
    {
      ScaledIndex(dstW, dstH, y, k);
      assert scaled[src + k] == CanvasByte(scaled, dstW, dstH, offY + y, 4 * offX + k);
      ghost var prev := canvas[..];
      FillStep(prev, scaled, dstW, dstH, offY + y, 4 * offX + k);
      canvas[dst + k] := scaled[src + k];
      assert canvas[..] == prev[dst + k := scaled[src + k]];
    }
    FillRowGap(canvas[..], scaled, dstW, dstH, y);
  }

  /** The pad branch of the resize: a zeroed 512 x 512 RGBA canvas with the
      scaled image copied row by row into its centre. */
  method PadCanvas(scaled: string, dstW: int, dstH: int) returns (canvas: array<char>)
    requires 1 <= dstW <= CanvasSide && 1 <= dstH <= CanvasSide && |scaled| == dstW * dstH * 4
    ensures canvas.Length == CanvasSide * RowBytes
    ensures forall row, col :: 0 <= row < CanvasSide && 0 <= col < RowBytes ==>
              At(canvas, row, col) == CanvasByte(scaled, dstW, dstH, row, col)
  {
    canvas := new char[CanvasSide * RowBytes](_ => 0 as char);
    FillStart(canvas[..], scaled, dstW, dstH);
    for y := 0 to dstH
      invariant FilledUpTo(canvas[..], scaled, dstW, dstH, PadOffset(dstH) + y, 4 * PadOffset(dstW))
    {
      CopyRow(canvas, scaled, dstW, dstH, y);
    }
    FillFinish(canvas[..], scaled, dstW, dstH);
    forall row, col | 0 <= row < CanvasSide && 0 <= col < RowBytes
      ensures At(canvas, row, col) == CanvasByte(scaled, dstW, dstH, row, col)
    {
      assert At(canvas, row, col) == Cell(canvas[..], row, col);
    }
  }

  // ---------------------------------------------------------------------------
  // options and dispatch
  // ---------------------------------------------------------------------------

  /** An element of the `emojis` array: a string or anything else. */
  datatype JsItem = JsStr(s: string) | NonString

  /** The strings of the `emojis` array, in order; other elements are ignored. */
  function StringItems(items: seq<JsItem>): seq<string> {
    if items == [] then []
    else StringItems(items[..|items| - 1]) + (if items[|items| - 1].JsStr? then [items[|items| - 1].s] else [])
  }

  /** A string is collected exactly when the array holds it. */
  lemma {:induction false} StringItemsMembers(items: seq<JsItem>)
    ensures forall s :: s in StringItems(items) <==> JsStr(s) in items
    ensures |StringItems(items)| <= |items|
  {
    if items != [] {
      var init := items[..|items| - 1];
      StringItemsMembers(init);
      assert items == init + [items[|items| - 1]];
    }
  }

  /** The emoji loop of the option reader. */
  method CollectEmojis(items: seq<JsItem>) returns (emojis: seq<string>)
    ensures emojis == StringItems(items)
  {
    emojis := [];
    for i := 0 to |items|
      invariant emojis == StringItems(items[..i])
    {
      assert items[..i + 1][..i] == items[..i];
      if items[i].JsStr? {
        emojis := emojis + [items[i].s];
      }
    }
    assert items[..|items|] == items;
  }

  /** The options object, each property already coerced; None when absent
      (for `emojis`, also when it is not an array). */
  datatype StickerOptions = StickerOptions(
    crop: Option<bool>,
    quality: Option<int>,
    fps: Option<int>,
    maxDuration: Option<int>,
    packName: Option<string>,
    authorName: Option<string>,
    emojis: Option<seq<JsItem>>)

  const NoFrameError: string := "No frame decoded (unsupported codec / corrupt input)"

  /** How the image is produced. */
  datatype Encoding =
    | PassThrough
    | StillImage(frame: DecodedFrame, crop: bool, quality: int)
    | Animation(frames: seq<DecodedFrame>, timestamps: seq<int>, closing: int, crop: bool, quality: int)

  datatype StickerOut = StickerOut(encoding: Encoding, exif: string)

  /** The encoder settings of a set of options: centre-crop or pad, and the
      WebP quality. */
  function Crop(o: StickerOptions): bool { o.crop.GetOr(false) }
  function Quality(o: StickerOptions): int { o.quality.GetOr(80) }

  /** The metadata values the EXIF block carries for a set of options. */
  function PackName(o: StickerOptions): string { o.packName.GetOr("") }
  function AuthorName(o: StickerOptions): string { o.authorName.GetOr("") }
  function Emojis(o: StickerOptions): seq<string> {
    if o.emojis.Some? then StringItems(o.emojis.value) else []
  }

  /** The frames kept for an input, given what the decoder produced, the
      stream's time base and the duration and rate options (15 s, 15 fps). */
  function KeptFrames(o: StickerOptions, main: seq<DecodedFrame>, flush: seq<DecodedFrame>,
                      timeBaseDen: int, toStreamTime: int -> int): seq<DecodedFrame> {
    var (maxPts, step) := Limits(o.maxDuration.GetOr(15), o.fps.GetOr(15), timeBaseDen, toStreamTime);
    Selected(main, flush, maxPts, step)
  }

  /** `MakeSticker`: WebP input only gets the EXIF block; anything else is
      decoded (the decoder's main-loop and flush frames are parameters), and
      no kept frame is an error, one gives a still image and several an
      animation.  The EXIF block names the pack, publisher and emojis of the
      options with a fresh pack id drawn from `draws`. */
  method MakeSticker(input: string, o: StickerOptions, main: seq<DecodedFrame>, flush: seq<DecodedFrame>,
                     timeBaseDen: int, toStreamTime: int -> int, draws: seq<int>)
    returns (r: Result<StickerOut, string>)
    requires |draws| == 16 && forall i :: 0 <= i < 16 ==> draws[i] >= 0
    ensures var frames := KeptFrames(o, main, flush, timeBaseDen, toStreamTime);
            && (r.Failure? <==> !IsWebP(input) && frames == [])
            && (r.Failure? ==> r.error == NoFrameError)
            && (IsWebP(input) ==> r.Success? && r.value.encoding == PassThrough)
            && (!IsWebP(input) && |frames| == 1 ==> r.Success? && r.value.encoding == StillImage(frames[0], Crop(o), Quality(o)))
            && (!IsWebP(input) && |frames| > 1 ==>
                  r.Success? && r.value.encoding.Animation? && r.value.encoding.frames == frames
                  && r.value.encoding.crop == Crop(o) && r.value.encoding.quality == Quality(o)
                  && AnimTimestamps(seq(|frames|, i requires 0 <= i < |frames| => PtsMs(frames[i])), o.fps.GetOr(15))
                     == Success((r.value.encoding.timestamps, r.value.encoding.closing)))
    ensures r.Success? ==> exists id :: |id| == 32 && r.value.exif
                             == StickerExif.ExifBlock(StickerExif.ExifJson(id, PackName(o), AuthorName(o), Emojis(o)))
  {
    var emojis: seq<string> := [];
    if o.emojis.Some? {
      emojis := CollectEmojis(o.emojis.value);
    }
    var crop := o.crop.GetOr(false);
    var quality := o.quality.GetOr(80);
    var pack := o.packName.GetOr("");
    var author := o.authorName.GetOr("");
    if IsWebP(input) {
      var exif := StickerExif.BuildWhatsAppExif(pack, author, emojis, draws);
      return Success(StickerOut(PassThrough, exif));
    }
    var fps := o.fps.GetOr(15);
    var (maxPts, step) := Limits(o.maxDuration.GetOr(15), fps, timeBaseDen, toStreamTime);
    var frames := SelectFrames(main, flush, maxPts, step);
    if |frames| == 0 {
      return Failure(NoFrameError);
    }
    var encoding;
    if |frames| == 1 {
      encoding := StillImage(frames[0], crop, quality);
    } else {
      var times := AnimTimestamps(seq(|frames|, i requires 0 <= i < |frames| => PtsMs(frames[i])), fps);
      encoding := Animation(frames, times.value.0, times.value.1, crop, quality);
    }
    var exif := StickerExif.BuildWhatsAppExif(pack, author, emojis, draws);
    r := Success(StickerOut(encoding, exif));
  }

  /** With no options the sticker is not cropped, at quality 80, limited to
      15 s and 15 fps, with empty pack and publisher names and no emojis. */
  lemma DefaultStickerOptions(main: seq<DecodedFrame>, flush: seq<DecodedFrame>, timeBaseDen: int, toStreamTime: int -> int)
    ensures var o := StickerOptions(None, None, None, None, None, None, None);
            && !Crop(o) && Quality(o) == 80
            && PackName(o) == "" && AuthorName(o) == "" && Emojis(o) == []
            && KeptFrames(o, main, flush, timeBaseDen, toStreamTime)
               == Selected(main, flush, if timeBaseDen > 0 then toStreamTime(15000) else Int64Max,
                           if timeBaseDen > 0 then toStreamTime(66) else 0)
  {
  }
}
