/** The frame loop of `extract_frames`: read frames until the first failed read,
    letterbox each one onto a square canvas and save it under a numbered name. */
module Frames {
  import opened Wrappers
  import opened Image
  import opened Letterbox
  import opened Decimal

  /** A decoded frame: `frame.shape[:2]` is (`height`, `width`). */
  datatype Frame = Frame(height: nat, width: nat, pixels: Grid)

  /** What a decoder delivers: a pixel buffer of positive height and the stated shape. */
  predicate Decoded(f: Frame) {
    f.height > 0 && IsGrid(f.pixels, f.height, f.width)
  }

  /** The resize step, `cv2.resize(frame, (new_w, new_h))`, supplied by the caller. */
  type Resizer = (Frame, nat, nat) -> Grid

  /** A resizer that always returns a grid of the requested width and height. */
  ghost predicate ShapeCorrect(resize: Resizer) {
    forall f, w: nat, h: nat :: IsGrid(resize(f, w, h), h, w)
  }

  /** An image written to disk: its path and its pixels. */
  datatype Output = Output(path: string, image: Grid)

  /** Successive results of `video.read()`; reading past the end of the sequence fails. */
  type Video = seq<Option<Frame>>

  /** The result of the read at position `k`. */
  function Read(video: Video, k: nat): Option<Frame> {
    if k < |video| then video[k] else None
  }

  /** The frames read before the first failed read, in order. */
  function LeadingFrames(video: Video): (fs: seq<Frame>)
    ensures |fs| <= |video|
    ensures forall i :: 0 <= i < |fs| ==> video[i] == Some(fs[i])
    ensures |fs| < |video| ==> video[|fs|].None?
  {
    if |video| == 0 || video[0].None? then [] else [video[0].value] + LeadingFrames(video[1..])
  }

  /** The path `f"{output_folder}/train4_{count}.jpg"`. */
  function FramePath(folder: string, count: nat): string {
    folder + "/train4_" + ToDecimal(count) + ".jpg"
  }

  /** The counter can be read back from a frame path, so it identifies the frame. */
  lemma FramePathEncodesCount(folder: string, count: nat)
    ensures var p := FramePath(folder, count);
      |p| >= |folder| + 12 && FromDecimal(p[|folder| + 8..|p| - 4]) == count
  {
    var p := FramePath(folder, count);
    assert p[|folder| + 8..|p| - 4] == ToDecimal(count);
    FromDecimalInvertsToDecimal(count);
  }

  /** Different counters give different paths: no frame overwrites another. */
  lemma FramePathsDistinct(folder: string, i: nat, j: nat)
    requires i != j
    ensures FramePath(folder, i) != FramePath(folder, j)
  {
    FramePathEncodesCount(folder, i);
    FramePathEncodesCount(folder, j);
  }

  /** The canvas saved for frame `f`: the frame resized to the letterbox size, centred on
      a black square. */
  function Square(f: Frame, finalSize: nat, resize: Resizer): (canvas: Grid)
    requires Decoded(f) && ShapeCorrect(resize)
    ensures IsGrid(canvas, finalSize, finalSize)
    ensures var p := Place(f.height, f.width, finalSize);
      var resized := resize(f, p.size.width, p.size.height);
      forall i, j :: 0 <= i < finalSize && 0 <= j < finalSize ==>
        canvas[i][j] == if InBox(p, i, j) then resized[i - p.y][j - p.x] else Black
  {
    var p := Place(f.height, f.width, finalSize);
    Compose(finalSize, p, resize(f, p.size.width, p.size.height))
  }

  /** `extract_frames`: one output per frame read before the first failed read, the
      k-th (from zero) saved as `train4_k`; the returned count is the number of frames. */
  method ExtractFrames(video: Video, folder: string, finalSize: nat, resize: Resizer)
    returns (count: nat, written: seq<Output>)
    requires forall f :: f in LeadingFrames(video) ==> Decoded(f)
    requires ShapeCorrect(resize)
    ensures count == |LeadingFrames(video)| && |written| == count
    ensures forall k :: 0 <= k < count ==> video[k].Some?
    ensures count < |video| ==> video[count].None?
    ensures forall k :: 0 <= k < count ==>
      written[k] == Output(FramePath(folder, k), Square(video[k].value, finalSize, resize))
    ensures forall k, l :: 0 <= k < l < count ==> written[k].path != written[l].path
    ensures (|video| == 0 || video[0].None?) ==> count == 0 && written == []
  {
    ghost var frames := LeadingFrames(video);
    var next := Read(video, 0);
    count := 0;
    written := [];
    while next.Some?
      invariant count <= |frames| && |written| == count
      invariant next.Some? <==> count < |frames|
      invariant count < |frames| ==> next == Some(frames[count])
      invariant forall k :: 0 <= k < count ==>
        written[k] == Output(FramePath(folder, k), Square(frames[k], finalSize, resize))
      decreases |frames| - count
    {
      var frame := next.value;
      assert frame in frames;
      var canvas := Square(frame, finalSize, resize);
      written := written + [Output(FramePath(folder, count), canvas)];
      next := Read(video, count + 1);
      count := count + 1;
    }
    forall k, l | 0 <= k < l < count
      ensures written[k].path != written[l].path
    {
      FramePathsDistinct(folder, k, l);
    }
  }

  /** A stream of `n` successful reads followed by a failed read (or the end of the
      stream) yields exactly those `n` frames. */
  lemma FramesBeforeFailure(video: Video, n: nat)
    requires n <= |video|
    requires forall k :: 0 <= k < n ==> video[k].Some?
    requires n < |video| ==> video[n].None?
    ensures |LeadingFrames(video)| == n
    ensures forall k :: 0 <= k < n ==> LeadingFrames(video)[k] == video[k].value
  {
  }
}
