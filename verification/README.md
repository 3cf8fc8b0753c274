# Letterbox frame extraction and `str2bool`, modelled in Dafny

The repository builds an anomaly-detection training set from video and trains a
PatchCore model on it. Two pieces of it hold logic of their own, and this project
models both:

- `extract_frames` in `preprocess/video2frames.py` reads a video frame by frame. It
  resizes each frame so that its longer side is `final_size`, keeping the aspect
  ratio. It centres the result on a black `final_size` x `final_size` canvas and saves
  the canvas as `train4_<count>.jpg`. It stops at the first failed read.
- `str2bool` in `train_anomalib/train_patchcore_anomalib.py` is the argparse converter
  for boolean flags. It accepts a bool, or one of ten case-insensitive tokens.

Modules:

- `Wrappers` (`wrappers.dfy`): `Option` for a video read, `Result` for a call that
  may raise.
- `Image` (`image.dfy`): `uint8` channels, three-channel `Pixel`s, grids as sequences
  of rows, `np.zeros` (`Blank`), and the numpy slice assignment (`Paste`).
- `Letterbox` (`letterbox.dfy`): the target size (`ResizeDims`), the centring offsets
  (`CenterOffset`, `Place`) and the canvas (`Compose`).
- `Decimal` (`decimal.dfy`): how Python writes the frame counter into the file name,
  with a parser that proves the text identifies the number.
- `Frames` (`frames.dfy`): the read loop (`ExtractFrames`), the frames before the
  first failed read (`LeadingFrames`) and the output paths (`FramePath`).
- `Str2Bool` (`str2bool.dfy`): `str2bool` and its token lists.

Idealisations and parameters:

- The aspect ratio is exact. The source computes `w / h` as a float and truncates
  `final_size / aspect_ratio` (or `final_size * aspect_ratio`) with `int()`. The model
  uses the exact floor of `final_size * h / w` (or `final_size * w / h`). A float
  result can differ from the exact floor by one pixel in rare cases.
- `cv2.resize` is a caller-supplied function, `resize(frame, new_w, new_h)`. It must
  return a grid with `new_h` rows and `new_w` columns. Its pixel values are not
  modelled.
- The video is a sequence of read results. `None` is a failed read, and reading past
  the end of the sequence also fails.
- `cv2.imwrite` is modelled as an `Output(path, image)` record in the returned list.
- `str.lower` is ASCII lower-casing.

`int()` truncates the scaled side rather than rounding it: a 3:2 frame on a 1024
canvas is 682 rows high, not 683 (`Letterbox.TruncatesNotRounds`).

## Model

| member | source | states |
|---|---|---|
| Image.Blank | preprocess/video2frames.py:28 | the fresh canvas has exactly the requested rows and columns, and every pixel is black |
| Image.PasteRow | preprocess/video2frames.py:35 | one row of the slice assignment: the columns from `x_offset` on show the resized row, and every other column keeps its pixel |
| Image.Paste | preprocess/video2frames.py:35 | the slice assignment keeps the grid's shape; inside the block each pixel is `src[i - y][j - x]`, and every pixel outside the block is unchanged |
| Letterbox.ScaleDown | preprocess/video2frames.py:19-22 | `int(final_size * small / large)` is the floor quotient `q` with `q * large <= final_size * small < (q + 1) * large`, so it truncates rather than rounds, and it never exceeds `final_size` |
| Letterbox.ResizeDims | preprocess/video2frames.py:14-22 | a frame wider than tall gets width `final_size`; any other frame, square included, gets height `final_size`; neither side exceeds `final_size` |
| Letterbox.ResizeDimsTruncates | preprocess/video2frames.py:15-22 | the proportional side is the floor of `final_size * h / w` for a wide frame and of `final_size * w / h` otherwise |
| Letterbox.CenterOffset | preprocess/video2frames.py:31-32 | the leading padding `o` satisfies `2*o <= free <= 2*o + 1`, so it is half the free space rounded down, and the trailing padding is equal or one larger |
| Letterbox.Place | preprocess/video2frames.py:14-32 | the placement uses the resized size; the box fits in the canvas; top padding <= bottom padding <= top padding + 1, and the same for left and right |
| Letterbox.Compose | preprocess/video2frames.py:28-35 | the canvas is exactly `final_size` x `final_size`; inside the box pixel (i, j) is `resized[i - y_offset][j - x_offset]`; outside it every pixel is black |
| Letterbox.PlacementInsideCanvas | preprocess/video2frames.py:17-35 | both resized dimensions are at most `final_size`, so both offsets are non-negative and every box pixel lies on the canvas |
| Letterbox.SquareFrameFillsCanvas | preprocess/video2frames.py:17-32 | a square frame is resized to `final_size` x `final_size` with both offsets zero |
| Letterbox.ComposeShowsWholeFrame | preprocess/video2frames.py:35 | every pixel of the resized frame appears on the canvas at its offset position; nothing is cropped |
| Letterbox.LandscapeExample | preprocess/video2frames.py:14-32 | a 1920 x 1080 frame on a 1024 canvas becomes 1024 x 576 at row offset 224 |
| Letterbox.PortraitExample | preprocess/video2frames.py:14-32 | a 1080 x 1920 frame on a 1024 canvas becomes 576 x 1024 at column offset 224 |
| Letterbox.TruncatesNotRounds | preprocess/video2frames.py:19-31 | a 3:2 frame on a 1024 canvas is 682 rows high at row offset 171; `int()` does not round up to 683 |
| Decimal.ToDecimal | preprocess/video2frames.py:37 | the counter's text is non-empty, all decimal digits, and starts with `0` only when the counter is zero, which is then the text `0` |
| Decimal.FromDecimalInvertsToDecimal | preprocess/video2frames.py:37 | parsing the counter's text gives the counter back |
| Decimal.ToDecimalInjective | preprocess/video2frames.py:37 | different counters have different texts |
| Frames.Read | preprocess/video2frames.py:39 | defines `video.read()`: the entry at position k inside the stream, and a failed read past the end; no contract of its own, and `LeadingFrames` and `ExtractFrames` state what the loop makes of the reads |
| Frames.FramePath | preprocess/video2frames.py:37 | builds `{folder}/train4_{count}.jpg` and has no contract of its own: `FramePathEncodesCount` shows the counter parses back out of the path, and `FramePathsDistinct` shows distinct counters give distinct paths |
| Frames.LeadingFrames | preprocess/video2frames.py:8-12 | the frames processed are the stream's successful reads, in order, up to the first failed read, which is the read just after them |
| Frames.FramePathEncodesCount | preprocess/video2frames.py:37 | the counter can be parsed back out of `{folder}/train4_{count}.jpg` |
| Frames.FramePathsDistinct | preprocess/video2frames.py:37-38 | two different counters give two different output paths, so no saved frame overwrites another |
| Frames.Square | preprocess/video2frames.py:14-35 | the saved canvas for one frame is `final_size` x `final_size`; it shows the resized frame inside the placement box and is black outside it |
| Frames.ExtractFrames | preprocess/video2frames.py:8-40 | the final count is the number of frames before the first failed read; output k is `train4_k` and holds frame k's canvas; all paths are distinct; an empty stream writes nothing and counts 0 |
| Frames.FramesBeforeFailure | preprocess/video2frames.py:8-40 | N successful reads followed by a failed read, or the end of the stream, yield exactly those N frames |
| Str2Bool.LowerChar | train_anomalib/train_patchcore_anomalib.py:47 | lower-casing shifts an ASCII capital by 32, keeps every other character, and never yields a capital |
| Str2Bool.Lower | train_anomalib/train_patchcore_anomalib.py:47 | lower-casing a string keeps its length and lower-cases each character in place |
| Str2Bool.LowerIdempotent | train_anomalib/train_patchcore_anomalib.py:47 | lower-casing twice is the same as lower-casing once |
| Str2Bool.MatchesIffSameLower | train_anomalib/train_patchcore_anomalib.py:47-49 | two strings match ignoring case exactly when their lower-cased forms are equal |
| Str2Bool.TokensAreLowerCase | train_anomalib/train_patchcore_anomalib.py:47-49 | every token in both lists is already lower case |
| Str2Bool.Str2Bool | train_anomalib/train_patchcore_anomalib.py:44-52 | a bool argument is returned unchanged; the only failure is `ArgumentTypeError('Boolean value expected.')` |
| Str2Bool.TrueIffTrueToken | train_anomalib/train_patchcore_anomalib.py:47-48 | a string gives True exactly when it spells `yes`, `true`, `t`, `y` or `1` in any letter case |
| Str2Bool.FalseIffFalseToken | train_anomalib/train_patchcore_anomalib.py:49-50 | a string gives False exactly when it spells `no`, `false`, `f`, `n` or `0` in any letter case |
| Str2Bool.RejectsOtherStrings | train_anomalib/train_patchcore_anomalib.py:51-52 | a string raises the error exactly when it spells none of the ten tokens |
| Str2Bool.TokenListsDisjoint | train_anomalib/train_patchcore_anomalib.py:47-50 | no string spells both a true token and a false token |
| Str2Bool.CaseInsensitive | train_anomalib/train_patchcore_anomalib.py:47-49 | strings that differ only in letter case convert to the same result |
| Str2Bool.Idempotent | train_anomalib/train_patchcore_anomalib.py:45-50 | feeding an accepted result back in returns the same result |

## Left out

- Video decoding (`cv2.VideoCapture`, `video.read`, `video.release`) is I/O. The
  video is a parameter: a sequence of read results.
- `cv2.resize` interpolation is a foreign library call. It is the `resize` parameter,
  constrained only in the shape of its result. OpenCV raises on a zero-area target
  size. That happens for a frame more than `final_size` times wider than tall, for a
  frame more than `final_size` times taller than wide, for a frame of width 0, and for
  `final_size == 0`. The model returns a canvas in each of these cases and does not
  reproduce the error, because the resizer is opaque.
- `cv2.imwrite`, JPEG encoding, `os.makedirs`, the `print` of the total and the
  hard-coded paths and `final_size = 1024` (`preprocess/video2frames.py:42-51`) are I/O
  or configuration. A write is an `Output` record, and the count is returned instead
  of printed.
- Letterbox.ResizeDims: uses the exact floor of the scaled side instead of the float
  computation `int(final_size / (w / h))`. The two can differ by one pixel when float
  rounding crosses an integer.
- A frame of height 0 would make `w / h` raise `ZeroDivisionError`. Decoded frames are
  never empty, so `Place`, `ResizeDims` and `ExtractFrames` require positive heights.
- A negative `final_size` makes `cv2.resize` raise at
  `preprocess/video2frames.py:25` on the first frame. An empty stream with a negative
  `final_size` prints 0. The model does not cover either case, because `final_size` is
  a natural number.
- Str2Bool.Lower: ASCII lower-casing only. Python's `str.lower` also maps non-ASCII
  letters, which the model does not cover.
- `str2bool` on a value that is neither a bool nor a string (`v.lower()` would raise
  `AttributeError`) is not modelled. argparse applies `type=` only to strings, so
  the `const=True` and `default=False` of the flag at
  `train_anomalib/train_patchcore_anomalib.py:61` never reach `str2bool`. The bool
  branch (`BoolArg`) models lines 45-46 for direct callers.
- Everything else in `train_anomalib/train_patchcore_anomalib.py` is framework glue
  and is not modelled. That covers the CUDA and torch settings, the argparse wiring,
  the augmentation list, the anomalib `Folder`, `Patchcore` and `Engine` calls, the
  wandb logger and the export.
- `test.py` is a plain frame-dump loop with no resizing. Its counter loop is the same
  as the one `ExtractFrames` models.
