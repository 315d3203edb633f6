# Dot detector — a Dafny model

This project models the detection core of a triggered-camera dot finder
(`dot_detector.py`). A `DotDetector` holds one brightness threshold. Its
`find_centroid` does four things in order:

1. It binarises a grayscale frame.
2. It takes the connected regions found in the mask.
3. It keeps the region of largest area, the first one on a tie.
4. It returns a `DotResult` with an optional centroid, an area and the caller's timestamp.

Its `get_annotated_frame` decides whether to draw a filled marker and a
coordinate label on a colour copy of the frame, and where.

Modules:

- `Optional` (optional.dfy): the `Option` datatype for Python's `Optional`/`None`.
- `Threshold` (threshold.dfy): frames as rows of samples, and the greater-than binary threshold with output values 255 and 0.
- `Selection` (selection.dfy): Python's `max(items, key=...)` as a left-to-right scan where the first item wins a tie, plus a reference maximum.
- `Conversions` (conversions.dfy): Python's `int(float)`, which truncates toward zero, and `str(int)`, with a decimal parser that is its inverse in both directions (it accepts exactly the strings `str` produces).
- `DotDetector` (dot_detector.dfy): the contour record, `DotResult`, the detector value, `FindCentroid` and the drawing plan `GetAnnotatedFrame`.

Region extraction (`cv2.findContours`) is a parameter `findContours: Frame -> seq<Contour>`.
The model treats it as an unknown function of the mask. Each contour it reports is a record of
`area` (what `cv2.contourArea` returns) and `m00`, `m10`, `m01` (what `cv2.moments` returns).
All of these are Dafny `real`s.
Two helpers carry this through the contracts. `RegionsOf` is the threshold-then-extract composition of
`dot_detector.py:20-21`: the extractor applied to the detector's mask of the frame. `ContourArea` is the
selection key `cv2.contourArea` of `dot_detector.py:26-27`: a region's recorded area.

The detector is a datatype value, because nothing ever assigns `threshold` after `__init__`
(`dot_detector.py:13-14`). `FindCentroid` is a function of the detector, the frame, the timestamp and
the extractor, so repeated calls on the same inputs give the same result by construction.
`MaskDeterminesResult` states the stronger fact: the frame matters only through its mask.

Notes on how the code is read:

- One might expect a centroid exactly when `area > 0` and `m00 != 0`. The code tests only that regions exist and that `m00 != 0` (`dot_detector.py:23`, `dot_detector.py:30`), and `FindCentroid` models the code. `CentroidIffPositiveArea` shows the two readings agree when every region's `m00` equals its non-negative area, as polygon moments of a contour give.
- `result and result.centroid` (`dot_detector.py:44`) is modelled as "a result is given and its centroid is present". A dataclass instance and a two-element tuple are always truthy in Python, so this matches even for a centroid at (0.0, 0.0).

## Model

| member | source | states |
|---|---|---|
| `DotDetector.NewDetector` | dot_detector.py:13-14 | the constructed detector holds the given threshold; the default is 200 |
| `Threshold.BinarizeRow` | dot_detector.py:20 | the output row has the input's width; each sample becomes 255 when strictly above the threshold and 0 otherwise |
| `Threshold.Binarize` | dot_detector.py:20 | the mask has the frame's shape; each pixel is 255 when the sample is strictly above the threshold and 0 otherwise |
| `Threshold.BinarizeKeepsRectangular` | dot_detector.py:20 | thresholding a rectangular frame gives a rectangular mask |
| `Threshold.BlankMaskIffNothingBright` | dot_detector.py:20 | the mask is all background iff no sample is above the threshold |
| `Threshold.FullMaskIffAllBright` | dot_detector.py:20 | the mask is all foreground iff every sample is above the threshold |
| `Selection.LargestIndex` | dot_detector.py:26 | `max(..., key=)` picks a position whose key is >= every key, and every earlier position has a strictly smaller key, so the first wins a tie |
| `Selection.LargestIndexUnique` | dot_detector.py:26 | an index is the first of greatest key iff it is the one `max` picks |
| `Selection.MaxKeyIsMaximum` | dot_detector.py:26-27 | the reference maximum bounds every key and is attained |
| `Selection.SelectedKeyIsMaxKey` | dot_detector.py:26-27 | the key of the selected element equals the reference maximum |
| `Selection.UniqueLargestIgnoresOrder` | dot_detector.py:26 | when one element's key is strictly greatest, any reordering of the items selects that same element |
| `DotDetector.Centroid` | dot_detector.py:33-34 | the centroid times m00 gives back m10 and m01 |
| `DotDetector.FindCentroid` | dot_detector.py:16-36 | no frame gives no result; every result carries the timestamp; no region gives no centroid and area 0; otherwise the area is that of the first region of largest area, and a centroid (m10/m00, m01/m00) is present iff that region's m00 is non-zero |
| `DotDetector.CentroidPresentIff` | dot_detector.py:17-36 | a centroid is reported iff a frame is given, regions exist and the selected region's m00 is non-zero |
| `DotDetector.ReportedAreaIsMaximum` | dot_detector.py:26-31 | whenever regions exist, the reported area is the greatest region area, also when m00 is zero |
| `DotDetector.MaskDeterminesResult` | dot_detector.py:20-21 | two frames with the same mask give the same result |
| `DotDetector.DarkFrameNoDot` | dot_detector.py:20-24 | a frame with no sample above the threshold gives centroid None, area 0 and the caller's timestamp, provided the extractor finds no region in an all-background mask |
| `DotDetector.LargestRegionIgnoresScanOrder` | dot_detector.py:26-36 | if one region's area is strictly the largest, reordering the extractor's regions does not change the result |
| `DotDetector.CentroidIffPositiveArea` | dot_detector.py:27-31 | if every region's m00 equals its non-negative area, a centroid is present iff the reported area is positive |
| `Conversions.Trunc` | dot_detector.py:45-46 | `int(x)` is the integer nearest zero with absolute difference below 1 from x, on x's side of zero |
| `Conversions.TruncUnique` | dot_detector.py:45-46 | only one integer satisfies the truncation bounds |
| `Conversions.TruncMagnitude` | dot_detector.py:45-46 | truncation never increases the magnitude, and reduces it by less than 1 |
| `Conversions.FormatInt` | dot_detector.py:47 | the decimal rendering starts with '-' exactly for negative numbers, is digits otherwise, has no leading zero ("0" aside) and no comma or space |
| `Conversions.ParseFormatInt` | dot_detector.py:47 | reading the rendering of n back gives n |
| `Conversions.FormatParseInt` | dot_detector.py:47 | a string that reads back as n is the rendering of n, so the parser accepts no leading zeros and no "-0" |
| `Conversions.FormatIntInjective` | dot_detector.py:47 | distinct integers render as distinct strings |
| `DotDetector.LabelText` | dot_detector.py:47 | the label is wrapped in parentheses |
| `DotDetector.ParseLabelText` | dot_detector.py:47 | the label "(x, y)" reads back as exactly the marker position (x, y) |
| `DotDetector.ParseLabelOnlyText` | dot_detector.py:47 | a string that reads back as position p is the label of p, so the label text is determined by the position |
| `DotDetector.GetAnnotatedFrame` | dot_detector.py:38-51 | no frame gives no image; a marker and label are drawn iff a result with a centroid is given; the marker is a filled green circle of radius 5 at the truncated centroid; the label text is the `f"({x}, {y})"` rendering of that position, reads back as it, and sits 10 pixels to its right in Hershey Simplex at scale 0.5, green, thickness 1 |

## Left out

- Camera enumeration, configuration and streaming (`camera_handler.py`): this is foreign SDK I/O and an asynchronous callback with a shared ready flag.
- The polling display loop (`main.py`) and the stand-alone deviation script (`deviation_tracking_example/deviation_calc.py`): these are run-loop and UI plumbing, and a script with no operations.
- The combined prototype `MRDS dot centroid finder.py` is not part of this model. It duplicates the detector with camera state mixed in.
- `cv2.findContours`, `cv2.contourArea` and `cv2.moments` internals: boundary tracing, polygon area and moment formulas are library code. The model takes their outputs as abstract per-region values.
- Floating-point rounding and non-finite values: area, moments, centroid and timestamp are exact reals. So `int(cx)` on NaN or infinity, which raises in Python, has no counterpart.
- Pixel rendering: the BGR conversion (`cv2.cvtColor`) and the rasterisation done by `cv2.circle` and `cv2.putText` are not modelled. `GetAnnotatedFrame` returns what would be drawn and where, and `Plain` stands for the unmodified colour copy.
- Sample depth: frames are rows of non-negative integers, with no bound at 8 or 12 bits. Any OpenCV rejection of a frame depth or shape is outside the model.
