/**
 * The dot detector: threshold a grayscale frame, take the connected regions
 * found in the mask, keep the one of largest area and report its centroid
 * from its spatial moments; plus the plan of what the diagnostic view draws.
 *
 * Region extraction (`cv2.findContours`) is outside the model: it is passed
 * in as a function from mask to the sequence of regions it reports, each
 * region carrying the values `cv2.contourArea` and `cv2.moments` give it.
 */
module DotDetector {
  import opened Optional
  import opened Threshold
  import opened Selection
  import opened Conversions

  /** One region reported for a mask: its area and its moments m00, m10, m01. */
  datatype Contour = Contour(area: real, m00: real, m10: real, m01: real)

  datatype Point = Point(x: real, y: real)

  /** The outcome of one detection: optional centroid, area of the chosen region, the caller's timestamp. */
  datatype DotResult = DotResult(centroid: Option<Point>, area: real, timestamp: real)

  /** A detector holds only its threshold, which nothing changes after construction. */
  datatype Detector = Detector(threshold: int)

  /** The threshold a detector gets when none is given. */
  const DefaultThreshold: int := 200

  /** The value the constructor builds; `threshold` defaults to DefaultThreshold. */
  function NewDetector(threshold: int := DefaultThreshold): (d: Detector)
    ensures d.threshold == threshold
  {
    Detector(threshold)
  }

  /** The selection key: the region's area. */
  function ContourArea(c: Contour): real {
    c.area
  }

  /** The regions the extractor reports for this frame's mask under this detector. */
  function RegionsOf(d: Detector, frame: Frame, findContours: Frame -> seq<Contour>): seq<Contour> {
    findContours(Binarize(frame, d.threshold))
  }

  /** The centroid of a region with non-zero zeroth moment. */
  function Centroid(c: Contour): (p: Point)
    requires c.m00 != 0.0
    ensures p.x * c.m00 == c.m10 && p.y * c.m00 == c.m01
  {
    Point(c.m10 / c.m00, c.m01 / c.m00)
  }

  /** Detection on an optional frame. */
  function FindCentroid(d: Detector, frame: Option<Frame>, timestamp: real,
                        findContours: Frame -> seq<Contour>): (r: Option<DotResult>)
    // no frame, no result at all
    ensures r.None? <==> frame.None?
    // every result carries the caller's timestamp unchanged
    ensures r.Some? ==> r.value.timestamp == timestamp
    // no region: no centroid and area 0
    ensures frame.Some? && |RegionsOf(d, frame.value, findContours)| == 0 ==>
      r.value.centroid.None? && r.value.area == 0.0
    // otherwise the chosen region is the first one of greatest area and the area is that region's
    ensures frame.Some? && |RegionsOf(d, frame.value, findContours)| > 0 ==>
      var cs := RegionsOf(d, frame.value, findContours);
      exists k :: IsFirstLargest(cs, ContourArea, k) && r.value.area == cs[k].area
        && (r.value.centroid.Some? <==> cs[k].m00 != 0.0)
        && (r.value.centroid.Some? ==>
              r.value.centroid.value.x * cs[k].m00 == cs[k].m10
              && r.value.centroid.value.y * cs[k].m00 == cs[k].m01)
  {
    if frame.None? then None
    else
      var contours := RegionsOf(d, frame.value, findContours);
      if |contours| == 0 then Some(DotResult(None, 0.0, timestamp))
      else
        var largest := contours[LargestIndex(contours, ContourArea)];
        var area := ContourArea(largest);
        if largest.m00 == 0.0 then Some(DotResult(None, area, timestamp))
        else Some(DotResult(Some(Centroid(largest)), area, timestamp))
  }

  /** A centroid is reported exactly when a frame is given, some region exists and the chosen region's m00 is not zero. */
  lemma CentroidPresentIff(d: Detector, frame: Option<Frame>, timestamp: real,
                           findContours: Frame -> seq<Contour>)
    ensures var r := FindCentroid(d, frame, timestamp, findContours);
      (r.Some? && r.value.centroid.Some?) <==>
        (frame.Some? && |RegionsOf(d, frame.value, findContours)| > 0
         && RegionsOf(d, frame.value, findContours)[LargestIndex(RegionsOf(d, frame.value, findContours), ContourArea)].m00 != 0.0)
  {
  }

  /** The reported area is the greatest area over all regions, even when the centroid is absent. */
  lemma ReportedAreaIsMaximum(d: Detector, frame: Frame, timestamp: real,
                              findContours: Frame -> seq<Contour>)
    requires |RegionsOf(d, frame, findContours)| > 0
    ensures FindCentroid(d, Some(frame), timestamp, findContours).value.area
      == MaxKey(RegionsOf(d, frame, findContours), ContourArea)
  {
    SelectedKeyIsMaxKey(RegionsOf(d, frame, findContours), ContourArea);
  }

  /** The result depends on the frame only through its thresholded mask. */
  lemma MaskDeterminesResult(d: Detector, f: Frame, g: Frame, timestamp: real,
                             findContours: Frame -> seq<Contour>)
    requires Binarize(f, d.threshold) == Binarize(g, d.threshold)
    ensures FindCentroid(d, Some(f), timestamp, findContours)
      == FindCentroid(d, Some(g), timestamp, findContours)
  {
  }

  /**
   * A frame with no sample above the threshold yields the empty result,
   * for an extractor that reports no region in an all-background mask.
   */
  lemma DarkFrameNoDot(d: Detector, frame: Frame, timestamp: real,
                       findContours: Frame -> seq<Contour>)
    requires forall i, j :: 0 <= i < |frame| && 0 <= j < |frame[i]| ==> frame[i][j] <= d.threshold
    requires forall m :: IsBlank(m) ==> findContours(m) == []
    ensures FindCentroid(d, Some(frame), timestamp, findContours) == Some(DotResult(None, 0.0, timestamp))
  {
  }

  /**
   * Of regions with distinct areas, the strictly largest is chosen whatever
   * order the extractor reports them in.
   */
  lemma LargestRegionIgnoresScanOrder(d: Detector, frame: Frame, timestamp: real,
                                      f1: Frame -> seq<Contour>, f2: Frame -> seq<Contour>, k: nat)
    requires multiset(RegionsOf(d, frame, f1)) == multiset(RegionsOf(d, frame, f2))
    requires k < |RegionsOf(d, frame, f1)|
    requires forall j :: 0 <= j < |RegionsOf(d, frame, f1)| && j != k ==>
      RegionsOf(d, frame, f1)[j].area < RegionsOf(d, frame, f1)[k].area
    ensures FindCentroid(d, Some(frame), timestamp, f1) == FindCentroid(d, Some(frame), timestamp, f2)
  {
    var cs1, cs2 := RegionsOf(d, frame, f1), RegionsOf(d, frame, f2);
    UniqueLargestIgnoresOrder(cs1, cs2, ContourArea, k);
    LargestIndexUnique(cs1, ContourArea, k);
  }

  /**
   * If every region's m00 equals its non-negative area (as for polygon
   * moments of a contour), a centroid is present exactly when some region
   * is found and the reported area is positive.
   */
  lemma CentroidIffPositiveArea(d: Detector, frame: Frame, timestamp: real,
                                findContours: Frame -> seq<Contour>)
    requires forall c :: c in RegionsOf(d, frame, findContours) ==> c.m00 == c.area && c.area >= 0.0
    ensures var r := FindCentroid(d, Some(frame), timestamp, findContours).value;
      r.centroid.Some? <==> r.area > 0.0
  {
  }

  // ---------------------------------------------------------------------
  // Annotation: what the diagnostic view draws on a colour copy of the frame.

  datatype PixelPos = PixelPos(x: int, y: int)

  datatype Bgr = Bgr(b: nat, g: nat, r: nat)

  /** `cv2.circle(img, center, radius, color, thickness)`; thickness -1 fills it. */
  datatype Circle = Circle(center: PixelPos, radius: nat, color: Bgr, thickness: int)

  /** `cv2.putText(img, text, origin, font, scale, color, thickness)`; font code 0 is FONT_HERSHEY_SIMPLEX. */
  datatype Text = Text(text: string, origin: PixelPos, font: nat, scale: real, color: Bgr, thickness: int)

  /** Either the plain colour copy, or the copy with a marker and its label. */
  datatype DrawPlan = Plain | Marked(marker: Circle, caption: Text)

  const MarkerRadius: nat := 5
  const MarkerColor: Bgr := Bgr(0, 255, 0)
  const FilledThickness: int := -1
  const LabelOffsetX: int := 10
  const FontHersheySimplex: nat := 0
  const LabelScale: real := 0.5
  const LabelThickness: int := 1

  /** The f-string `f"({x}, {y})"` of the marker position. */
  function LabelText(p: PixelPos): (s: string)
    ensures |s| >= 6 && s[0] == '(' && s[|s| - 1] == ')'
  {
    "(" + FormatInt(p.x) + ", " + FormatInt(p.y) + ")"
  }

  /** The first position of `c` in `s`. */
  function IndexOf(s: string, c: char): (r: Option<nat>)
    ensures r.Some? ==> r.value < |s| && s[r.value] == c && forall i :: 0 <= i < r.value ==> s[i] != c
    ensures r.None? ==> forall i :: 0 <= i < |s| ==> s[i] != c
  {
    if s == [] then None
    else if s[0] == c then Some(0)
    else match IndexOf(s[1..], c)
      case None => None
      case Some(i) => Some(i + 1)
  }

  /** Reads a label of the form "(x, y)" back into a position. */
  function ParseLabel(s: string): Option<PixelPos> {
    if |s| < 2 || s[0] != '(' || s[|s| - 1] != ')' then None
    else
      var inner := s[1..|s| - 1];
      match IndexOf(inner, ',')
      case None => None
      case Some(k) =>
        if k + 1 >= |inner| || inner[k + 1] != ' ' then None
        else
          match (ParseInt(inner[..k]), ParseInt(inner[k + 2..]))
          case (Some(x), Some(y)) => Some(PixelPos(x, y))
          case _ => None
  }

  /** The label shows exactly the marker's position: reading it back gives that position. */
  lemma ParseLabelText(p: PixelPos)
    ensures ParseLabel(LabelText(p)) == Some(p)
  {
    var a, b := FormatInt(p.x), FormatInt(p.y);
    var s := LabelText(p);
    var inner := s[1..|s| - 1];
    assert inner == a + ", " + b;
    assert inner[|a|] == ',';
    assert IndexOf(inner, ',') == Some(|a|) by {
      var r := IndexOf(inner, ',');
      assert forall i :: 0 <= i < |a| ==> inner[i] == a[i];
    }
    assert inner[..|a|] == a;
    assert inner[|a| + 2..] == b;
    ParseFormatInt(p.x);
    ParseFormatInt(p.y);
  }

  /** A label accepted by ParseLabel is "(" + a + ", " + b + ")" with a and b the coordinates' texts. */
  lemma ParseLabelParts(s: string, p: PixelPos) returns (a: string, b: string)
    requires ParseLabel(s) == Some(p)
    ensures s == "(" + a + ", " + b + ")"
    ensures ParseInt(a) == Some(p.x) && ParseInt(b) == Some(p.y)
  {
    var inner := s[1..|s| - 1];
    var k := IndexOf(inner, ',').value;
    a, b := inner[..k], inner[k + 2..];
    assert inner == a + ", " + b by {
      assert inner == inner[..k] + inner[k..k + 2] + inner[k + 2..];
    }
    assert s == [s[0]] + inner + [s[|s| - 1]];
  }

  /** Only the label of a position reads back as that position. */
  lemma ParseLabelOnlyText(s: string, p: PixelPos)
    requires ParseLabel(s) == Some(p)
    ensures s == LabelText(p)
  {
    var a, b := ParseLabelParts(s, p);
    FormatParseInt(a, p.x);
    FormatParseInt(b, p.y);
  }

  /** The drawing plan `get_annotated_frame` carries out; None when there is no frame. */
  function GetAnnotatedFrame(frame: Option<Frame>, result: Option<DotResult>): (plan: Option<DrawPlan>)
    ensures plan.None? <==> frame.None?
    ensures plan.Some? ==> (plan.value.Marked? <==> result.Some? && result.value.centroid.Some?)
    ensures plan.Some? && plan.value.Marked? ==>
      var c := result.value.centroid.value;
      var m, l := plan.value.marker, plan.value.caption;
      && m.center == PixelPos(Trunc(c.x), Trunc(c.y))
      && m.radius == MarkerRadius && m.color == MarkerColor && m.thickness == FilledThickness
      && l.text == LabelText(m.center) && ParseLabel(l.text) == Some(m.center)
      && l.origin == PixelPos(m.center.x + LabelOffsetX, m.center.y)
      && l.font == FontHersheySimplex && l.scale == LabelScale
      && l.color == MarkerColor && l.thickness == LabelThickness
  {
    if frame.None? then None
    else if result.Some? && result.value.centroid.Some? then
      var c := result.value.centroid.value;
      var pos := PixelPos(Trunc(c.x), Trunc(c.y));
      ParseLabelText(pos);
      Some(Marked(Circle(pos, MarkerRadius, MarkerColor, FilledThickness),
                  Text(LabelText(pos), PixelPos(pos.x + LabelOffsetX, pos.y),
                       FontHersheySimplex, LabelScale, MarkerColor, LabelThickness)))
    else Some(Plain)
  }
}
