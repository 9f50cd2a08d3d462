/** What `YOLODetector.find_empty_space` does with the detector's output:
    keep the boxes labelled `empty_space`, take the first one of largest area,
    and accept its top-left corner when the box is at least marker-sized.
    Model loading, inference, box scaling and drawing are not modelled: the
    detections of one page are an input. */
module YoloDetection {
  import opened Common

  /** The class name that marks usable empty space. */
  const EmptySpaceLabel: string := "empty_space"

  /** One detected box, in page pixels: label and corners (x1, y1), (x2, y2). */
  datatype Detection = Detection(className: string, x1: int, y1: int, x2: int, y2: int)

  /** The record kept for an empty-space box. */
  datatype EmptySpace = EmptySpace(coords: Pos, area: int, width: int, height: int)

  predicate IsEmptySpace(d: Detection) { d.className == EmptySpaceLabel }

  function Width(d: Detection): int { d.x2 - d.x1 }
  function Height(d: Detection): int { d.y2 - d.y1 }
  function Area(d: Detection): int { Width(d) * Height(d) }

  function SpaceOf(d: Detection): EmptySpace
  {
    EmptySpace(Pos(d.x1, d.y1), Area(d), Width(d), Height(d))
  }

  /** The records kept for the boxes of dets, in detection order. */
  function EmptySpaces(dets: seq<Detection>): seq<EmptySpace>
  {
    if dets == [] then []
    else
      var last := dets[|dets| - 1];
      EmptySpaces(dets[..|dets| - 1]) + if IsEmptySpace(last) then [SpaceOf(last)] else []
  }

  /** Python's `max(spaces, key=area)`: a later record replaces the current
      maximum only when its area is strictly larger. */
  function MaxAreaIndex(spaces: seq<EmptySpace>): (k: nat)
    requires spaces != []
    ensures k < |spaces|
  {
    if |spaces| == 1 then 0
    else
      var k := MaxAreaIndex(spaces[..|spaces| - 1]);
      if spaces[|spaces| - 1].area > spaces[k].area then |spaces| - 1 else k
  }

  function ChooseRegion(spaces: seq<EmptySpace>, qrSize: int): Option<Pos>
  {
    if spaces == [] then None
    else
      var best := spaces[MaxAreaIndex(spaces)];
      if best.width >= qrSize && best.height >= qrSize then Some(best.coords) else None
  }

  /** What `find_empty_space` returns: `inference` is None when `cv2.imread`
      cannot read the image, otherwise the page's detections. The detector
      re-roots a relative path at its own directory, so it can fail to read
      a page that the caller then reads and stamps; the model's callers
      always hold a readable page. */
  function DetectorChoice(inference: Option<seq<Detection>>): Option<Pos>
  {
    if inference.None? then None else ChooseRegion(EmptySpaces(inference.value), QrSize)
  }

  class YoloDetector {
    /** Side of the marker, in pixels. */
    const qrSize: nat := QrSize

    constructor ()
    {
    }

    method FindEmptySpace(inference: Option<seq<Detection>>) returns (pos: Option<Pos>)
      ensures pos == DetectorChoice(inference)
    {
      if inference.None? {
        return None;
      }
      var dets := inference.value;
      var spaces: seq<EmptySpace> := [];
      var i := 0;
      while i < |dets|
        invariant 0 <= i <= |dets|
        invariant spaces == EmptySpaces(dets[..i])
      {
        var d := dets[i];
        assert dets[..i + 1][..i] == dets[..i];
        if d.className == EmptySpaceLabel {
          var width := d.x2 - d.x1;
          var height := d.y2 - d.y1;
          spaces := spaces + [EmptySpace(Pos(d.x1, d.y1), width * height, width, height)];
        }
        i := i + 1;
      }
      assert dets[..|dets|] == dets;
      if spaces == [] {
        return None;
      }
      var best := spaces[MaxAreaIndex(spaces)];
      if best.width >= qrSize && best.height >= qrSize {
        pos := Some(best.coords);
      } else {
        pos := None;
      }
    }
  }

  /** A record is kept exactly for each box labelled `empty_space`, holding
      that box's top-left corner, width x2 - x1, height y2 - y1 and their
      product as area. */
  lemma {:induction false} EmptySpacesAreTheLabelledBoxes(dets: seq<Detection>, s: EmptySpace)
    ensures s in EmptySpaces(dets) <==>
      exists d :: d in dets && d.className == EmptySpaceLabel &&
        s.coords == Pos(d.x1, d.y1) && s.width == d.x2 - d.x1 && s.height == d.y2 - d.y1 &&
        s.area == s.width * s.height
  {
    if dets != [] {
      var init := dets[..|dets| - 1];
      EmptySpacesAreTheLabelledBoxes(init, s);
      assert dets == init + [dets[|dets| - 1]];
      forall d | d in dets ensures d in init || d == dets[|dets| - 1] {
      }
    }
  }

  /** Python's `max` keeps the first record of largest area. */
  lemma {:induction false} MaxAreaIndexIsFirstMaximum(spaces: seq<EmptySpace>)
    requires spaces != []
    ensures forall j :: 0 <= j < |spaces| ==> spaces[j].area <= spaces[MaxAreaIndex(spaces)].area
    ensures forall j :: 0 <= j < MaxAreaIndex(spaces) ==> spaces[j].area < spaces[MaxAreaIndex(spaces)].area
  {
    if |spaces| > 1 {
      MaxAreaIndexIsFirstMaximum(spaces[..|spaces| - 1]);
    }
  }

  /** Index, among dets[..n], of the first `empty_space` box of largest area. */
  function LargestEmptySpace(dets: seq<Detection>, n: nat): (r: Option<nat>)
    requires n <= |dets|
    ensures r.Some? ==> r.value < n && IsEmptySpace(dets[r.value])
  {
    if n == 0 then None
    else
      var prev := LargestEmptySpace(dets, n - 1);
      if !IsEmptySpace(dets[n - 1]) then prev
      else if prev.None? || Area(dets[n - 1]) > Area(dets[prev.value]) then Some(n - 1)
      else prev
  }

  /** LargestEmptySpace names the first `empty_space` box of largest area,
      and None only when there is no such box. */
  lemma {:induction false} LargestEmptySpaceIsFirstMaximum(dets: seq<Detection>, n: nat)
    requires n <= |dets|
    ensures LargestEmptySpace(dets, n).None? <==> forall j :: 0 <= j < n ==> !IsEmptySpace(dets[j])
    ensures LargestEmptySpace(dets, n).Some? ==>
      var i := LargestEmptySpace(dets, n).value;
      forall j :: 0 <= j < n && IsEmptySpace(dets[j]) ==>
        Area(dets[j]) <= Area(dets[i]) && (j < i ==> Area(dets[j]) < Area(dets[i]))
  {
    if n > 0 {
      LargestEmptySpaceIsFirstMaximum(dets, n - 1);
    }
  }

  /** Filtering and then taking `max` picks the record of the box that
      LargestEmptySpace names. */
  lemma {:induction false} MaxOfEmptySpaces(dets: seq<Detection>, n: nat)
    requires n <= |dets|
    ensures EmptySpaces(dets[..n]) == [] <==> LargestEmptySpace(dets, n).None?
    ensures EmptySpaces(dets[..n]) != [] ==>
      EmptySpaces(dets[..n])[MaxAreaIndex(EmptySpaces(dets[..n]))] == SpaceOf(dets[LargestEmptySpace(dets, n).value])
  {
    if n > 0 {
      MaxOfEmptySpaces(dets, n - 1);
      var init := dets[..n][..n - 1];
      assert init == dets[..n - 1];
      var spaces := EmptySpaces(dets[..n]);
      var prev := EmptySpaces(dets[..n - 1]);
      if IsEmptySpace(dets[n - 1]) {
        assert spaces == prev + [SpaceOf(dets[n - 1])];
        assert spaces[..|spaces| - 1] == prev;
        if prev != [] {
          var k := MaxAreaIndex(prev);
          assert spaces[k] == prev[k];
          assert spaces[|spaces| - 1] == SpaceOf(dets[n - 1]);
        }
      } else {
        assert spaces == prev;
      }
    }
  }

  /** dets[i] is the first `empty_space` box of largest area. */
  predicate IsFirstLargest(dets: seq<Detection>, i: int)
  {
    0 <= i < |dets| && IsEmptySpace(dets[i]) &&
    forall j :: 0 <= j < |dets| && IsEmptySpace(dets[j]) ==>
      Area(dets[j]) <= Area(dets[i]) && (j < i ==> Area(dets[j]) < Area(dets[i]))
  }

  /** The detector's answer in terms of the detections: None when the image
      cannot be read or there is no `empty_space` box; otherwise, for the
      first `empty_space` box of largest area, its own top-left corner,
      unclamped, when the box is at least marker-sized on both sides, and
      None when it is smaller (even if a smaller box would fit). */
  lemma DetectorChoiceIsLargestEmptySpace(inference: Option<seq<Detection>>)
    ensures inference.None? ==> DetectorChoice(inference).None?
    ensures inference.Some? && (forall i :: !IsFirstLargest(inference.value, i)) ==>
      DetectorChoice(inference).None?
    ensures inference.Some? ==>
      var dets := inference.value;
      forall i :: IsFirstLargest(dets, i) ==>
        DetectorChoice(inference) ==
          if Width(dets[i]) >= QrSize && Height(dets[i]) >= QrSize then Some(Pos(dets[i].x1, dets[i].y1)) else None
  {
    if inference.Some? {
      var dets := inference.value;
      MaxOfEmptySpaces(dets, |dets|);
      LargestEmptySpaceIsFirstMaximum(dets, |dets|);
      assert dets[..|dets|] == dets;
      if LargestEmptySpace(dets, |dets|).Some? {
        var k := LargestEmptySpace(dets, |dets|).value;
        assert IsFirstLargest(dets, k);
        forall i | IsFirstLargest(dets, i) ensures i == k {
          // each of two first maxima would be strictly larger than the other
        }
      }
    }
  }

  /** A wide but shallow box of larger area hides a smaller box that would
      fit: the detector then reports nothing. */
  lemma LargestTooSmallHidesFittingBox()
    ensures DetectorChoice(Some([ Detection(EmptySpaceLabel, 0, 0, 1000, 100),
                                  Detection(EmptySpaceLabel, 0, 200, 200, 400) ])) == None
  {
    var dets := [ Detection(EmptySpaceLabel, 0, 0, 1000, 100), Detection(EmptySpaceLabel, 0, 200, 200, 400) ];
    assert dets[..1][..0] == [];
    assert EmptySpaces(dets[..1]) == [SpaceOf(dets[0])];
    assert EmptySpaces(dets) == [SpaceOf(dets[0]), SpaceOf(dets[1])];
  }
}
