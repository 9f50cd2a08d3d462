/** The heuristic slot chooser `find_qr_position`: four fixed corner slots,
    those off the page dropped, the one covering the least importance kept,
    earlier slots winning ties. The float overlap ratio of the source divides
    every window sum by the same positive constant, so comparing the integer
    window sums orders the slots the same way. */
module CandidateSelector {
  import opened Common

  /** Distance of every corner slot from the page edges. */
  const Margin: nat := 50

  /** Smallest page side on which the corner slots fit: a slot plus one margin. */
  const MinSide: nat := QrSize + Margin

  /** Sum of row[c0..c1]. */
  function RowSum(row: seq<nat>, c0: nat, c1: nat): nat
    requires c0 <= c1 <= |row|
    decreases c1 - c0
  {
    if c0 == c1 then 0 else row[c0] + RowSum(row, c0 + 1, c1)
  }

  /** Sum of the mask over rows [r0, r1) and columns [c0, c1). */
  function RectSum(m: Mask, r0: nat, r1: nat, c0: nat, c1: nat): nat
    requires r0 <= r1 <= |m|
    requires c0 <= c1 && forall r :: r0 <= r < r1 ==> c1 <= |m[r]|
    decreases r1 - r0
  {
    if r0 == r1 then 0 else RowSum(m[r0], c0, c1) + RectSum(m, r0 + 1, r1, c0, c1)
  }

  /** The importance under the marker-sized window at p. */
  function WindowSum(m: Mask, w: nat, h: nat, p: Pos): nat
    requires IsGrid(m, w, h) && Fits(p, QrSize, w, h)
  {
    RectSum(m, p.y, p.y + QrSize, p.x, p.x + QrSize)
  }

  /** The corner slots in enumeration order: top-right, top-left,
      bottom-left, bottom-right. */
  function Candidates(w: int, h: int): seq<Pos>
  {
    [ Pos(w - QrSize - Margin, Margin),
      Pos(Margin, Margin),
      Pos(Margin, h - QrSize - Margin),
      Pos(w - QrSize - Margin, h - QrSize - Margin) ]
  }

  /** Index of the slot kept after the first k candidates were scanned, or
      None when none of them fits: a later slot replaces the kept one only
      when its window sum is strictly smaller. */
  function FirstMinSlot(m: Mask, w: nat, h: nat, k: nat): (r: Option<nat>)
    requires IsGrid(m, w, h) && k <= 4
    ensures r.Some? ==> r.value < k && Fits(Candidates(w, h)[r.value], QrSize, w, h)
  {
    if k == 0 then None
    else
      var prev := FirstMinSlot(m, w, h, k - 1);
      var c := Candidates(w, h)[k - 1];
      if !Fits(c, QrSize, w, h) then prev
      else if prev.None? || WindowSum(m, w, h, c) < WindowSum(m, w, h, Candidates(w, h)[prev.value]) then Some(k - 1)
      else prev
  }

  /** The slot `find_qr_position` returns for a page of this mask. */
  function SlotChoice(m: Mask, w: nat, h: nat): Option<Pos>
    requires IsGrid(m, w, h)
  {
    match FirstMinSlot(m, w, h, 4)
    case None => None
    case Some(i) => Some(Candidates(w, h)[i])
  }

  /** The loop of `find_qr_position`: skips the slots that leave the page and
      keeps the first one with the strictly smallest window sum. */
  method FindQrPosition(mask: Mask, width: nat, height: nat) returns (best: Option<Pos>)
    requires IsGrid(mask, width, height)
    ensures best == SlotChoice(mask, width, height)
    ensures best.None? <==> width < MinSide || height < MinSide
  {
    var positions := Candidates(width, height);
    best := None;
    var minOverlap: Option<nat> := None;  // None stands for +infinity
    ghost var kept: Option<nat> := None;
    var i := 0;
    while i < |positions|
      invariant 0 <= i <= |positions| == 4
      invariant kept == FirstMinSlot(mask, width, height, i)
      invariant best == if kept.None? then None else Some(positions[kept.value])
      invariant minOverlap.Some? <==> kept.Some?
      invariant kept.Some? ==> minOverlap.value == WindowSum(mask, width, height, positions[kept.value])
    {
      var p := positions[i];
      if p.x < 0 || p.y < 0 || p.x + QrSize > width || p.y + QrSize > height {
        i := i + 1;
        continue;
      }
      var overlap := RectSum(mask, p.y, p.y + QrSize, p.x, p.x + QrSize);
      if minOverlap.None? || overlap < minOverlap.value {
        minOverlap := Some(overlap);
        best := Some(p);
        kept := Some(i);
      }
      i := i + 1;
    }
    SlotChoiceNoneIff(mask, width, height);
  }

  /** Either every corner slot lies on the page or none does. */
  lemma SlotsFitIff(w: nat, h: nat, j: nat)
    requires j < 4
    ensures Fits(Candidates(w, h)[j], QrSize, w, h) <==> w >= MinSide && h >= MinSide
  {
  }

  /** After k candidates the kept slot fits, is no worse than any fitting
      candidate and strictly better than every fitting earlier one; nothing is
      kept exactly when no candidate fits. */
  lemma {:induction false} FirstMinSlotIsFirstMinimum(m: Mask, w: nat, h: nat, k: nat)
    requires IsGrid(m, w, h) && k <= 4
    ensures FirstMinSlot(m, w, h, k).None? <==> forall j :: 0 <= j < k ==> !Fits(Candidates(w, h)[j], QrSize, w, h)
    ensures FirstMinSlot(m, w, h, k).Some? ==>
      var i := FirstMinSlot(m, w, h, k).value;
      forall j :: 0 <= j < k && Fits(Candidates(w, h)[j], QrSize, w, h) ==>
        WindowSum(m, w, h, Candidates(w, h)[i]) <= WindowSum(m, w, h, Candidates(w, h)[j]) &&
        (j < i ==> WindowSum(m, w, h, Candidates(w, h)[i]) < WindowSum(m, w, h, Candidates(w, h)[j]))
  {
    if k > 0 {
      FirstMinSlotIsFirstMinimum(m, w, h, k - 1);
    }
  }

  /** The heuristic finds no slot exactly when the page is narrower or lower
      than a slot plus one margin (200 pixels). */
  lemma SlotChoiceNoneIff(m: Mask, w: nat, h: nat)
    requires IsGrid(m, w, h)
    ensures SlotChoice(m, w, h).None? <==> w < MinSide || h < MinSide
  {
    FirstMinSlotIsFirstMinimum(m, w, h, 4);
    SlotsFitIff(w, h, 0);
  }

  /** A slot the heuristic returns is one of the corner slots, lies on the
      page, covers no more importance than any other corner slot and strictly
      less than every slot enumerated before it. */
  lemma SlotChoiceIsFirstMinimum(m: Mask, w: nat, h: nat)
    requires IsGrid(m, w, h)
    ensures SlotChoice(m, w, h).Some? ==>
      exists i :: 0 <= i < 4 && SlotChoice(m, w, h).value == Candidates(w, h)[i] &&
        Fits(Candidates(w, h)[i], QrSize, w, h) &&
        forall j :: 0 <= j < 4 ==>
          Fits(Candidates(w, h)[j], QrSize, w, h) &&
          WindowSum(m, w, h, Candidates(w, h)[i]) <= WindowSum(m, w, h, Candidates(w, h)[j]) &&
          (j < i ==> WindowSum(m, w, h, Candidates(w, h)[i]) < WindowSum(m, w, h, Candidates(w, h)[j]))
  {
    FirstMinSlotIsFirstMinimum(m, w, h, 4);
    if SlotChoice(m, w, h).Some? {
      var i := FirstMinSlot(m, w, h, 4).value;
      forall j | 0 <= j < 4 ensures Fits(Candidates(w, h)[j], QrSize, w, h) {
        SlotsFitIff(w, h, i);
        SlotsFitIff(w, h, j);
      }
    }
  }

  /** The mask is zero on rows [r0, r1) and columns [c0, c1). */
  predicate ZeroOn(m: Mask, r0: nat, r1: nat, c0: nat, c1: nat)
  {
    forall r, c :: r0 <= r < r1 && r < |m| && c0 <= c < c1 && c < |m[r]| ==> m[r][c] == 0
  }

  lemma {:induction false} RowSumZero(row: seq<nat>, c0: nat, c1: nat)
    requires c0 <= c1 <= |row|
    requires forall c :: c0 <= c < c1 ==> row[c] == 0
    ensures RowSum(row, c0, c1) == 0
    decreases c1 - c0
  {
    if c0 < c1 {
      RowSumZero(row, c0 + 1, c1);
    }
  }

  /** A rectangle of zeros sums to zero. */
  lemma {:induction false} RectSumZero(m: Mask, r0: nat, r1: nat, c0: nat, c1: nat)
    requires r0 <= r1 <= |m|
    requires c0 <= c1 && forall r :: r0 <= r < r1 ==> c1 <= |m[r]|
    requires ZeroOn(m, r0, r1, c0, c1)
    ensures RectSum(m, r0, r1, c0, c1) == 0
    decreases r1 - r0
  {
    if r0 < r1 {
      RowSumZero(m[r0], c0, c1);
      RectSumZero(m, r0 + 1, r1, c0, c1);
    }
  }

  /** A blank 1000 x 800 page gets the top-right slot (800, 50). */
  lemma BlankPagePicksTopRight(m: Mask)
    requires IsGrid(m, 1000, 800)
    requires forall r, c :: 0 <= r < 800 && 0 <= c < 1000 ==> m[r][c] == 0
    ensures SlotChoice(m, 1000, 800) == Some(Pos(800, 50))
  {
    var cs := Candidates(1000, 800);
    forall j | 0 <= j < 4 ensures WindowSum(m, 1000, 800, cs[j]) == 0 {
      RectSumZero(m, cs[j].y, cs[j].y + QrSize, cs[j].x, cs[j].x + QrSize);
    }
    assert FirstMinSlot(m, 1000, 800, 1) == Some(0);
    assert FirstMinSlot(m, 1000, 800, 2) == Some(0);
    assert FirstMinSlot(m, 1000, 800, 3) == Some(0);
    assert FirstMinSlot(m, 1000, 800, 4) == Some(0);
  }

  /** A 1000 x 800 page whose only content lies in its top-right 250 x 200
      block, under the top-right slot, gets the top-left slot (50, 50). */
  lemma TopRightContentPicksTopLeft(m: Mask)
    requires IsGrid(m, 1000, 800)
    requires forall r, c :: 0 <= r < 800 && 0 <= c < 1000 && !(r < 200 && c >= 750) ==> m[r][c] == 0
    requires WindowSum(m, 1000, 800, Pos(800, 50)) > 0
    ensures SlotChoice(m, 1000, 800) == Some(Pos(50, 50))
  {
    var cs := Candidates(1000, 800);
    forall j | 1 <= j < 4 ensures WindowSum(m, 1000, 800, cs[j]) == 0 {
      RectSumZero(m, cs[j].y, cs[j].y + QrSize, cs[j].x, cs[j].x + QrSize);
    }
    FirstMinSlotIsFirstMinimum(m, 1000, 800, 4);
    SlotsFitIff(1000, 800, 1);
    var i := FirstMinSlot(m, 1000, 800, 4).value;
    // slot 1 sums to zero and slot 0 does not, so the first minimum is slot 1
    assert i != 0;
    assert i == 1;
  }
}
