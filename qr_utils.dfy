/** The placement pipeline of app/qr_utils.py: arbitration between the
    detector and the heuristic with the in-place stamp (`add_qr_to_image`),
    the per-page payload, and the all-or-nothing page loop (`process_pdf`). */
module QrUtils {
  import opened Common
  import opened CandidateSelector
  import opened Compositor
  import opened YoloDetection

  /** The slot the arbiter settles on: the detector's answer when it has one,
      the heuristic's otherwise. */
  function Placement(inference: Option<seq<Detection>>, mask: Mask, w: nat, h: nat): Option<Pos>
    requires IsGrid(mask, w, h)
  {
    match DetectorChoice(inference)
    case Some(p) => Some(p)
    case None => SlotChoice(mask, w, h)
  }

  /** No slot is found exactly when the detector finds none and the page is
      too small for the corner slots. */
  lemma PlacementNoneIff(inference: Option<seq<Detection>>, mask: Mask, w: nat, h: nat)
    requires IsGrid(mask, w, h)
    ensures Placement(inference, mask, w, h).None? <==>
      DetectorChoice(inference).None? && (w < MinSide || h < MinSide)
  {
    SlotChoiceNoneIff(mask, w, h);
  }

  /** Only the detector can propose a slot that leaves the page: every slot
      the heuristic proposes lies on it. */
  lemma OffPageSlotsComeFromDetector(inference: Option<seq<Detection>>, mask: Mask, w: nat, h: nat)
    requires IsGrid(mask, w, h)
    ensures Placement(inference, mask, w, h).Some? && !Fits(Placement(inference, mask, w, h).value, QrSize, w, h) ==>
      DetectorChoice(inference) == Placement(inference, mask, w, h)
  {
    SlotChoiceIsFirstMinimum(mask, w, h);
  }

  /** When every `empty_space` box lies inside the page, as yolov5's box
      scaling clips it, the arbiter only ever settles on a slot that lies on
      the page: a box the detector accepts is at least marker-sized, and the
      heuristic's slots lie on the page anyway. */
  lemma {:induction false} ClippedBoxesGiveOnPageSlots(dets: seq<Detection>, mask: Mask, w: nat, h: nat)
    requires IsGrid(mask, w, h)
    requires forall d :: d in dets && IsEmptySpace(d) ==> 0 <= d.x1 && 0 <= d.y1 && d.x2 <= w && d.y2 <= h
    ensures Placement(Some(dets), mask, w, h).Some? ==> Fits(Placement(Some(dets), mask, w, h).value, QrSize, w, h)
  {
    DetectorChoiceIsLargestEmptySpace(Some(dets));
    SlotChoiceIsFirstMinimum(mask, w, h);
    if DetectorChoice(Some(dets)).Some? {
      var i :| IsFirstLargest(dets, i);
      assert dets[i] in dets;
    }
  }

  /** `add_qr_to_image`: a detector is constructed (which may raise, when
      `constructs` is false), asked for empty space (which may raise), the
      heuristic is asked only when the detector has no answer, and the marker
      is stamped at the result. `image` is the page, `qr` the 150 x 150
      marker raster and `mask` the page's importance mask. */
  method AddQrToImage(image: array2<Byte>, qr: Grid, constructs: bool,
                      inference: Call<Option<seq<Detection>>>, mask: Mask)
    returns (result: Call<bool>, ghost heuristicRan: bool)
    requires IsGrid(qr, QrSize, QrSize) && IsGrid(mask, image.Length1, image.Length0)
    modifies image
    ensures result.Raises? <==> !constructs || inference.Raises?
    ensures heuristicRan <==> constructs && inference.Returns? && DetectorChoice(inference.value).None?
    ensures result == Returns(true) <==>
      constructs && inference.Returns? && Placement(inference.value, mask, image.Length1, image.Length0).Some?
    ensures result == Returns(true) ==>
      var p := Placement(inference.value, mask, image.Length1, image.Length0).value;
      forall r, c :: 0 <= r < image.Length0 && 0 <= c < image.Length1 ==>
        image[r, c] == if InRect(r, c, p.x, p.y, QrSize, QrSize) then qr[r - p.y][c - p.x] else old(image[r, c])
    ensures result != Returns(true) ==> unchanged(image)
  {
    heuristicRan := false;
    if !constructs {
      return Raises, heuristicRan;
    }
    var detector := new YoloDetector();
    if inference.Raises? {
      return Raises, heuristicRan;
    }
    var position := detector.FindEmptySpace(inference.value);
    if position.None? {
      heuristicRan := true;
      position := FindQrPosition(mask, image.Length1, image.Length0);
    }
    if position.None? {
      return Returns(false), heuristicRan;
    }
    var x, y := position.value.x, position.value.y;
    StampMarker(image, qr, x, y);
    result := Returns(true);
  }

  // ---------------------------------------------------------------------
  // Per-page payload

  /** The text appended to the template on each page. */
  const PageLabel: string := "\nСтраница: "
  const OfLabel: string := " из "

  function Digit(d: nat): char
    requires d < 10
  {
    (48 + d) as char
  }

  /** Python's decimal rendering of a natural number, without leading zeros. */
  function Decimal(n: nat): string
  {
    if n < 10 then [Digit(n)] else Decimal(n / 10) + [Digit(n % 10)]
  }

  /** Payload of page i of n. */
  function PagePayload(template: string, i: nat, n: nat): string
  {
    template + PageLabel + Decimal(i) + OfLabel + Decimal(n)
  }

  /** Decimal renderings are never empty and consist of digits. */
  lemma {:induction false} DecimalIsDigits(n: nat)
    ensures |Decimal(n)| >= 1
    ensures forall k :: 0 <= k < |Decimal(n)| ==> '0' <= Decimal(n)[k] <= '9'
  {
    if n >= 10 {
      DecimalIsDigits(n / 10);
    }
  }

  /** Different numbers render differently. */
  lemma {:induction false} DecimalInjective(a: nat, b: nat)
    requires Decimal(a) == Decimal(b)
    ensures a == b
  {
    DecimalIsDigits(a / 10);
    DecimalIsDigits(b / 10);
    if a >= 10 && b >= 10 {
      var da, db := Decimal(a), Decimal(b);
      assert da[..|da| - 1] == Decimal(a / 10);
      assert db[..|db| - 1] == Decimal(b / 10);
      DecimalInjective(a / 10, b / 10);
      assert Digit(a % 10) == da[|da| - 1] == db[|db| - 1] == Digit(b % 10);
    }
  }

  /** Two pages of one document never carry the same payload. */
  lemma PagePayloadsDiffer(template: string, i: nat, j: nat, n: nat)
    requires i != j
    ensures PagePayload(template, i, n) != PagePayload(template, j, n)
  {
    if PagePayload(template, i, n) == PagePayload(template, j, n) {
      var head := template + PageLabel;
      var tail := OfLabel + Decimal(n);
      var pi, pj := PagePayload(template, i, n), PagePayload(template, j, n);
      assert pi == head + Decimal(i) + tail;
      assert pj == head + Decimal(j) + tail;
      assert pi[|head|..|pi| - |tail|] == Decimal(i);
      assert pj[|head|..|pj| - |tail|] == Decimal(j);
      DecimalInjective(i, j);
    }
  }

  // ---------------------------------------------------------------------
  // Multi-page documents

  type Raster = Grid

  /** Files in the temporary directory of one document. */
  datatype TempFile = TempPage(page: nat) | ProcessedPage(page: nat)

  /** How one page went wrong. */
  datatype PageFault = ConvertRaised | ConvertEmpty | StampRaised | StampFailed

  /** Page i of n converts to a raster and the stamp succeeds on it with that
      page's payload. `rasterize(i)` is the outcome of converting page i
      alone; `stamp(r, payload)` the outcome of `add_qr_to_image`, holding
      the stamped raster when it returned True. */
  predicate PageOk(rasterize: nat -> Call<Option<Raster>>, stamp: (Raster, string) -> Call<Option<Raster>>,
                   template: string, n: nat, i: nat)
  {
    rasterize(i).Returns? && rasterize(i).value.Some? &&
    var s := stamp(rasterize(i).value.value, PagePayload(template, i, n));
    s.Returns? && s.value.Some?
  }

  function StampedPage(rasterize: nat -> Call<Option<Raster>>, stamp: (Raster, string) -> Call<Option<Raster>>,
                       template: string, n: nat, i: nat): Raster
    requires PageOk(rasterize, stamp, template, n, i)
  {
    stamp(rasterize(i).value.value, PagePayload(template, i, n)).value.value
  }

  function Fault(rasterize: nat -> Call<Option<Raster>>, stamp: (Raster, string) -> Call<Option<Raster>>,
                 template: string, n: nat, i: nat): PageFault
    requires !PageOk(rasterize, stamp, template, n, i)
  {
    if rasterize(i).Raises? then ConvertRaised
    else if rasterize(i).value.None? then ConvertEmpty
    else if stamp(rasterize(i).value.value, PagePayload(template, i, n)).Raises? then StampRaised
    else StampFailed
  }

  /** The first failing page among s..n, or n + 1 when all of them succeed. */
  function FirstBad(rasterize: nat -> Call<Option<Raster>>, stamp: (Raster, string) -> Call<Option<Raster>>,
                    template: string, n: nat, s: nat): (m: nat)
    ensures m <= n + 1 && (s <= n + 1 ==> s <= m)
    ensures forall k :: s <= k < m ==> PageOk(rasterize, stamp, template, n, k)
    ensures m <= n ==> !PageOk(rasterize, stamp, template, n, m)
    decreases n + 1 - s
  {
    if s > n then n + 1
    else if !PageOk(rasterize, stamp, template, n, s) then s
    else FirstBad(rasterize, stamp, template, n, s + 1)
  }

  /** FirstBad picks the least failing page: every page from s up to it
      succeeds, and it fails unless it is n + 1. */
  lemma {:induction false} FirstBadIsLeast(rasterize: nat -> Call<Option<Raster>>, stamp: (Raster, string) -> Call<Option<Raster>>,
                                           template: string, n: nat, s: nat, m: nat)
    requires s <= m <= n + 1
    requires forall k :: s <= k < m ==> PageOk(rasterize, stamp, template, n, k)
    requires m <= n ==> !PageOk(rasterize, stamp, template, n, m)
    ensures FirstBad(rasterize, stamp, template, n, s) == m
    decreases m - s
  {
    if s < m {
      FirstBadIsLeast(rasterize, stamp, template, n, s + 1, m);
    }
  }

  /** Pages a, a + 1, ..., b - 1. */
  function Pages(a: nat, b: nat): (r: seq<nat>)
    ensures |r| == if a <= b then b - a else 0
    ensures forall k :: 0 <= k < |r| ==> r[k] == a + k
    decreases b - a
  {
    if a >= b then [] else [a] + Pages(a + 1, b)
  }

  function ProcessedPages(a: nat, b: nat): set<TempFile>
  {
    set k | a <= k < b :: ProcessedPage(k)
  }

  /** `process_pdf` of app/qr_utils.py. `pageCount` is what reading the page
      count yields, `rasterize`/`stamp` the per-page outcomes as above, and
      `saveOk` whether writing the reassembled document succeeds. The method
      returns the verdict and the written document; ghost `visited` lists the
      pages whose conversion was requested, in order, and ghost `leftover`
      the temporary directory left behind (None when it is gone). */
  method ProcessPdf(pageCount: Call<nat>, rasterize: nat -> Call<Option<Raster>>,
                    stamp: (Raster, string) -> Call<Option<Raster>>, template: string, saveOk: bool)
    returns (ok: bool, output: Option<seq<Raster>>, ghost visited: seq<nat>, ghost leftover: Option<set<TempFile>>)
    ensures pageCount.Raises? ==> !ok && output.None? && visited == [] && leftover.None?
    ensures pageCount.Returns? ==>
      var n := pageCount.value;
      var m := FirstBad(rasterize, stamp, template, n, 1);
      && (ok <==> n >= 1 && m == n + 1 && saveOk)
      && (ok ==> output.Some? && |output.value| == n &&
                 forall k :: 0 <= k < n ==> output.value[k] == StampedPage(rasterize, stamp, template, n, k + 1))
      && (!ok ==> output.None?)
      && visited == Pages(1, if m <= n then m + 1 else n + 1)
      && (ok ==> leftover.None?)
      && (m <= n && Fault(rasterize, stamp, template, n, m) in {ConvertEmpty, StampFailed} ==> leftover.None?)
      && (m <= n && Fault(rasterize, stamp, template, n, m) == ConvertRaised ==> leftover == Some(ProcessedPages(1, m)))
      && (m <= n && Fault(rasterize, stamp, template, n, m) == StampRaised ==>
            leftover == Some(ProcessedPages(1, m) + {TempPage(m)}))
      && (m == n + 1 && n == 0 ==> leftover == Some({}))
      && (m == n + 1 && n >= 1 && !saveOk ==> leftover == Some(ProcessedPages(1, n + 1)))
  {
    visited := [];
    leftover := None;
    output := None;
    if pageCount.Raises? {
      return false, output, visited, leftover;
    }
    var numPages := pageCount.value;
    var tempImages: seq<Raster> := [];
    ghost var files: set<TempFile> := {};  // mkdtemp
    var i := 1;
    while i <= numPages
      invariant 1 <= i <= numPages + 1
      invariant forall k :: 1 <= k < i ==> PageOk(rasterize, stamp, template, numPages, k)
      invariant |tempImages| == i - 1
      invariant forall k :: 0 <= k < i - 1 ==> tempImages[k] == StampedPage(rasterize, stamp, template, numPages, k + 1)
      invariant files == ProcessedPages(1, i)
      invariant visited == Pages(1, i)
    {
      visited := visited + [i];
      assert visited == Pages(1, i + 1) by {
        assert |visited| == |Pages(1, i + 1)|;
      }
      var images := rasterize(i);
      if images.Raises? {
        FirstBadIsLeast(rasterize, stamp, template, numPages, 1, i);
        return false, output, visited, Some(files);
      }
      if images.value.None? {
        FirstBadIsLeast(rasterize, stamp, template, numPages, 1, i);
        return false, output, visited, None;  // rmtree
      }
      var img := images.value.value;
      files := files + {TempPage(i)};
      var pageQrContent := template + PageLabel + Decimal(i) + OfLabel + Decimal(numPages);
      var stamped := stamp(img, pageQrContent);
      if stamped.Raises? {
        FirstBadIsLeast(rasterize, stamp, template, numPages, 1, i);
        return false, output, visited, Some(files);
      }
      if stamped.value.None? {
        FirstBadIsLeast(rasterize, stamp, template, numPages, 1, i);
        return false, output, visited, None;  // rmtree
      }
      files := files + {ProcessedPage(i)};
      tempImages := tempImages + [stamped.value.value];
      files := files - {TempPage(i)};
      assert files == ProcessedPages(1, i + 1);
      i := i + 1;
    }
    FirstBadIsLeast(rasterize, stamp, template, numPages, 1, numPages + 1);
    if numPages == 0 || !saveOk {
      // images[0] raises IndexError on an empty document; a failed save raises too
      return false, output, visited, Some(files);
    }
    output := Some(tempImages);
    files := {};
    return true, output, visited, None;
  }
}
