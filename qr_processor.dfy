/** The `QrProcessor` class of app/qr_processor.py: a lazily constructed,
    cached detector; `add_qr_to_image` with its own bounds check and with
    every exception turned into False; and `process_pdf` inside a temporary
    directory that is removed on every exit. The heuristic and the paste are
    the same code as in app/qr_utils.py and reuse those members. */
module QrProcessing {
  import opened Common
  import opened CandidateSelector
  import opened Compositor
  import opened YoloDetection
  import opened QrUtils

  /** A stamp that cannot raise, seen as one that may. */
  function Lift(stamp: (Raster, string) -> Option<Raster>): (Raster, string) -> Call<Option<Raster>>
  {
    (r, payload) => Returns(stamp(r, payload))
  }

  /** Both files of pages a..b-1: the converted page and its stamped copy. */
  function KeptFiles(a: nat, b: nat): set<TempFile>
  {
    (set k | a <= k < b :: TempPage(k)) + ProcessedPages(a, b)
  }

  class QrProcessor {
    var detector: YoloDetector?
    var loaded: bool

    /** A detector is held exactly once it has been constructed. */
    ghost predicate Valid()
      reads this
    {
      loaded <==> detector != null
    }

    constructor ()
      ensures Valid() && detector == null && !loaded
    {
      detector := null;
      loaded := false;
    }

    /** `get_detector`: constructs the detector on the first call that needs
        it (`constructs` tells whether that construction succeeds) and hands
        out the cached instance afterwards. A failed construction leaves the
        cache empty and re-raises, so the next call tries again. */
    method GetDetector(constructs: bool) returns (result: Call<YoloDetector>)
      requires Valid()
      modifies this
      ensures Valid()
      ensures old(loaded) ==> result.Returns? && result.value == old(detector) && detector == old(detector) && loaded
      ensures !old(loaded) && constructs ==>
        result.Returns? && fresh(result.value) && detector == result.value && loaded
      ensures !old(loaded) && !constructs ==> result.Raises? && detector == old(detector) && !loaded
    {
      if !loaded {
        if !constructs {
          return Raises;
        }
        detector := new YoloDetector();
        loaded := true;
      }
      return Returns(detector);
    }

    /** `add_qr_to_image`: the detector comes from the cache; a failure to
        construct it or an exception from the detector yields False without
        trying the heuristic; the heuristic runs only when the detector has no
        answer; a slot that leaves the page is refused; otherwise the marker
        is stamped in place. */
    method AddQrToImage(image: array2<Byte>, qr: Grid, constructs: bool,
                        inference: Call<Option<seq<Detection>>>, mask: Mask)
      returns (ok: bool, ghost heuristicRan: bool)
      requires Valid()
      requires IsGrid(qr, QrSize, QrSize) && IsGrid(mask, image.Length1, image.Length0)
      modifies this, image
      ensures Valid()
      ensures loaded == (old(loaded) || constructs)
      ensures old(loaded) ==> detector == old(detector)
      ensures heuristicRan <==>
        loaded && inference.Returns? && DetectorChoice(inference.value).None?
      ensures ok <==>
        loaded && inference.Returns? &&
        var p := Placement(inference.value, mask, image.Length1, image.Length0);
        p.Some? && Fits(p.value, QrSize, image.Length1, image.Length0)
      ensures ok ==>
        var p := Placement(inference.value, mask, image.Length1, image.Length0).value;
        forall r, c :: 0 <= r < image.Length0 && 0 <= c < image.Length1 ==>
          image[r, c] == if InRect(r, c, p.x, p.y, QrSize, QrSize) then qr[r - p.y][c - p.x] else old(image[r, c])
      ensures !ok ==> unchanged(image)
    {
      heuristicRan := false;
      var width, height := image.Length1, image.Length0;
      var d := GetDetector(constructs);
      if d.Raises? {
        return false, heuristicRan;
      }
      if inference.Raises? {
        return false, heuristicRan;
      }
      var position := d.value.FindEmptySpace(inference.value);
      if position.None? {
        heuristicRan := true;
        position := FindQrPosition(mask, width, height);
      }
      if position.None? {
        return false, heuristicRan;
      }
      var x, y := position.value.x, position.value.y;
      if x < 0 || y < 0 || x + QrSize > width || y + QrSize > height {
        return false, heuristicRan;
      }
      StampMarker(image, qr, x, y);
      ok := true;
    }

    /** `process_pdf`: as in app/qr_utils.py, pages 1..n are converted and
        stamped in order with their own payloads, the first failing page
        ends the run with False, and on success the stamped pages are
        written in page order. The stamp here never raises. Unlike
        app/qr_utils.py the loop keeps every page's files in the temporary
        directory; leaving the `with` block on any exit removes the
        directory, and ghost `removed` is what it held at that moment. */
    method ProcessPdf(pageCount: Call<nat>, rasterize: nat -> Call<Option<Raster>>,
                      stamp: (Raster, string) -> Option<Raster>, template: string, saveOk: bool)
      returns (ok: bool, output: Option<seq<Raster>>, ghost visited: seq<nat>, ghost removed: set<TempFile>)
      ensures pageCount.Raises? ==> !ok && output.None? && visited == [] && removed == {}
      ensures pageCount.Returns? ==>
        var n := pageCount.value;
        var m := FirstBad(rasterize, Lift(stamp), template, n, 1);
        && (ok <==> n >= 1 && m == n + 1 && saveOk)
        && (ok ==> output.Some? && |output.value| == n &&
                   forall k :: 0 <= k < n ==> output.value[k] == StampedPage(rasterize, Lift(stamp), template, n, k + 1))
        && (!ok ==> output.None?)
        && visited == Pages(1, if m <= n then m + 1 else n + 1)
        && (m <= n && Fault(rasterize, Lift(stamp), template, n, m) in {ConvertRaised, ConvertEmpty} ==>
              removed == KeptFiles(1, m))
        && (m <= n && Fault(rasterize, Lift(stamp), template, n, m) == StampFailed ==>
              removed == KeptFiles(1, m) + {TempPage(m)})
        && (m == n + 1 ==> removed == KeptFiles(1, n + 1))
    {
      visited := [];
      removed := {};
      output := None;
      if pageCount.Raises? {
        return false, output, visited, removed;
      }
      var numPages := pageCount.value;
      ghost var files: set<TempFile> := {};  // TemporaryDirectory
      var processedImages: seq<Raster> := [];
      var i := 1;
      while i <= numPages
        invariant 1 <= i <= numPages + 1
        invariant forall k :: 1 <= k < i ==> PageOk(rasterize, Lift(stamp), template, numPages, k)
        invariant |processedImages| == i - 1
        invariant forall k :: 0 <= k < i - 1 ==>
          processedImages[k] == StampedPage(rasterize, Lift(stamp), template, numPages, k + 1)
        invariant visited == Pages(1, i)
        invariant files == KeptFiles(1, i)
      {
        visited := visited + [i];
        assert visited == Pages(1, i + 1) by {
          assert |visited| == |Pages(1, i + 1)|;
        }
        var images := rasterize(i);
        if images.Raises? || images.value.None? {
          FirstBadIsLeast(rasterize, Lift(stamp), template, numPages, 1, i);
          return false, output, visited, files;  // leaving the block removes the directory
        }
        var img := images.value.value;
        files := files + {TempPage(i)};
        var pageQrContent := template + PageLabel + Decimal(i) + OfLabel + Decimal(numPages);
        var stamped := stamp(img, pageQrContent);
        if stamped.None? {
          FirstBadIsLeast(rasterize, Lift(stamp), template, numPages, 1, i);
          return false, output, visited, files;
        }
        files := files + {ProcessedPage(i)};
        assert files == KeptFiles(1, i + 1);
        processedImages := processedImages + [stamped.value];
        i := i + 1;
      }
      FirstBadIsLeast(rasterize, Lift(stamp), template, numPages, 1, numPages + 1);
      if numPages == 0 || !saveOk {
        // images[0] raises IndexError on an empty document; a failed save raises too
        return false, output, visited, files;
      }
      output := Some(processedImages);
      return true, output, visited, files;
    }
  }
}
