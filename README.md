# QR marker placement engine — a Dafny model

This project models the part of the qr-bot repository that places a QR
marker on a scanned page and stamps it there:

- the corner heuristic `find_qr_position`. It builds four 150 × 150 slots
  50 px in from the edges, drops those that leave the page, and keeps the
  one covering the least "importance".
- the post-processing of the learned detector, `YOLODetector.find_empty_space`.
  It keeps the `empty_space` boxes, takes the first one of largest area, and
  accepts it when it is at least marker-sized.
- the arbiter and compositor `add_qr_to_image`. The detector goes first, the
  heuristic runs only when the detector has no answer, and then a white
  patch and the marker are pasted in place.
- the page loop `process_pdf`. Pages 1..n are processed in order, each with
  its own payload. The first failing page stops the run. On success the
  processed pages are written in page order.
- the lazy detector cache `QrProcessor.get_detector`.
- the older bottom-right compositor in the top-level `qr_utils.py`.

Images are functions over integer grids. A page being stamped is an
`array2<Byte>` updated in place; a page held by value is a `seq<seq<Byte>>`.
The importance mask is a grid of naturals. Python exceptions are the `Raises`
case of `Common.Call`. Page conversion, marker stamping inside the page loop,
document saving and the detector's raw output are inputs (oracle values or
functions). Temporary files are a ghost set of `TempFile` names.

Modules, one per core source file, plus shared pieces:

- `Common` (common.dfy) holds Option, Call, Pos, Byte, grids and the marker
  size 150.
- `CandidateSelector` (selector.dfy) is `find_qr_position`. Its text appears
  twice, in app/qr_utils.py:75-122 and app/qr_processor.py:76-115, and is
  modelled once.
- `Compositor` (compositor.dfy) holds the two `paste` calls, with PIL's
  clipping.
- `YoloDetection` (detector.dfy) is `find_empty_space` after inference.
- `QrUtils` (qr_utils.dfy) covers app/qr_utils.py: the arbiter, the payload
  and `process_pdf`.
- `QrProcessing` (qr_processor.dfy) is the `QrProcessor` class of
  app/qr_processor.py.
- `LegacyQrUtils` (legacy.dfy) is the top-level qr_utils.py.

The Python overlap is `np.sum(roi) / (150*150*255)`. The divisor is the same
positive constant for every slot, so comparing integer window sums orders the
slots exactly as the float ratios do. The sums stay below 2^25, so distinct
sums also give distinct double-precision quotients.

Behaviour of the code that its docstrings, names or the sibling file do
not suggest. The model follows the code:

- The corner slots sit 50 px from the edges, so one might expect a page side
  of 150 + 2 × 50 = 250 px to be needed. In fact every corner slot passes the
  bounds test (app/qr_utils.py:111) as soon as both sides are at least
  150 + 50 = 200 px (`CandidateSelector.SlotsFitIff`).
- `find_empty_space` returns the chosen box's own top-left corner. It does
  not move the slot inside the box or the page (app/yolo_detector.py:127-133).
  The slot lies on the page only because yolov5's box scaling clips boxes to
  the image (`QrUtils.ClippedBoxesGiveOnPageSlots`).
- The fallback runs only when the detector returns None. In
  app/qr_processor.py an exception from the detector makes `add_qr_to_image`
  return False without trying the heuristic. In app/qr_utils.py the exception
  propagates out of `add_qr_to_image`.
- In app/qr_utils.py the temporary directory of `process_pdf` is removed only
  on success and on the two explicit failure returns. The `except` path leaves
  it behind. That path is taken when a conversion or a stamp raises, on a
  zero-page document (`images[0]` raises IndexError) and when the final save
  raises. app/qr_processor.py uses a `with TemporaryDirectory` block, which
  removes the directory on every exit.
- Only app/qr_processor.py refuses a slot that leaves the page
  (app/qr_processor.py:146-149). app/qr_utils.py pastes anyway, and PIL clips
  the patch to the page.
- Only app/qr_processor.py caches the detector (`get_detector`).
  app/qr_utils.py constructs a new detector on every call of
  `add_qr_to_image`, so once per page.

## Model

| member | source | states |
|---|---|---|
| `CandidateSelector.FindQrPosition` | app/qr_utils.py:89-122 | The selection loop returns exactly the slot `SlotChoice` defines. It returns None iff the page is narrower or lower than 200 px. |
| `CandidateSelector.FirstMinSlot` | app/qr_utils.py:108-120 | After scanning k candidates, the kept slot is one of them and lies on the page. |
| `CandidateSelector.SlotsFitIff` | app/qr_utils.py:96-112 | Each of the four candidates (w-200,50), (50,50), (50,h-200), (w-200,h-200) passes the bounds test iff w ≥ 200 and h ≥ 200, so all four fit or none does. |
| `CandidateSelector.FirstMinSlotIsFirstMinimum` | app/qr_processor.py:101-115 | The scan keeps nothing iff no candidate fits. Otherwise the kept slot fits, its window sum is ≤ that of every fitting candidate, and it is < that of every earlier fitting candidate (the strict `<` makes the first one win ties). |
| `CandidateSelector.SlotChoiceNoneIff` | app/qr_utils.py:105-122 | The heuristic returns None iff width < 200 or height < 200. |
| `CandidateSelector.SlotChoiceIsFirstMinimum` | app/qr_utils.py:115-120 | A returned slot is one of the four candidates. All four are then on the page, the returned one sums no more than any of them, and it sums strictly less than those enumerated before it. |
| `CandidateSelector.BlankPagePicksTopRight` | app/qr_utils.py:97-120 | A blank 1000 × 800 mask yields the top-right slot (800, 50). |
| `CandidateSelector.TopRightContentPicksTopLeft` | app/qr_processor.py:94-113 | A 1000 × 800 mask whose content lies only in the top-right 250 × 200 block and under the top-right slot yields the top-left slot (50, 50). |
| `CandidateSelector.RectSumZero` | app/qr_utils.py:115-116 | A window of zeros sums to zero. |
| `Compositor.Paste` | app/qr_utils.py:237-238 | After `paste(patch, (x, y))`, page pixels inside the patch rectangle hold the patch pixel. Every other pixel keeps its value, and the part of the patch off the page is clipped. |
| `Compositor.StampMarker` | app/qr_utils.py:230-238 | After the white patch and then the marker are pasted, pixels in [x,x+150)×[y,y+150) that lie on the page equal the marker raster, and all others are unchanged. |
| `YoloDetection.YoloDetector.FindEmptySpace` | app/yolo_detector.py:69-138 | The collection loop and the choice return exactly `DetectorChoice`: None for an unreadable image, otherwise the choice over the `empty_space` records. |
| `YoloDetection.EmptySpacesAreTheLabelledBoxes` | app/yolo_detector.py:102-118 | A record is kept iff some box is labelled exactly `empty_space`. That record holds the box's (x1,y1), width x2-x1, height y2-y1 and area width·height. |
| `YoloDetection.MaxAreaIndexIsFirstMaximum` | app/yolo_detector.py:126 | `max(..., key=area)` picks a record whose area is ≥ every record's and > every earlier record's. |
| `YoloDetection.LargestEmptySpaceIsFirstMaximum` | app/yolo_detector.py:107-126 | The reference choice over the detections is None iff no box is `empty_space`. Otherwise it is the first `empty_space` box of maximal area. |
| `YoloDetection.MaxOfEmptySpaces` | app/yolo_detector.py:96-126 | Filtering and then taking `max` picks the record of the first largest `empty_space` box, in detection order. |
| `YoloDetection.DetectorChoiceIsLargestEmptySpace` | app/yolo_detector.py:120-136 | An unreadable image, or a page with no `empty_space` box, gives None. If dets[i] is the first `empty_space` box of maximal area, the answer is that box's own (x1, y1), unclamped, when it is at least 150 × 150, and None otherwise. |
| `YoloDetection.LargestTooSmallHidesFittingBox` | app/yolo_detector.py:124-136 | A larger 1000 × 100 box hides a 200 × 200 box that would fit, and the result is None. |
| `QrUtils.PlacementNoneIff` | app/qr_utils.py:219-224 | The arbiter finds no slot iff the detector has none and the page is narrower or lower than 200 px. |
| `QrUtils.OffPageSlotsComeFromDetector` | app/qr_processor.py:137-149 | A slot failing the bounds check can only come from the detector, because heuristic slots always lie on the page. |
| `QrUtils.ClippedBoxesGiveOnPageSlots` | app/yolo_detector.py:100-133 | When every `empty_space` box lies inside the page, as the box scaling at line 100 ensures, any slot the arbiter settles on lies on the page. |
| `QrUtils.AddQrToImage` | app/qr_utils.py:210-242 | It raises iff detector construction or detection raises. The heuristic runs iff the detector returned None. It returns True iff some slot was found, and then the page shows the marker in the slot and nothing else changes. Otherwise the page is untouched. |
| `QrUtils.DecimalIsDigits` | app/qr_utils.py:154 | The decimal rendering of a page number is non-empty and made of digits. |
| `QrUtils.DecimalInjective` | app/qr_utils.py:154 | Distinct numbers render differently. |
| `QrUtils.PagePayloadsDiffer` | app/qr_utils.py:142-154 | Two pages of one document never get the same payload `template + "\nСтраница: i из n"`. |
| `QrUtils.FirstBad` | app/qr_utils.py:142-161 | The first failing page: every page before it converts and stamps, and it fails unless it is n+1. |
| `QrUtils.FirstBadIsLeast` | app/qr_utils.py:142-161 | Any page m preceded only by good pages, and failing itself when m ≤ n, is the first failing page. |
| `QrUtils.ProcessPdf` | app/qr_utils.py:124-175 | Pages are visited 1, 2, … up to and including the first failing page. Page i's stamp gets payload i of n. The result is True iff n ≥ 1, every page succeeds and the save succeeds, and the document is then the n stamped pages in page order. On failure nothing is written. The temp dir is removed only on success and on the two explicit failure returns; otherwise the listed files stay behind. |
| `QrProcessing.QrProcessor.constructor` | app/qr_processor.py:18-20 | A new processor holds no detector and is not loaded. |
| `QrProcessing.QrProcessor.GetDetector` | app/qr_processor.py:22-32 | The first successful call constructs a fresh detector and caches it with loaded = true. Later calls return that same instance. A failed construction raises and leaves loaded false, so the next call retries. |
| `QrProcessing.QrProcessor.AddQrToImage` | app/qr_processor.py:117-158 | A construction failure or a detector exception gives False without running the heuristic. The heuristic runs iff the detector returned None. It returns True iff a slot was found and it passes the bounds check, and then the marker is in the slot and nothing else changes. Otherwise the page is untouched. |
| `QrProcessing.QrProcessor.ProcessPdf` | app/qr_processor.py:160-204 | Pages are visited in order up to the first failing one. The result is True iff n ≥ 1, all pages succeed and the save succeeds, and the output is then one stamped page per page, in order. Both files of every finished page stay in the temporary directory until the `with` block exits. Every exit then removes exactly them, plus the failing page's converted image when its stamp failed. |
| `LegacyQrUtils.BlendPixel` | qr_utils.py:60-68 | The threshold, the two masked `bitwise_and`s and the saturating `add` give the marker pixel where it is light (> 127) and the page pixel where it is dark. |
| `LegacyQrUtils.AddQrToImage` | qr_utils.py:21-79 | An unreadable image or an exception gives False. Otherwise the result is True iff the numpy ROI has the marker's shape, and then the ROI pixels are blended and every other pixel is unchanged. On False the image is untouched. |
| `LegacyQrUtils.SliceFitsIff` | qr_utils.py:54-59 | On one axis, for a marker of at least 20 px, the slice has the marker's extent iff the axis is at least marker + 20 long, and it then starts at len - q - 20. |
| `LegacyQrUtils.RoiMatchesIff` | qr_utils.py:50-59 | The composite happens iff w ≥ qr_w + 20 and h ≥ qr_h + 20, at (w - qr_w - 20, h - qr_h - 20). |
| `LegacyQrUtils.TinyMarkerWrapsAround` | qr_utils.py:54-59 | Below 20 px the previous iff fails: numpy's negative indices let a 1-px marker pass the shape test on a 15-px axis, at row 9. |

## Left out

- `detect_important_regions` / `preprocess_image` (CLAHE, blur, Canny, Hough lines, contours, dilation) are OpenCV calls. The importance mask is an input grid holding per-pixel channel sums.
- `generate_qr_code`, the `qrcode` library and PIL's `resize` are foreign libraries. The marker is an opaque 150 × 150 raster (qr_w × qr_h in the legacy compositor).
- YOLO model loading and inference, box scaling and `visualize_detection` are torch/OpenCV code. The page's detections are an input, with boxes already in integer page pixels.
- PDF page counting, rasterisation at a fixed DPI and writing of the multi-page document are I/O. They are the oracle values `pageCount`, `rasterize` and `saveOk`. `create_pdf_from_images` is unused and not modelled. Logging and `gc.collect` are not modelled.
- Saving of the temporary page images is assumed not to raise.
- A page unreadable both by the detector and by the caller is not modelled.
  `find_empty_space` re-roots a relative path at its own directory before
  `cv2.imread` (app/yolo_detector.py:65-66), so it can miss a page that the
  caller reads. The model covers that case: detector input None, with a
  readable page that the heuristic and the compositor then see. When neither
  can read the path, `find_qr_position` returns None (app/qr_utils.py:85-87)
  and `add_qr_to_image` returns False (app/qr_utils.py:223-224). The model's
  `AddQrToImage` methods always hold a readable page, so they do not return
  False for that reason.
- yolov5's `scale_boxes` is not modelled. That boxes lie inside the page is
  a hypothesis of `QrUtils.ClippedBoxesGiveOnPageSlots`, not a property of
  the detections given to the arbiter.
- Loading the image inside `find_qr_position` (its `.pdf` and `imread` branches) and inside `QrProcessor.add_qr_to_image` (`convert_from_path` / `Image.open`) is I/O. Those methods receive a readable page, and the later `save` is likewise assumed to succeed. These branches are not modelled.
- Pixels are single-channel bytes. The three BGR/RGB channels are treated alike by every modelled operation, and the legacy threshold mask is the grey value of a black-and-white marker.
- QrUtils.ProcessPdf: the per-page `add_qr_to_image` is the oracle `stamp` rather than a call of `QrUtils.AddQrToImage`. That method is modelled separately, on one page.
- QrProcessing.QrProcessor.ProcessPdf: the per-page `self.add_qr_to_image` is the oracle `stamp`, so the detector cache is not threaded through the page loop.
- LegacyQrUtils.AddQrToImage: the detector it constructs and the `detect` call belong to a top-level yolo_detector.py, which is not part of this model. Their success, together with the marker conversion, is the flag `detectorOk`.
- The chat bot transport (app/bot.py, bot.py, app/bot_utils.py), persistence (models.py, db_viewer.py) and the dataset and training scripts are outside the placement engine.
