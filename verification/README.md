# Object detection with voice: a verified model of the detection core

The application watches a camera. It hands each frame to an object detector and to a pose model, and keeps a catalogue of what it has seen. It announces each new kind of object once, by voice, and can write a PDF report of the catalogue. This project models the pure logic inside that loop and proves properties of it in Dafny.

- **Geometry** (`geometry.dfy`) covers:
  - the truncation toward zero applied to the models' float coordinates;
  - the pass-through of object-detector boxes;
  - the hand region. It is the envelope of the elbow, the wrist and a fingertip extrapolated 0.6 of the forearm past the wrist. The envelope is widened by 30 pixels and clamped to the frame.
- **Discovery** (`discovery.dfy`) defines the first occurrences of a sequence. This is the independent reference for the order in which a first-seen-wins map acquires its keys.
- **Catalogue** (`catalogue.dfy`) models `detected_objects`, an insertion-ordered map from label to record, together with the log of narrations. Offering a label already present changes nothing. A new label gets a record and one narration.
- **Frame** (`frame.dfy`) models one pass of `update_frame`. Every object box is offered in arrival order. Then the left hand (keypoints 7 and 9) and the right hand (keypoints 8 and 10) of the first person are offered.
- **Report** (`report.dfy`) models `ask_generate_report` and `generate_report`:
  - the refusal on an empty catalogue and the yes/no question;
  - the y-cursor pagination of the report's blocks, with a closed form of where each block lands.

Several things the program gets from outside become parameters:
- the frame size;
- the detector outputs, as a sequence of boxes per frame and an optional keypoint list;
- the timestamp, as one string per frame;
- the user's answer to the report question;
- the set of image files that can be loaded back;
- the page height.

## Model

| member | source | states |
|---|---|---|
| Geometry.Trunc | app.py:116-117 | `int()` of a float is the integer between zero and the value within distance 1, on either sign |
| Geometry.TruncMonotone | app.py:54 | truncating two ordered floats keeps them ordered |
| Geometry.Extend | app.py:120 | the integer formula used for `int(0.6 * d)` equals truncating the exact product, for every integer offset |
| Geometry.Fingertip | app.py:119-120 | the fingertip lies past the wrist by the truncated 0.6 of the elbow-to-wrist vector on each axis |
| Geometry.Envelope | app.py:122-126 | the box is clamped to the frame; each edge reaches at least as far as every one of the three points widened by 30 and clamped to the frame, and equals that widened, clamped coordinate for one of them, so it is the least clamped box covering all three |
| Geometry.HandBox | app.py:113-126 | no box exactly when some elbow or wrist coordinate is ≤ 0; otherwise the box is the envelope of the truncated elbow, the truncated wrist and the fingertip; it is clamped to the frame, and an elbow inside the frame makes it ordered |
| Geometry.HandBoxContainsKeypoints | app.py:122-126 | with both keypoints inside the frame, the box contains both and is ordered, so its sizes are not negative |
| Geometry.ObjectBox | app.py:54 | the detector's corners are truncated and passed through; an ordered input box stays ordered |
| Geometry.HandBoxExample | app.py:116-126 | elbow (100,200) and wrist (150,180) in 640×480 give fingertip (180,168) and box (70,138,210,230) |
| Geometry.HandBoxOutsideFrameIsInverted | app.py:125-126 | an elbow at x = 700 in a 640-wide frame gives x1 = 670 > x2 = 640: clamping alone does not order the box |
| Discovery.FirstOccurrences | app.py:63 | the reference order of first sightings has no duplicates and is no longer than its input |
| Discovery.FirstOccurrencesMembers | app.py:63 | a value is among the first occurrences exactly when it occurs at all |
| Discovery.FirstOccurrencesOrdered | app.py:63 | first occurrences are listed in the order of their first index in the input |
| Catalogue.ImagePath | app.py:70 | the path is `detected_objects/`, then the label, then `.jpg` |
| Catalogue.ImagePathInjective | app.py:141 | distinct labels never share an image file |
| Catalogue.NewRecord | app.py:64-84 | a new record is well formed: width = x2 − x1, height = y2 − y1, area = width·height, the label's image path; box, confidence and time are stored; an ordered box gives sizes ≥ 0 |
| Catalogue.Lookup | app.py:73 | a label has a record exactly when it is a key, and the record is that key's entry |
| Catalogue.EmptyValid | app.py:31 | the catalogue starts empty and valid: unique keys, well-formed records, narrations matching entries |
| Catalogue.Offer | app.py:63-95 | a present label leaves catalogue and narrations unchanged; a new label is appended after all existing entries with a fresh record and exactly one narration; other labels' lookups are unchanged; validity is preserved |
| Catalogue.OfferIdempotent | app.py:134 | offering a label a second time, with any box, confidence or time, changes nothing |
| Catalogue.OfferAll | app.py:52-53 | offering a sequence preserves validity and never alters existing entries |
| Catalogue.OfferAllAppend | app.py:52-53 | offering a concatenation is offering its parts in turn |
| Catalogue.OfferAllLabels | app.py:63-84 | the keys after a sequence of offers are the first occurrences of the old keys followed by the offered labels |
| Catalogue.OfferAllMembers | app.py:63-84 | a label is a key afterwards exactly when it was one before or was offered |
| Catalogue.OfferAllNewOrder | app.py:134-155 | new keys were offered and were absent before; they appear in the order of their first offer |
| Catalogue.OfferAllFirstWins | app.py:63-84 | the record of a label is the old one if present, else the record of the first offer carrying it, else none |
| Catalogue.OfferAllFirstCarrier | app.py:63-84 | a label absent from the catalogue whose first carrier among the offers is the candidate at index k gets that candidate's record |
| Catalogue.OfferAllPresent | app.py:134 | offering only labels already present changes nothing |
| Catalogue.CatExample | app.py:63-84 | offering "cat" twice keeps the first box (10,10,50,50) with sizes 40×40, area 1600, path `detected_objects/cat.jpg`, and one narration |
| Frame.ObjectCandidate | app.py:54-57 | an object box is offered with its class name, its confidence and its truncated corners |
| Frame.HandCandidate | app.py:108-168 | a hand is offered exactly when both indices are in range, the four coordinates are > 0 and the crop of its box is non-empty; it carries the hand label, confidence 0.99 and the clamped hand box |
| Frame.HandCandidates | app.py:99-108 | a frame without keypoints offers no hand; with keypoints it offers the left hand's candidate, if accepted, then the right hand's, if accepted; only hand labels, with confidence 0.99, left before right |
| Frame.HandsInOrder | app.py:103-106 | at most one left hand followed by at most one right hand carries only hand labels, left before right |
| Frame.FrameCandidates | app.py:52-108 | a frame offers one candidate per object box, in arrival order, followed by exactly its hand candidates |
| Frame.ProcessFrame | app.py:45-168 | one frame preserves validity and never alters existing entries |
| Frame.ProcessFrames | app.py:175 | a run of frames preserves validity and never alters existing entries |
| Frame.FrameLabels | app.py:52-108 | a frame offers the object class names in arrival order, then hand labels only, left before right |
| Frame.ObjectsBeforeHands | app.py:52-168 | within a frame, a newly accepted object label is catalogued before any newly accepted hand label |
| Frame.LeftHandBeforeRight | app.py:103-108 | within a frame, a newly accepted `hand_left` is catalogued before a newly accepted `hand_right` |
| Frame.RejectedHandNotCatalogued | app.py:108-168 | a rejected hand whose label is not already present and not carried by an object box is not catalogued by the frame |
| Frame.AcceptedHandCatalogued | app.py:108-168 | an accepted hand whose label is not already present and not carried by an object box is catalogued by the frame with the record of its own candidate |
| Frame.HandFirstCarrier | app.py:52-108 | an accepted hand is offered after the object boxes, and every offer before it carries another label |
| Frame.SentinelWristExample | app.py:113-114 | a wrist at x = 0 with no object boxes leaves catalogue and narrations unchanged |
| Frame.InvertedHandExample | app.py:140-142 | a hand box lying outside the frame has an empty crop, and the frame leaves catalogue and narrations unchanged |
| Report.ThumbnailFor | app.py:217-221 | a block shows its image exactly when the file can be loaded, and shows the error line otherwise |
| Report.Layout | app.py:198-223 | one block per entry in catalogue order, with its label, record and thumbnail; each block is placed by the cursor rule from the previous one |
| Report.GenerateReport | app.py:188-223 | the report has one block per entry in catalogue order, with its label, record and thumbnail, paginated from page 0 with the cursor 30 below the title line |
| Report.PageCount | app.py:199-224 | a report without blocks is the title's single page; otherwise the file ends on the last block's page |
| Report.PaginatedCons | app.py:199-223 | a block placed by the cursor rule, followed by a paginated rest laid out from its bottom, is paginated |
| Report.AskGenerateReport | app.py:178-185 | an empty catalogue yields the notice, a declined question yields nothing, otherwise the outcome holds exactly the report's blocks, whose labels are the catalogue's in order, and its page count, which no block lies past |
| Report.PagesAreMonotone | app.py:198-201 | page numbers never decrease from one block to the next |
| Report.LastPageIsLast | app.py:189-225 | every block lies on a page below the page count |
| Report.AboveFloor | app.py:199-201 | when a fresh page's top is at or above 150, no block starts below 150 |
| Report.NextPosition | app.py:199-223 | a block placed by the cursor rule from where the closed form puts block i − 1 lands where it puts block i |
| Report.ReportPositions | app.py:190-223 | block i lands on page 0 under the title while it fits, then at row (i − first) mod perPage of page 1 + (i − first) div perPage |
| Report.A4Example | app.py:189-223 | on an A4 page, four entries land at 761, 501 and 241 on page 0 and at 791 on page 1, in a two-page file |

## Left out

- Camera capture, the two neural models, the tkinter window and the drawing on the frame are I/O and foreign calls. The models' outputs are parameters: one object result and one pose result per frame. The keypoints are those of the first person.
- Speech synthesis and its daemon threads are concurrency. A narration is an event appended to a log, in acceptance order.
- The clock is modelled as one timestamp string per frame. The source reads the clock at each acceptance. Readings taken within one frame may differ.
- Confidence values are opaque reals stored unchanged. The `.2f` formatting of messages and report lines is not modelled.
- Writing the crop file, reading it back and drawing the PDF are file and PDF I/O. Whether a file can be read back is the parameter `readable`. The report's file name and its closing message are not modelled.
- `cv2.imwrite` raises on an empty image. The model relies on this: an empty hand crop raises before the hand's record is stored, and the bare `except` of the hand loop swallows the error. Other write failures are not modelled.
- Frame.ObjectCandidate: an object box whose crop is empty makes `cv2.imwrite` raise outside any handler. That ends the frame callback before it schedules the next frame. The model does not reproduce this and records the box.
- Geometry.Trunc: keypoints and box corners are exact reals, not doubles. Extend is proved equal to truncating the exact product 0.6·d. The rounding of the double product 0.6·d is not modelled.
- Report.Layout: the page height is an integer. A4's 841.89 points make the same decisions as 841, because every step and threshold of the cursor is an integer. The tops on a real A4 page are those in the model plus 0.89.
- Report.ReportPositions: the closed form is stated for pages at least 200 points high. On lower pages a fresh page starts below the floor, and every block opens a new page.
- Geometry.HandBox: a hand box is not ordered for every input. An out-of-frame keypoint (x or y beyond the frame) can invert it, as HandBoxOutsideFrameIsInverted shows. A catalogued hand box is always strictly ordered, because an inverted or empty box has an empty crop and is skipped.
- Acceptance time has no placeholder for an image that cannot be written. The only image fallback is the report's error line (Report.ThumbnailFor).
- Object-detector boxes are not clamped or ordered by the code. Ordering is a hypothesis of Geometry.ObjectBox, not a guarantee.
