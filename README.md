# Greedy mask-constrained shape packer

This project models the core of a small image-stylising tool. The tool fills the lit part of an image with circles or squares, each coloured from the image underneath it. It does this with a greedy packer (`fill_mask.py`) over integer pixel geometry (`shapes.py`). The shapes may overlap slightly. Each new shape, at its drawn size, has its centre on a free cell, and at least 97% of its footprint pixels inside the grid are free cells, which no earlier shape's padded footprint covered. The part of a shape beyond the grid border is not counted, so a shape near the border may lie largely off the grid. The shapes are then returned at their padded size.

- The occupancy mask is a 2D boolean grid, `mask[y][x]`; true means free.
- For every iteration, the packer:
  1. draws a shape whose size lies between the minimum and the current maximum radius;
  2. searches the mask for a placement;
  3. moves the shape there, recolours it from the image, and clears the mask cells under the shape grown by a padding of 1.
- When a search fails and the radius range is still wider than 1, the maximum radius is blended 80/20 towards the minimum and the packer tries again.
- The packer stops on a failed search with a narrow range, or after 100000 iterations.

The search (`FindLocation`) visits every second row and, within each row, every second column. At each free pixel it moves the shape there and counts how many of the shape's covered pixels are free. It accepts the pixel when that fraction is at least 0.97. It then returns either the first accepted pixel or one picked at random from all accepted pixels.

Three modules:

- `RealArith` (`arith.dfy`): small real-arithmetic facts the other proofs use.
- `Shapes` (`shapes.dfy`): the geometry of `shapes.py`. It defines:
  - the membership tests `IsInside`;
  - the bounding box and the area;
  - the clipped, row-major pixel enumeration `Shape.InsideRegion`, specified by the pure function `Region`.

  A `Shape` is a class: the packer updates its position, size and colour in place.
- `FillMask` (`fill_mask.dfy`): the packer, the logic of `fill_mask.py`, written as imperative methods over an `array2<bool>` mask and `Shape` objects. Each method is proved against pure specification functions:
  - `Cells`: the mask as a value;
  - `ScanOrder`: the pixels visited, in order;
  - `Candidates`: the visited pixels that pass the test;
  - `Pick`: the location the search returns;
  - `LastProbe`: where the search leaves the shape;
  - `Cleared`: the mask after clearing;
  - `Decayed` and `Schedule`: the radius schedule;
  - `Packed` and `FirstFits`: the ghost record of every placement;
  - `Trace`: the ghost record of every round, placing or shrinking;
  - `Progress`: everything the packer's loop keeps true, bundled;
  - `Colored`: the colour `SetColorFromImage` gives a shape.

Every random draw of `fill_mask.py` is a parameter:

- `u` or `Draw.radius` is the fraction in [0, 1) behind a radius;
- `rowStart`, in {0, 1}, is the row parity;
- `colStarts` is one column parity in {0, 1} per row;
- `u` or `colorPick` is the fraction behind a uniform pick from a list;
- `Draw.color` is the initial colour of a generated shape.

The packer receives one `Draw` per iteration.

Behaviour of the code that the model keeps, and the two crash paths it excludes by preconditions:

- The column parity is drawn again for every row the search visits, because `int(rand() * 2)` sits inside the outer loop (fill_mask.py:51). It is not one offset per search.
- `ClearMask` leaves the shape's size increased by the padding (fill_mask.py:84). Returned shapes therefore carry the padded size. `PlaceShape` and `FillMaskWithShapes` state this.
- There is no guard for an empty footprint: line 61 divides by the footprint size. The model requires a positive size, and proves that the footprint then contains the centre (`Shapes.RegionContainsCentre`). It also proves that a size of zero or less gives an empty footprint (`Shapes.NonPositiveSizeRegionEmpty`), which in Python is a `ZeroDivisionError`.
- When the shape covers no pixel, `SetColorFromImage` leaves the colour as it was (fill_mask.py:101).
- `FindLocation`, `ClearMask` and `SetColorFromImage` read `len(mask[0])` or `len(image[0])` (fill_mask.py:48, 85, 99), which raises an `IndexError` on a grid with no rows. The model requires at least one row.

## Model

| member | source | states |
|---|---|---|
| Shapes.Ceil | shapes.py:27-28 | `math.ceil` through Floor: the result c is the integer with c - 1 < v <= c |
| Shapes.Shape.constructor | shapes.py:38-40 | a new shape has the given kind, integer centre, size and colour |
| Shapes.IsInside | shapes.py:42-44 | the circle test (cx-px)²+(cy-py)² <= r² and the square test cx-r <= px <= cx+r, cy-r <= py <= cy+r (shapes.py:69-72), boundary included; `SquareIsChebyshevBall`, `CircleWithinSquare`, `InsideMonotone` and `UnitCircleTestPoints` state its properties |
| Shapes.BoundingBox | shapes.py:49-51 | the box (cx-r, cy-r)..(cx+r, cy+r) shared by both kinds (shapes.py:77-79); `InsideIsInBoundingBox` proves it contains every inside point |
| Shapes.GetArea | shapes.py:46-47 | pi·r² for a circle and 4r² for a square (shapes.py:74-75), never negative; `AreaIndependentOfPosition` and `AreaAgainstBoundingBox` state the values |
| Shapes.Shape.InsideRegion | shapes.py:23-32 | the nested loops yield exactly `Region(Geom(), w, h)`; the lemmas below give its membership and order |
| Shapes.InsideRow | shapes.py:30-32 | the inner loop yields exactly the inside pixels of one row of the clipped box, left to right (`RowPixels`) |
| Shapes.UnitCircleTestPoints | shapes_test.py:14-19 | the unit circle at the origin contains (0,0), (1,0) and (0,1), boundary included, and not (0,1.1) |
| Shapes.SquareIsChebyshevBall | shapes.py:69-72 | a square contains (px,py) iff \|cx-px\| <= r and \|cy-py\| <= r |
| Shapes.CircleWithinSquare | shapes.py:42-44 | for r >= 0 every point of the circle lies in the square of the same centre and size |
| Shapes.InsideIsInBoundingBox | shapes.py:49-51 | for r >= 0 every inside point of either kind lies in the closed box (cx-r, cy-r)..(cx+r, cy+r) |
| Shapes.AreaIndependentOfPosition | shapes.py:46-47 | the area does not depend on the centre; a circle of radius 1 has area pi at any position, as the test suite checks |
| Shapes.AreaAgainstBoundingBox | shapes.py:74-75 | a square's area 4r² is its bounding box's area; a circle's pi r² is pi/4 of it |
| Shapes.ClipRange | shapes.py:25-28 | for a box with low corner lo and high corner hi, an integer column px lies in the clipped range iff 0 <= px < w and lo.x - 1 < px < hi.x (that is, floor(lo.x) <= px < ceil(hi.x)); the same holds for rows |
| Shapes.ClipWithinGrid | shapes.py:25-28 | the clipped ranges lie within [0, w) and [0, h) |
| Shapes.RegionMembership | shapes.py:23-32 | a pixel is yielded iff it is inside the shape and within the clipped ranges, upper bounds exclusive |
| Shapes.RegionInGrid | shapes.py:25-32 | every yielded pixel satisfies 0 <= px < w and 0 <= py < h |
| Shapes.UnitCircleRegionExcludesRightmost | shapes.py:27-30 | the unit circle at the origin contains (1,0) but does not yield it (exclusive ceil bound); it yields (0,0) |
| Shapes.RegionContainsCentre | shapes.py:25-32 | with r > 0 and the centre on the grid the centre is yielded, so the footprint is non-empty |
| Shapes.NonPositiveSizeRegionEmpty | shapes.py:25-30 | with r <= 0 nothing is yielded |
| Shapes.InsideMonotone | shapes.py:42-44 | growing a non-negative size keeps every inside point inside, for both kinds |
| Shapes.RegionMonotone | shapes.py:23-32 | growing a non-negative size only adds yielded pixels |
| Shapes.RegionRowMajor | shapes.py:29-32 | the pixels come in strict row-major order, hence without duplicates |
| FillMask.OverlapRatio | fill_mask.py:54-61 | free covered pixels over covered pixels of the shape centred at the pixel; `OverlapRatioInUnit` proves the divisor positive and the ratio in [0, 1] |
| FillMask.Qualifies | fill_mask.py:53-61 | the test of a visited pixel: on the grid, free, and overlap ratio at least the minimum; `Probe` computes exactly this |
| FillMask.ScanOrder | fill_mask.py:50-51 | the visiting order of the two stride-2 loops; `ScanVisits` and `ScanRowMajor` characterise it |
| FillMask.Candidates | fill_mask.py:50-64 | the visited pixels that pass the test, in visiting order, never more than were visited; `CandidatesMembership`, `CandidatesAppend` and `FirstCandidateIsFirstQualifying` state its properties |
| FillMask.LastProbe | fill_mask.py:53-55 | where the search leaves the shape: always the start or a visited pixel; `LastProbeIsLastFree` pins it to the last free visited pixel |
| FillMask.IsLit | fill_mask.py:173 | a pixel is lit iff one of its three channels is positive; `MaskFromImage` builds the mask from it |
| FillMask.FreeCountFull | fill_mask.py:56-59 | the overlap count equals the footprint size iff every covered pixel is free |
| FillMask.OverlapRatioInUnit | fill_mask.py:54-61 | with r > 0 and the centre on the grid the footprint is non-empty (the division at line 61 is defined) and overlap/area is in [0, 1] |
| FillMask.ScanVisits | fill_mask.py:50-51 | the search visits exactly the grid pixels with y ≡ rowStart and x ≡ colStarts[y] (mod 2) |
| FillMask.ScanRowMajor | fill_mask.py:50-51 | the visiting order is strictly row-major, so no pixel is tested twice |
| FillMask.CandidatesMembership | fill_mask.py:53-64 | a pixel is collected iff it is visited, in the grid, free, and its overlap ratio is at least the minimum |
| FillMask.CandidatesAppend | fill_mask.py:50-64 | collecting over two stretches of the scan is the concatenation of collecting over each |
| FillMask.FirstCandidateInRow | fill_mask.py:61-63 | when nothing before a row passes and the row has a passing pixel, the first pixel collected over the whole scan is the row's first |
| FillMask.FirstCandidateIsFirstQualifying | fill_mask.py:61-63 | the first collected pixel is a visited pixel before which no visited pixel passes the test |
| FillMask.NoFreeCellNoCandidate | fill_mask.py:53 | on a mask with no free cell nothing is collected |
| FillMask.FreeMaskFullOverlap | fill_mask.py:56-61 | on a fully free mask every on-grid placement has overlap ratio exactly 1 |
| FillMask.FreeMaskAllCandidates | fill_mask.py:50-64 | on a fully free mask with a minimum ratio of at most 1 every visited pixel is collected |
| FillMask.RandomIndex | fill_mask.py:71 | floor(u·n) for 0 <= u < 1 is an index below n, and it is the floor of u·n |
| FillMask.Pick | fill_mask.py:62-72 | the result is None iff nothing was collected; otherwise it is a collected pixel: the first in first-fit mode, the one at floor(u·n) otherwise |
| FillMask.LocationQualifies | fill_mask.py:50-72 | a returned location is a visited pixel that is in the grid, free and passes the ratio; None is returned iff no visited pixel passes |
| FillMask.LastProbeIsLastFree | fill_mask.py:53-55 | the shape ends at the last free visited pixel when there is one, and where it started otherwise |
| FillMask.LastProbeAppend | fill_mask.py:50-55 | where the shape ends after two stretches of the scan is where the second stretch leaves it, starting from where the first left it |
| FillMask.RandomRadius | fill_mask.py:29 | u·(max-min)+min lies in [min, max) when min < max; it equals min when min == max; it lies in (max, min] otherwise |
| FillMask.GenerateRandomShape | fill_mask.py:17-30 | a fresh shape of the kind at (0, 0) with the drawn colour and radius `RandomRadius(min, max, u)` |
| FillMask.CountOverlap | fill_mask.py:56-59 | the loop returns the footprint size and the number of its free pixels |
| FillMask.Probe | fill_mask.py:53-61 | the test at one pixel equals `Qualifies`; the shape moves there iff the cell is free; its size and colour are unchanged |
| FillMask.ProbeNext | fill_mask.py:53-61 | a probe at p extends the search's state by one pixel: the collected list gains p iff p passes the test, and the shape ends where `LastProbe` of the longer scan says |
| FillMask.ScanRow | fill_mask.py:51-64 | one row: in first-fit mode it returns the row's first passing pixel with the shape left there; otherwise it returns the row's passing pixels in order, with the shape at the row's last free pixel |
| FillMask.ScanRows | fill_mask.py:50-64 | the same over all visited rows, in terms of `ScanOrder` |
| FillMask.FindLocation | fill_mask.py:33-72 | the result is `Pick(Candidates(mask, ScanOrder))`; the mask is not modified (only the shape is); first-fit success leaves the shape at the result, otherwise at `LastProbe` of the scan |
| FillMask.Cleared | fill_mask.py:85-86 | a cell is free after clearing iff it was free before and is not in the cleared list |
| FillMask.ClearMask | fill_mask.py:75-86 | the size grows by the padding, the position and colour stay, and the new mask is the old one with exactly the grown footprint set occupied |
| FillMask.PaddedClearCoversFootprint | fill_mask.py:82-86 | clearing the padded footprint occupies every pixel of the unpadded footprint |
| FillMask.Colored | fill_mask.py:98-102 | the colour a shape gets: the old colour when its footprint on the image is empty, else the image colour at the footprint pixel floor(u·n), as `SetColorFromImage` proves |
| FillMask.SetColorFromImage | fill_mask.py:89-102 | with no covered pixel the colour is unchanged; otherwise it is the image colour at the covered pixel floor(u·n); position and size stay |
| FillMask.MaskFromImage | fill_mask.py:171-173 | a cell is free iff some colour channel of the image pixel is positive |
| FillMask.Shrink | fill_mask.py:133 | the new gap to the minimum is 0.8 times the old one, and min < new max < old max when old max > min |
| FillMask.DecayedRange | fill_mask.py:131-135 | a positive radius gap stays positive and never grows under repeated shrinks |
| FillMask.DecayCountBound | fill_mask.py:130-136 | a gap still above 1 after k shrinks started above 1 + k/4, which bounds the number of shrinks |
| FillMask.ScheduleShrink | fill_mask.py:131-135 | a shrink taken while max > min + 1 keeps the schedule: gap decayed once more, max within (min, initial max], shrink count bounded by the initial gap |
| FillMask.PackedExtend | fill_mask.py:138-143 | a valid placement extends the packing record; cleared footprints stay occupied and the new shape is not centred on an earlier one |
| FillMask.DimsKept | fill_mask.py:84-86 | clearing never changes the mask's dimensions, so every mask of the record has the first one's height and width |
| FillMask.PlacedDistinct | fill_mask.py:53-61 | no two placements of the record are equal: a later shape is centred on a free cell, hence off every earlier padded footprint, which contains its own centre |
| FillMask.PackedMonotone | fill_mask.py:84-86 | the mask only ever goes from free to occupied: a cell free at a later step was free at every earlier one |
| FillMask.FirstFitsExtend | fill_mask.py:128-143 | a round that places a shape where its first-fit search put it extends the record of rounds |
| FillMask.PlacedAtFirstQualifying | fill_mask.py:128-143 | every placed shape sits at the first pixel of its round's scan that passes the test on the mask just before it, at its unpadded size |
| FillMask.EmptyMaskPlacesNothing | fill_mask.py:126-144 | a mask with no free cell receives no shape |
| FillMask.PlaceShape | fill_mask.py:138-142 | the shape is moved to p, recoloured from the image under its unpadded footprint at p (`Colored`), grown by the padding, and its grown footprint is cleared from the mask |
| FillMask.PackStep | fill_mask.py:128-143 | on failure the mask is unchanged and no visited pixel passes; on success a fresh shape of the kind with the drawn radius plus padding is placed validly at the first passing pixel, coloured from the image with the drawn pick, or keeping the drawn colour when it covers no image pixel |
| FillMask.PackRound | fill_mask.py:128-143 | one round on the ghost record: failure leaves the mask alone and no visited pixel passes at the round's radius; success gives a radius drawn from the round's range [min, maxR), and extends the placement record, the record of rounds, the trace and the colour record |
| FillMask.Trace | fill_mask.py:127-143 | every round either placed a shape whose radius was drawn from that round's range, or shrank the maximum radius after a failed search on the mask of that moment while the range was wider than 1 |
| FillMask.TraceShrink | fill_mask.py:130-135 | a failed search with max > min + 1 followed by a shrink extends the trace |
| FillMask.TracePlace | fill_mask.py:128-143 | a placement with the radius drawn from the current range extends the trace, keeping the maximum radius |
| FillMask.ColorsExtend | fill_mask.py:140-143 | appending a shape coloured by its round keeps the colour record of the earlier shapes |
| FillMask.Round | fill_mask.py:127-143 | one iteration of the loop: a placement or a shrink extends `Progress` (the loop's record) by one round; a failed search with max <= min + 1 stops with the mask and record unchanged and no visited pixel passing |
| FillMask.FillMaskWithShapes | fill_mask.py:115-144 | at most 100000 iterations, each one a placement or a shrink. The states it proves are listed below the table. |

FillMask.FillMaskWithShapes proves that:

- the returned shapes have the recorded geometries, and no two of them are the same object (no shape is centred under an earlier one's footprint, `PlacedDistinct`);
- the record chains the masks from the input mask to the final mask, one valid placement at a time;
- every shape has the requested kind; when min < max its unpadded radius lies in [min, max);
- every shape's radius is drawn from the range of its own round, min to that round's maximum;
- every round that placed no shape found no place on the mask of that moment, had max > min + 1, and shrank the maximum;
- every shape has the colour `SetColorFromImage` gave it in its round;
- every shape sits where its round's first-fit search put it, with round indices strictly increasing;
- the radius schedule holds;
- when the loop ends before the budget, the last search failed with max <= min + 1.

## Left out

- `Draw` methods (shapes.py:20-21, 53-57, 81-90) and `WriteShapes` (fill_mask.py:105-112): SVG rendering through the cairo library is foreign code.
- `main` (fill_mask.py:147-182): option parsing, image reading and usage printing are I/O. Only the thresholding rule is modelled, as `MaskFromImage`.
- The `print` diagnostics (fill_mask.py:66, 68, 134), the `checked` counter that only feeds one of them, and `__str__`.
- The Python random generator: every draw is an explicit parameter (see above).
- Floating point: radii, ratios and colour channels are exact reals, and rounding is not modelled. `math.pi` is a positive parameter `pi` of `GetArea`.
- Image pixels are RGB triples. An RGBA image's fourth channel, which `[:]` would copy into the colour, is not modelled.
- The abstract base-class stubs that raise `NotImplementedError` (shapes.py:11-18): the shape kind is a datatype, and every operation is defined for both kinds.
- shapes.cc is not part of this model: a C++ demo with no packing logic.
- `FillMaskWithShapes` takes its two callbacks as the fixed instances `main` supplies (fill_mask.py:175-179): `GenerateRandomShape` for one kind, and `SetColorFromImage` on the image. `FindLocation` is called with its defaults: ratio 0.97, first-fit.
- FillMask.FillMaskWithShapes: it requires `minRadius > 0` and `maxRadius >= 0`. Outside this range a drawn size can be zero or negative, and the source then divides by zero at fill_mask.py:61 (a `ZeroDivisionError`).
- FillMask.FillMaskWithShapes: it requires a mask with at least one row. The source reads `len(mask[0])`, which fails on an empty mask.
- FillMask.FillMaskWithShapes: it requires an image with at least one row. The source reads `len(image[0])` only when it colours a placed shape, so a run that places nothing on an empty image is not covered.
- Shapes.GetArea: its contract states only that the area is non-negative. The exact values are stated by `AreaIndependentOfPosition` and `AreaAgainstBoundingBox`.
