/**
 * The greedy packer: random shape generation, the parity-grid search for a
 * placement whose footprint overlaps the free part of an occupancy mask by at
 * least a given ratio, clearing of the covered cells, colour sampling, and the
 * driver loop that shrinks the maximum radius when no placement is found.
 *
 * Every value fill_mask.py draws from its random generator is a parameter
 * here: a radius fraction, the row and per-row column parities of the search,
 * and the fractions used to pick a candidate location or a colour.
 */
module FillMask {
  import opened RealArith
  import opened Shapes

  datatype Option<T> = None | Some(value: T)

  /** The packer's fixed iteration budget. */
  const MaxIterations: nat := 100000
  /** The default fraction of a footprint that must lie on free cells. */
  const DefaultMinOverlapRatio: real := 0.97
  /** The default growth of a placed shape before its cells are cleared. */
  const DefaultPadding: real := 1.0

  /** A value snapshot of the occupancy mask, indexed [row][column]; true means free. */
  type Mask = seq<seq<bool>>

  /** len(mask). */
  function Height(m: Mask): nat { |m| }

  /** len(mask[0]); an empty mask has no first row and is given width 0. */
  function Width(m: Mask): nat { if |m| == 0 then 0 else |m[0]| }

  predicate Rectangular(m: Mask)
  {
    forall y :: 0 <= y < |m| ==> |m[y]| == Width(m)
  }

  /** The cell at p exists and is free. */
  predicate Free(m: Mask, p: Pixel)
  {
    0 <= p.y < |m| && 0 <= p.x < |m[p.y]| && m[p.y][p.x]
  }

  /** The contents of a mask array, row by row. */
  function Cells(mask: array2<bool>): (m: Mask)
    reads mask
    ensures |m| == mask.Length0 && Rectangular(m)
    ensures mask.Length0 > 0 ==> Width(m) == mask.Length1
    ensures forall p :: Free(m, p) <==> 0 <= p.y < mask.Length0 && 0 <= p.x < mask.Length1 && mask[p.y, p.x]
  {
    seq(mask.Length0, (y: int) requires 0 <= y < mask.Length0 reads mask =>
      seq(mask.Length1, (x: int) requires 0 <= x < mask.Length1 reads mask => mask[y, x]))
  }

  /** Two masks with the same rows and the same cells are equal. */
  lemma MaskExtensionality(a: Mask, b: Mask)
    requires |a| == |b|
    requires forall y :: 0 <= y < |a| ==> |a[y]| == |b[y]|
    requires forall y, x :: 0 <= y < |a| && 0 <= x < |a[y]| ==> a[y][x] == b[y][x]
    ensures a == b
  {
    forall y | 0 <= y < |a|
      ensures a[y] == b[y]
    {
    }
  }

  // ---------------------------------------------------------------------
  // Overlap ratio and the placement test
  // ---------------------------------------------------------------------

  /** How many of the listed pixels are free. */
  function FreeCount(m: Mask, pts: seq<Pixel>): (n: nat)
    ensures n <= |pts|
    decreases |pts|
  {
    if pts == [] then 0
    else FreeCount(m, pts[..|pts| - 1]) + (if Free(m, pts[|pts| - 1]) then 1 else 0)
  }

  /** Every listed pixel is free exactly when the count reaches the length. */
  lemma {:induction false} FreeCountFull(m: Mask, pts: seq<Pixel>)
    ensures FreeCount(m, pts) == |pts| <==> forall i :: 0 <= i < |pts| ==> Free(m, pts[i])
    decreases |pts|
  {
    if pts != [] {
      var pre := pts[..|pts| - 1];
      FreeCountFull(m, pre);
      assert forall i :: 0 <= i < |pre| ==> pre[i] == pts[i];
    }
  }

  /**
   * The fraction of a shape's footprint (its InsideRegion pixels) lying on free
   * cells. Under the requires the footprint is never empty (OverlapRatioInUnit),
   * so the guard for an empty footprint is never taken and the value is the
   * quotient the search computes.
   */
  function OverlapRatio(m: Mask, g: Geometry): real
    requires g.r > 0.0
    requires 0 <= g.x < Width(m) && 0 <= g.y < Height(m)
  {
    var region := Region(g, Width(m), Height(m));
    if |region| == 0 then 0.0 else FreeCount(m, region) as real / |region| as real
  }

  /** The footprint is never empty here, so the ratio is a true fraction in [0, 1]. */
  lemma OverlapRatioInUnit(m: Mask, g: Geometry)
    requires g.r > 0.0
    requires 0 <= g.x < Width(m) && 0 <= g.y < Height(m)
    ensures |Region(g, Width(m), Height(m))| > 0
    ensures 0.0 <= OverlapRatio(m, g) <= 1.0
  {
    var region := Region(g, Width(m), Height(m));
    RegionContainsCentre(g, Width(m), Height(m));
    RatioInUnit(FreeCount(m, region) as real, |region| as real);
  }

  /** The test FindLocation applies to a visited pixel p for a shape of the given kind and size. */
  predicate Qualifies(m: Mask, kind: Kind, r: real, minRatio: real, p: Pixel)
    requires r > 0.0
  {
    0 <= p.x < Width(m) && 0 <= p.y < Height(m) && Free(m, p) &&
    OverlapRatio(m, Geometry(kind, p.x, p.y, r)) >= minRatio
  }

  // ---------------------------------------------------------------------
  // The parity-grid scan
  // ---------------------------------------------------------------------

  predicate IsBit(b: int) { b == 0 || b == 1 }

  /**
   * The random parities of one search: the first row, and for every row the
   * first column (a fresh draw for each row the search visits).
   */
  predicate ValidJitter(rowStart: int, colStarts: seq<int>, h: int)
  {
    IsBit(rowStart) && |colStarts| == h && forall y :: 0 <= y < |colStarts| ==> IsBit(colStarts[y])
  }

  /** Columns x, x + 2, ... below w of row y. */
  function RowScan(y: int, x: int, w: int): seq<Pixel>
    decreases w - x
  {
    if x >= w then [] else [Pixel(x, y)] + RowScan(y, x + 2, w)
  }

  /** Rows y, y + 2, ... below h, each starting at its own column parity. */
  function ScanFrom(y: int, h: int, w: int, colStarts: seq<int>): seq<Pixel>
    requires 0 <= y && |colStarts| == h
    decreases h - y
  {
    if y >= h then [] else RowScan(y, colStarts[y], w) + ScanFrom(y + 2, h, w, colStarts)
  }

  /** The pixels FindLocation visits on an h-by-w mask, in visiting order. */
  function ScanOrder(h: nat, w: nat, rowStart: int, colStarts: seq<int>): seq<Pixel>
    requires ValidJitter(rowStart, colStarts, h)
  {
    ScanFrom(rowStart, h, w, colStarts)
  }

  lemma {:induction false} RowScanMembership(y: int, x: int, w: int, p: Pixel)
    ensures p in RowScan(y, x, w) <==> p.y == y && x <= p.x < w && (p.x - x) % 2 == 0
    decreases w - x
  {
    if x < w {
      RowScanMembership(y, x + 2, w, p);
    }
  }

  lemma {:induction false} ScanFromMembership(y: int, h: int, w: int, colStarts: seq<int>, p: Pixel)
    requires 0 <= y && |colStarts| == h
    ensures p in ScanFrom(y, h, w, colStarts) <==>
      y <= p.y < h && (p.y - y) % 2 == 0 && colStarts[p.y] <= p.x < w && (p.x - colStarts[p.y]) % 2 == 0
    decreases h - y
  {
    if y < h {
      RowScanMembership(y, colStarts[y], w, p);
      ScanFromMembership(y + 2, h, w, colStarts, p);
    }
  }

  /** The search visits exactly the in-grid pixels whose row and column have the drawn parities. */
  lemma ScanVisits(h: nat, w: nat, rowStart: int, colStarts: seq<int>, p: Pixel)
    requires ValidJitter(rowStart, colStarts, h)
    ensures p in ScanOrder(h, w, rowStart, colStarts) <==>
      0 <= p.y < h && 0 <= p.x < w && p.y % 2 == rowStart && p.x % 2 == colStarts[p.y]
  {
    ScanFromMembership(rowStart, h, w, colStarts, p);
  }

  lemma {:induction false} RowScanOrdered(y: int, x: int, w: int)
    ensures RowOrdered(RowScan(y, x, w), y, x, w)
    decreases w - x
  {
    if x < w {
      RowScanOrdered(y, x + 2, w);
      var rest := RowScan(y, x + 2, w);
      assert RowOrdered(rest, y, x + 1, w);
      HeadThenRow([Pixel(x, y)], rest, y, x, w);
    }
  }

  lemma {:induction false} ScanFromOrdered(y: int, h: int, w: int, colStarts: seq<int>)
    requires 0 <= y && |colStarts| == h
    ensures RowsOrdered(ScanFrom(y, h, w, colStarts), y, h)
    decreases h - y
  {
    if y < h {
      var row := RowScan(y, colStarts[y], w);
      var rest := ScanFrom(y + 2, h, w, colStarts);
      RowScanOrdered(y, colStarts[y], w);
      ScanFromOrdered(y + 2, h, w, colStarts);
      var s := row + rest;
      assert forall k :: 0 <= k < |row| ==> s[k] == row[k];
      assert forall k :: |row| <= k < |s| ==> s[k] == rest[k - |row|];
    }
  }

  /** The search visits pixels in strict row-major order, so no pixel is tested twice. */
  lemma ScanRowMajor(h: nat, w: nat, rowStart: int, colStarts: seq<int>)
    requires ValidJitter(rowStart, colStarts, h)
    ensures RowMajor(ScanOrder(h, w, rowStart, colStarts))
  {
    ScanFromOrdered(rowStart, h, w, colStarts);
  }

  // ---------------------------------------------------------------------
  // Candidate locations and the pick
  // ---------------------------------------------------------------------

  /** The visited pixels that pass the placement test, in visiting order. */
  function Candidates(m: Mask, kind: Kind, r: real, minRatio: real, pts: seq<Pixel>): (c: seq<Pixel>)
    requires r > 0.0
    ensures |c| <= |pts|
    decreases |pts|
  {
    if pts == [] then []
    else
      var last := pts[|pts| - 1];
      Candidates(m, kind, r, minRatio, pts[..|pts| - 1]) +
        (if Qualifies(m, kind, r, minRatio, last) then [last] else [])
  }

  /** The candidates are exactly the visited pixels that pass the test. */
  lemma {:induction false} CandidatesMembership(m: Mask, kind: Kind, r: real, minRatio: real, pts: seq<Pixel>, p: Pixel)
    requires r > 0.0
    ensures p in Candidates(m, kind, r, minRatio, pts) <==> p in pts && Qualifies(m, kind, r, minRatio, p)
    decreases |pts|
  {
    if pts != [] {
      var pre := pts[..|pts| - 1];
      CandidatesMembership(m, kind, r, minRatio, pre, p);
      assert pts == pre + [pts[|pts| - 1]];
    }
  }

  lemma {:induction false} CandidatesAppend(m: Mask, kind: Kind, r: real, minRatio: real, a: seq<Pixel>, b: seq<Pixel>)
    requires r > 0.0
    ensures Candidates(m, kind, r, minRatio, a + b) ==
      Candidates(m, kind, r, minRatio, a) + Candidates(m, kind, r, minRatio, b)
    decreases |b|
  {
    if b == [] {
      assert a + b == a;
    } else {
      var b', last := b[..|b| - 1], b[|b| - 1];
      var keep := if Qualifies(m, kind, r, minRatio, last) then [last] else [];
      CandidatesAppend(m, kind, r, minRatio, a, b');
      assert (a + b)[..|a + b| - 1] == a + b';
      assert (a + b)[|a + b| - 1] == last;
      assert Candidates(m, kind, r, minRatio, a + b) == Candidates(m, kind, r, minRatio, a + b') + keep;
      assert Candidates(m, kind, r, minRatio, b) == Candidates(m, kind, r, minRatio, b') + keep;
    }
  }

  /** When nothing before b passes, the first candidate of a + b + c is b's first. */
  lemma FirstCandidateInRow(m: Mask, kind: Kind, r: real, minRatio: real, a: seq<Pixel>, b: seq<Pixel>, c: seq<Pixel>)
    requires r > 0.0
    requires Candidates(m, kind, r, minRatio, a) == [] && Candidates(m, kind, r, minRatio, b) != []
    ensures Candidates(m, kind, r, minRatio, a + b + c) != []
    ensures Candidates(m, kind, r, minRatio, a + b + c)[0] == Candidates(m, kind, r, minRatio, b)[0]
  {
    CandidatesAppend(m, kind, r, minRatio, a, b);
    CandidatesAppend(m, kind, r, minRatio, a + b, c);
  }

  /** The first candidate is the first visited pixel that passes the test. */
  lemma {:induction false} FirstCandidateIsFirstQualifying(m: Mask, kind: Kind, r: real, minRatio: real, pts: seq<Pixel>)
    requires r > 0.0
    requires Candidates(m, kind, r, minRatio, pts) != []
    ensures exists i :: (0 <= i < |pts| && pts[i] == Candidates(m, kind, r, minRatio, pts)[0] &&
      forall j :: 0 <= j < i ==> !Qualifies(m, kind, r, minRatio, pts[j]))
    decreases |pts|
  {
    var n := |pts| - 1;
    var pre := pts[..n];
    var last := pts[n];
    assert forall i :: 0 <= i < n ==> pre[i] == pts[i];
    var c := Candidates(m, kind, r, minRatio, pts);
    var c' := Candidates(m, kind, r, minRatio, pre);
    assert c == c' + (if Qualifies(m, kind, r, minRatio, last) then [last] else []);
    if c' != [] {
      FirstCandidateIsFirstQualifying(m, kind, r, minRatio, pre);
      var i :| 0 <= i < n && pre[i] == c'[0] &&
        forall j :: 0 <= j < i ==> !Qualifies(m, kind, r, minRatio, pre[j]);
      assert c[0] == c'[0];
      assert pts[i] == c[0];
    } else {
      forall j | 0 <= j < n
        ensures !Qualifies(m, kind, r, minRatio, pts[j])
      {
        CandidatesMembership(m, kind, r, minRatio, pre, pre[j]);
      }
      assert last == c[0];
    }
  }

  /** A mask without a free cell offers no candidate. */
  lemma NoFreeCellNoCandidate(m: Mask, kind: Kind, r: real, minRatio: real, pts: seq<Pixel>)
    requires r > 0.0
    requires forall y, x :: 0 <= y < |m| && 0 <= x < |m[y]| ==> !m[y][x]
    ensures Candidates(m, kind, r, minRatio, pts) == []
  {
    var c := Candidates(m, kind, r, minRatio, pts);
    if c != [] {
      CandidatesMembership(m, kind, r, minRatio, pts, c[0]);
    }
  }

  /** On a completely free rectangular mask every pixel of the grid has overlap ratio 1. */
  lemma FreeMaskFullOverlap(m: Mask, g: Geometry)
    requires Rectangular(m)
    requires forall y, x :: 0 <= y < |m| && 0 <= x < |m[y]| ==> m[y][x]
    requires g.r > 0.0 && 0 <= g.x < Width(m) && 0 <= g.y < Height(m)
    ensures OverlapRatio(m, g) == 1.0
  {
    var w, h := Width(m), Height(m);
    var region := Region(g, w, h);
    RegionInGrid(g, w, h);
    RegionContainsCentre(g, w, h);
    forall i | 0 <= i < |region|
      ensures Free(m, region[i])
    {
      assert region[i] in region;
    }
    FreeCountFull(m, region);
    SelfRatio(|region| as real);
  }

  /**
   * On a completely free rectangular mask and a ratio of at most 1, every visited
   * pixel is a candidate, so the first-fit search returns the first pixel it visits.
   */
  lemma {:induction false} FreeMaskAllCandidates(m: Mask, kind: Kind, r: real, minRatio: real, pts: seq<Pixel>)
    requires Rectangular(m)
    requires forall y, x :: 0 <= y < |m| && 0 <= x < |m[y]| ==> m[y][x]
    requires r > 0.0 && minRatio <= 1.0
    requires forall p :: p in pts ==> 0 <= p.x < Width(m) && 0 <= p.y < Height(m)
    ensures Candidates(m, kind, r, minRatio, pts) == pts
    decreases |pts|
  {
    if pts != [] {
      var pre := pts[..|pts| - 1];
      var last := pts[|pts| - 1];
      assert pts == pre + [last];
      assert last in pts;
      assert forall p :: p in pre ==> p in pts;
      FreeMaskAllCandidates(m, kind, r, minRatio, pre);
      FreeMaskFullOverlap(m, Geometry(kind, last.x, last.y, r));
      assert Free(m, last);
      CandidatesSnoc(m, kind, r, minRatio, pre, last);
    }
  }

  /** floor(u * n) for a uniform fraction u: an index into a list of n elements. */
  function RandomIndex(u: real, n: nat): (i: nat)
    requires 0.0 <= u < 1.0 && n > 0
    ensures i < n
    ensures i as real <= Scale(u, n as real) < i as real + 1.0
  {
    ScaleBelow(u, n as real);
    Scale(u, n as real).Floor
  }

  /** The location FindLocation returns from its candidates: the first one, or a uniformly drawn one. */
  function Pick(cands: seq<Pixel>, useFirst: bool, u: real): (loc: Option<Pixel>)
    requires 0.0 <= u < 1.0
    ensures loc.Some? <==> cands != []
    ensures loc.Some? ==> loc.value in cands
    ensures loc.Some? && useFirst ==> loc.value == cands[0]
    ensures loc.Some? && !useFirst ==> loc.value == cands[RandomIndex(u, |cands|)]
  {
    if cands == [] then None
    else if useFirst then Some(cands[0])
    else Some(cands[RandomIndex(u, |cands|)])
  }

  /**
   * What a search result means: a returned location is a visited pixel that
   * passes the test at its position, and there is none exactly when no visited
   * pixel passes.
   */
  lemma LocationQualifies(m: Mask, kind: Kind, r: real, minRatio: real, scan: seq<Pixel>,
                          useFirst: bool, u: real)
    requires r > 0.0 && 0.0 <= u < 1.0
    ensures Pick(Candidates(m, kind, r, minRatio, scan), useFirst, u).Some? ==>
      Pick(Candidates(m, kind, r, minRatio, scan), useFirst, u).value in scan &&
      Qualifies(m, kind, r, minRatio, Pick(Candidates(m, kind, r, minRatio, scan), useFirst, u).value)
    ensures Pick(Candidates(m, kind, r, minRatio, scan), useFirst, u).None? <==>
      forall p :: p in scan ==> !Qualifies(m, kind, r, minRatio, p)
  {
    var loc := Pick(Candidates(m, kind, r, minRatio, scan), useFirst, u);
    if loc.Some? {
      CandidatesMembership(m, kind, r, minRatio, scan, loc.value);
    } else {
      forall p | p in scan
        ensures !Qualifies(m, kind, r, minRatio, p)
      {
        CandidatesMembership(m, kind, r, minRatio, scan, p);
      }
    }
  }

  lemma CandidatesSnoc(m: Mask, kind: Kind, r: real, minRatio: real, pts: seq<Pixel>, p: Pixel)
    requires r > 0.0
    ensures Candidates(m, kind, r, minRatio, pts + [p]) ==
      Candidates(m, kind, r, minRatio, pts) + (if Qualifies(m, kind, r, minRatio, p) then [p] else [])
  {
    assert (pts + [p])[..|pts|] == pts;
  }

  /** Where a search leaves the shape: at the last free visited pixel, or where it was. */
  function LastProbe(m: Mask, pts: seq<Pixel>, start: Pixel): (p: Pixel)
    ensures p == start || p in pts
    decreases |pts|
  {
    if pts == [] then start
    else
      var last := pts[|pts| - 1];
      assert pts == pts[..|pts| - 1] + [last];
      if Free(m, last) then last else LastProbe(m, pts[..|pts| - 1], start)
  }

  /**
   * The shape ends at a free visited pixel, the last one, when there is one, and
   * where it started otherwise.
   */
  lemma {:induction false} LastProbeIsLastFree(m: Mask, pts: seq<Pixel>, start: Pixel)
    ensures (exists i :: 0 <= i < |pts| && Free(m, pts[i])) ==>
      exists i :: 0 <= i < |pts| && pts[i] == LastProbe(m, pts, start) && Free(m, pts[i]) &&
        forall j :: i < j < |pts| ==> !Free(m, pts[j])
    ensures (forall i :: 0 <= i < |pts| ==> !Free(m, pts[i])) ==> LastProbe(m, pts, start) == start
    decreases |pts|
  {
    if pts != [] {
      var n := |pts| - 1;
      var pre := pts[..n];
      assert forall i :: 0 <= i < n ==> pre[i] == pts[i];
      LastProbeIsLastFree(m, pre, start);
      if Free(m, pts[n]) {
        assert pts[n] == LastProbe(m, pts, start);
      } else {
        assert LastProbe(m, pts, start) == LastProbe(m, pre, start);
        if exists i :: 0 <= i < |pts| && Free(m, pts[i]) {
          var k :| 0 <= k < |pts| && Free(m, pts[k]);
          assert Free(m, pre[k]);
          var i :| 0 <= i < n && pre[i] == LastProbe(m, pre, start) && Free(m, pre[i]) &&
            forall j :: i < j < n ==> !Free(m, pre[j]);
          assert forall j :: i < j < |pts| ==> !Free(m, pts[j]);
        }
      }
    }
  }

  lemma LastProbeSnoc(m: Mask, pts: seq<Pixel>, p: Pixel, start: Pixel)
    ensures LastProbe(m, pts + [p], start) == if Free(m, p) then p else LastProbe(m, pts, start)
  {
    assert (pts + [p])[..|pts|] == pts;
  }

  /** A search over a then b leaves the shape where a search over b from a's end would. */
  lemma {:induction false} LastProbeAppend(m: Mask, a: seq<Pixel>, b: seq<Pixel>, start: Pixel)
    ensures LastProbe(m, a + b, start) == LastProbe(m, b, LastProbe(m, a, start))
    decreases |b|
  {
    if b == [] {
      assert a + b == a;
    } else {
      var b' := b[..|b| - 1];
      LastProbeAppend(m, a, b', start);
      assert (a + b)[..|a + b| - 1] == a + b';
      assert (a + b)[|a + b| - 1] == b[|b| - 1];
    }
  }

  // ---------------------------------------------------------------------
  // The operations on a mask and a shape
  // ---------------------------------------------------------------------

  /** r = u * (max - min) + min for a uniform fraction u. */
  function RandomRadius(minRadius: real, maxRadius: real, u: real): (r: real)
    requires 0.0 <= u < 1.0
    ensures minRadius < maxRadius ==> minRadius <= r < maxRadius
    ensures minRadius == maxRadius ==> r == minRadius
    ensures maxRadius < minRadius ==> maxRadius < r <= minRadius
  {
    Interpolation(u, minRadius, maxRadius);
    Scale(u, maxRadius - minRadius) + minRadius
  }

  /** A new shape of the given kind at the origin, with a drawn radius and colour. */
  method GenerateRandomShape(kind: Kind, minRadius: real, maxRadius: real, u: real, color: Color)
    returns (shape: Shape)
    requires 0.0 <= u < 1.0
    ensures fresh(shape)
    ensures shape.kind == kind && shape.x == 0 && shape.y == 0 && shape.color == color
    ensures shape.r == RandomRadius(minRadius, maxRadius, u)
  {
    var r := RandomRadius(minRadius, maxRadius, u);
    shape := new Shape(kind, 0, 0, r, color);
  }

  /** The footprint size and the number of its pixels that are free. */
  method CountOverlap(mask: array2<bool>, pts: seq<Pixel>) returns (overlap: nat, area: nat)
    requires forall q :: q in pts ==> 0 <= q.x < mask.Length1 && 0 <= q.y < mask.Length0
    ensures area == |pts|
    ensures overlap == FreeCount(Cells(mask), pts)
  {
    overlap, area := 0, 0;
    var i := 0;
    while i < |pts|
      invariant 0 <= i <= |pts|
      invariant area == i
      invariant overlap == FreeCount(Cells(mask), pts[..i])
    {
      var q := pts[i];
      assert q in pts;
      area := area + 1;
      if mask[q.y, q.x] {
        overlap := overlap + 1;
      }
      assert pts[..i + 1][..i] == pts[..i];
      i := i + 1;
    }
    assert pts[..|pts|] == pts;
  }

  /**
   * The test at one visited pixel p: if its cell is free, the shape is moved to p
   * and the free fraction of its footprint is compared with minRatio.
   */
  method Probe(mask: array2<bool>, shape: Shape, p: Pixel, minRatio: real) returns (fits: bool)
    requires shape.r > 0.0
    requires 0 <= p.y < mask.Length0 && 0 <= p.x < mask.Length1
    modifies shape
    ensures shape.r == old(shape.r) && shape.color == old(shape.color)
    ensures fits == Qualifies(Cells(mask), shape.kind, shape.r, minRatio, p)
    ensures Pixel(shape.x, shape.y) == if mask[p.y, p.x] then p else Pixel(old(shape.x), old(shape.y))
  {
    var w, h := mask.Length1, mask.Length0;
    assert Width(Cells(mask)) == w;
    fits := false;
    if mask[p.y, p.x] {
      shape.x, shape.y := p.x, p.y;
      var region := shape.InsideRegion(w, h);
      RegionInGrid(shape.Geom(), w, h);
      RegionContainsCentre(shape.Geom(), w, h);
      var overlap, area := CountOverlap(mask, region);
      fits := overlap as real / area as real >= minRatio;
    }
  }

  /** A probe at p that extends a search over done by one pixel. */
  method ProbeNext(mask: array2<bool>, shape: Shape, p: Pixel, minRatio: real, ghost done: seq<Pixel>, ghost start: Pixel)
    returns (fits: bool)
    requires shape.r > 0.0
    requires 0 <= p.y < mask.Length0 && 0 <= p.x < mask.Length1
    requires Pixel(shape.x, shape.y) == LastProbe(Cells(mask), done, start)
    modifies shape
    ensures shape.r == old(shape.r) && shape.color == old(shape.color)
    ensures Candidates(Cells(mask), shape.kind, shape.r, minRatio, done + [p]) ==
      Candidates(Cells(mask), shape.kind, shape.r, minRatio, done) + (if fits then [p] else [])
    ensures Pixel(shape.x, shape.y) == LastProbe(Cells(mask), done + [p], start)
  {
    fits := Probe(mask, shape, p, minRatio);
    CandidatesSnoc(Cells(mask), shape.kind, shape.r, minRatio, done, p);
    LastProbeSnoc(Cells(mask), done, p, start);
  }

  /**
   * One row of the search: the pixels (x0, y), (x0 + 2, y), ... are probed in
   * turn. With useFirst the first passing pixel ends the row (and the search);
   * otherwise the passing pixels of the row are returned in visiting order.
   */
  method ScanRow(mask: array2<bool>, shape: Shape, minRatio: real, useFirst: bool, y: int, x0: int)
    returns (found: Option<Pixel>, rowLocations: seq<Pixel>)
    requires shape.r > 0.0
    requires 0 <= y < mask.Length0 && 0 <= x0
    modifies shape
    ensures shape.r == old(shape.r) && shape.color == old(shape.color)
    ensures found.Some? ==>
      useFirst && Candidates(Cells(mask), shape.kind, shape.r, minRatio, RowScan(y, x0, mask.Length1)) != [] &&
      found.value == Candidates(Cells(mask), shape.kind, shape.r, minRatio, RowScan(y, x0, mask.Length1))[0] &&
      Pixel(shape.x, shape.y) == found.value
    ensures found.None? ==>
      rowLocations == Candidates(Cells(mask), shape.kind, shape.r, minRatio, RowScan(y, x0, mask.Length1)) &&
      (useFirst ==> rowLocations == []) &&
      Pixel(shape.x, shape.y) == LastProbe(Cells(mask), RowScan(y, x0, mask.Length1), Pixel(old(shape.x), old(shape.y)))
  {
    var w := mask.Length1;
    ghost var m := Cells(mask);
    ghost var kind, r := shape.kind, shape.r;
    ghost var row := RowScan(y, x0, w);
    ghost var start := Pixel(shape.x, shape.y);
    ghost var done: seq<Pixel> := [];
    rowLocations := [];
    var x := x0;
    while x < w
      invariant 0 <= x
      invariant row == done + RowScan(y, x, w)
      invariant shape.r == r && shape.color == old(shape.color)
      invariant rowLocations == Candidates(m, kind, r, minRatio, done)
      invariant useFirst ==> rowLocations == []
      invariant Pixel(shape.x, shape.y) == LastProbe(m, done, start)
      decreases w - x
    {
      var p := Pixel(x, y);
      ghost var rest := RowScan(y, x + 2, w);
      Associative(done, [p], rest);
      var fits := ProbeNext(mask, shape, p, minRatio, done, start);
      done := done + [p];
      if fits {
        if useFirst {
          CandidatesAppend(m, kind, r, minRatio, done, rest);
          assert Candidates(m, kind, r, minRatio, row)[0] == p;
          assert Cells(mask) == m;
          return Some(p), rowLocations;
        }
        rowLocations := rowLocations + [p];
      }
      x := x + 2;
    }
    assert done + [] == done;
    assert Cells(mask) == m;
    return None, rowLocations;
  }

  /**
   * The rows rowStart, rowStart + 2, ... of the search, each from its own
   * column parity. With useFirst the first passing pixel ends the search;
   * otherwise all passing pixels are returned in visiting order.
   */
  method ScanRows(mask: array2<bool>, shape: Shape, minRatio: real, useFirst: bool,
                  rowStart: int, colStarts: seq<int>)
    returns (found: Option<Pixel>, locations: seq<Pixel>)
    requires shape.r > 0.0
    requires ValidJitter(rowStart, colStarts, mask.Length0)
    modifies shape
    ensures shape.r == old(shape.r) && shape.color == old(shape.color)
    ensures var scan := ScanOrder(mask.Length0, mask.Length1, rowStart, colStarts);
      var cands := Candidates(Cells(mask), shape.kind, shape.r, minRatio, scan);
      if found.Some? then
        useFirst && cands != [] && found.value == cands[0] && Pixel(shape.x, shape.y) == found.value
      else
        locations == cands && (useFirst ==> locations == []) &&
        Pixel(shape.x, shape.y) == LastProbe(Cells(mask), scan, Pixel(old(shape.x), old(shape.y)))
  {
    var h, w := mask.Length0, mask.Length1;
    ghost var m := Cells(mask);
    ghost var kind, r := shape.kind, shape.r;
    ghost var scan := ScanOrder(h, w, rowStart, colStarts);
    ghost var start := Pixel(shape.x, shape.y);
    ghost var scanned: seq<Pixel> := [];
    locations := [];
    var y := rowStart;
    while y < h
      invariant 0 <= y
      invariant scan == scanned + ScanFrom(y, h, w, colStarts)
      invariant shape.r == r && shape.color == old(shape.color)
      invariant locations == Candidates(m, kind, r, minRatio, scanned)
      invariant useFirst ==> locations == []
      invariant Pixel(shape.x, shape.y) == LastProbe(m, scanned, start)
      decreases h - y
    {
      ghost var row := RowScan(y, colStarts[y], w);
      ghost var rest := ScanFrom(y + 2, h, w, colStarts);
      Associative(scanned, row, rest);
      var hit, rowLocations := ScanRow(mask, shape, minRatio, useFirst, y, colStarts[y]);
      assert Cells(mask) == m;
      CandidatesAppend(m, kind, r, minRatio, scanned, row);
      if hit.Some? {
        FirstCandidateInRow(m, kind, r, minRatio, scanned, row, rest);
        return hit, locations;
      }
      LastProbeAppend(m, scanned, row, start);
      scanned := scanned + row;
      locations := locations + rowLocations;
      y := y + 2;
    }
    assert scan == scanned + [];
    assert scanned + [] == scanned;
    assert Cells(mask) == m;
    return None, locations;
  }

  /**
   * Searches the mask for a placement of the shape: the pixels of the parity grid
   * are visited row by row; at every free one the shape is moved there and the
   * free fraction of its footprint is compared with minRatio. With useFirst the
   * first pixel that passes is returned at once; otherwise all passing pixels are
   * collected and the fraction u picks one. The mask is not changed.
   */
  method FindLocation(mask: array2<bool>, shape: Shape, minRatio: real, useFirst: bool,
                      rowStart: int, colStarts: seq<int>, u: real)
    returns (loc: Option<Pixel>)
    requires mask.Length0 > 0
    requires shape.r > 0.0
    requires ValidJitter(rowStart, colStarts, mask.Length0)
    requires 0.0 <= u < 1.0
    modifies shape
    ensures shape.r == old(shape.r) && shape.color == old(shape.color)
    ensures loc == Pick(Candidates(Cells(mask), shape.kind, shape.r, minRatio,
                                   ScanOrder(mask.Length0, mask.Length1, rowStart, colStarts)), useFirst, u)
    ensures useFirst && loc.Some? ==> shape.x == loc.value.x && shape.y == loc.value.y
    ensures !(useFirst && loc.Some?) ==>
      Pixel(shape.x, shape.y) == LastProbe(Cells(mask), ScanOrder(mask.Length0, mask.Length1, rowStart, colStarts),
                                           Pixel(old(shape.x), old(shape.y)))
  {
    var found, locations := ScanRows(mask, shape, minRatio, useFirst, rowStart, colStarts);
    if found.Some? {
      return found;
    }
    if locations == [] {
      return None;
    }
    var index := RandomIndex(u, |locations|);
    return Some(locations[index]);
  }

  lemma Associative<T>(a: seq<T>, b: seq<T>, c: seq<T>)
    ensures (a + b) + c == a + (b + c)
  {
  }

  /** The mask after the listed pixels are marked occupied. */
  function Cleared(m: Mask, pts: seq<Pixel>): (c: Mask)
    ensures |c| == |m| && forall y :: 0 <= y < |m| ==> |c[y]| == |m[y]|
    ensures forall p :: Free(c, p) <==> Free(m, p) && p !in pts
  {
    seq(|m|, (y: int) requires 0 <= y < |m| =>
      seq(|m[y]|, (x: int) requires 0 <= x < |m[y]| => m[y][x] && Pixel(x, y) !in pts))
  }

  /** Grows the shape by padding and marks every cell of the grown footprint occupied. */
  method ClearMask(mask: array2<bool>, shape: Shape, padding: real)
    requires mask.Length0 > 0
    modifies mask, shape
    ensures shape.r == old(shape.r) + padding
    ensures shape.x == old(shape.x) && shape.y == old(shape.y) && shape.color == old(shape.color)
    ensures Cells(mask) == Cleared(old(Cells(mask)), Region(shape.Geom(), mask.Length1, mask.Length0))
  {
    shape.r := shape.r + padding;
    var region := shape.InsideRegion(mask.Length1, mask.Length0);
    RegionInGrid(shape.Geom(), mask.Length1, mask.Length0);
    var i := 0;
    while i < |region|
      modifies mask
      invariant 0 <= i <= |region|
      invariant forall yy, xx :: 0 <= yy < mask.Length0 && 0 <= xx < mask.Length1 ==>
        mask[yy, xx] == (old(mask[yy, xx]) && Pixel(xx, yy) !in region[..i])
    {
      var q := region[i];
      assert q in region;
      mask[q.y, q.x] := false;
      assert region[..i + 1] == region[..i] + [q];
      i := i + 1;
    }
    assert region[..|region|] == region;
    MaskExtensionality(Cells(mask), Cleared(old(Cells(mask)), region));
  }

  /** Padding a non-negative size before clearing covers at least the unpadded footprint. */
  lemma PaddedClearCoversFootprint(m: Mask, g: Geometry, padding: real, w: int, h: int, p: Pixel)
    requires g.r >= 0.0 && padding >= 0.0
    requires p in Region(g, w, h)
    ensures !Free(Cleared(m, Region(g.(r := g.r + padding), w, h)), p)
  {
    RegionMonotone(g, g.r + padding, w, h, p);
  }

  /** The colour of the image at the pixel the fraction u picks from pts. */
  predicate SampledColor(image: array2<Color>, pts: seq<Pixel>, u: real, c: Color)
    reads image
    requires 0.0 <= u < 1.0
  {
    pts != [] &&
    var q := pts[RandomIndex(u, |pts|)];
    0 <= q.y < image.Length0 && 0 <= q.x < image.Length1 && c == image[q.y, q.x]
  }

  /**
   * The colour c that SetColorFromImage gives a shape with geometry g and colour
   * c0: c0 when g covers no pixel of the image, else the sampled image colour.
   */
  predicate Colored(image: array2<Color>, g: Geometry, u: real, c0: Color, c: Color)
    reads image
    requires 0.0 <= u < 1.0
  {
    var reg := Region(g, image.Length1, image.Length0);
    (reg == [] ==> c == c0) && (reg != [] ==> SampledColor(image, reg, u, c))
  }

  /** Recolours the shape with the image colour of a uniformly drawn covered pixel, if it covers any. */
  method SetColorFromImage(image: array2<Color>, shape: Shape, u: real)
    requires image.Length0 > 0
    requires 0.0 <= u < 1.0
    modifies shape
    ensures shape.x == old(shape.x) && shape.y == old(shape.y) && shape.r == old(shape.r)
    ensures Region(shape.Geom(), image.Length1, image.Length0) == [] ==> shape.color == old(shape.color)
    ensures Region(shape.Geom(), image.Length1, image.Length0) != [] ==>
      SampledColor(image, Region(shape.Geom(), image.Length1, image.Length0), u, shape.color)
  {
    var region := shape.InsideRegion(image.Length1, image.Length0);
    RegionInGrid(shape.Geom(), image.Length1, image.Length0);
    var colors: seq<Color> := [];
    var i := 0;
    while i < |region|
      invariant 0 <= i <= |region|
      invariant |colors| == i
      invariant forall k :: 0 <= k < i ==> colors[k] == image[region[k].y, region[k].x]
    {
      assert region[i] in region;
      colors := colors + [image[region[i].y, region[i].x]];
      i := i + 1;
    }
    if colors == [] {
      return;
    }
    shape.color := colors[RandomIndex(u, |colors|)];
  }

  /** A pixel of the image counts as part of the mask when any colour channel is positive. */
  predicate IsLit(c: Color)
  {
    c.red > 0.0 || c.green > 0.0 || c.blue > 0.0
  }

  /** Builds the occupancy mask from an image: a cell is free exactly where the image is lit. */
  method MaskFromImage(image: array2<Color>) returns (mask: array2<bool>)
    ensures fresh(mask)
    ensures mask.Length0 == image.Length0 && mask.Length1 == image.Length1
    ensures forall p :: Free(Cells(mask), p) <==>
      0 <= p.y < image.Length0 && 0 <= p.x < image.Length1 && IsLit(image[p.y, p.x])
  {
    mask := new bool[image.Length0, image.Length1];
    var y := 0;
    while y < image.Length0
      invariant 0 <= y <= image.Length0
      invariant forall yy, xx :: 0 <= yy < y && 0 <= xx < image.Length1 ==> mask[yy, xx] == IsLit(image[yy, xx])
    {
      var x := 0;
      while x < image.Length1
        invariant 0 <= x <= image.Length1
        invariant forall yy, xx :: 0 <= yy < y && 0 <= xx < image.Length1 ==> mask[yy, xx] == IsLit(image[yy, xx])
        invariant forall xx :: 0 <= xx < x ==> mask[y, xx] == IsLit(image[y, xx])
      {
        mask[y, x] := IsLit(image[y, x]);
        x := x + 1;
      }
      y := y + 1;
    }
  }

  // ---------------------------------------------------------------------
  // The driver loop
  // ---------------------------------------------------------------------

  /** The radius gap after k shrinks, each keeping 80% of it. */
  function Decayed(gap: real, k: nat): real
  {
    if k == 0 then gap else 0.8 * Decayed(gap, k - 1)
  }

  /** The new maximum radius after a failed search: 20% of the way from the maximum to the minimum. */
  function Shrink(minRadius: real, maxRadius: real): (m: real)
    ensures m - minRadius == 0.8 * (maxRadius - minRadius)
    ensures maxRadius > minRadius ==> minRadius < m < maxRadius
  {
    minRadius * 0.2 + maxRadius * 0.8
  }

  lemma {:induction false} DecayedInside(gap: real, k: nat)
    ensures Decayed(gap, k + 1) == Decayed(0.8 * gap, k)
  {
    if k > 0 {
      DecayedInside(gap, k - 1);
    }
  }

  /** A positive gap stays positive and never grows. */
  lemma {:induction false} DecayedRange(gap: real, k: nat)
    requires gap > 0.0
    ensures 0.0 < Decayed(gap, k) <= gap
  {
    if k > 0 {
      DecayedRange(gap, k - 1);
    }
  }

  /** A gap that still exceeds 1 after k shrinks started above 1 + k / 4. */
  lemma {:induction false} DecayCountBound(gap: real, k: nat)
    requires Decayed(gap, k) > 1.0
    ensures gap > 1.0 + 0.25 * k as real
    decreases k
  {
    if k > 0 {
      DecayedInside(gap, k - 1);
      DecayCountBound(0.8 * gap, k - 1);
    }
  }

  /**
   * The packer's maximum radius after a number of shrinks of the range
   * [minRadius, maxRadius]: the gap to the minimum has decayed by 80% per
   * shrink, stays inside the range, and the count of shrinks is bounded by the
   * initial gap.
   */
  predicate Schedule(minRadius: real, maxRadius: real, maxR: real, shrinks: nat)
  {
    maxR >= 0.0 && maxR - minRadius == Decayed(maxRadius - minRadius, shrinks) &&
    (minRadius < maxRadius ==> minRadius < maxR <= maxRadius) &&
    (shrinks as real <= 4.0 * (maxRadius - minRadius - 1.0) + 1.0 || shrinks == 0)
  }

  /** A shrink taken while the maximum is more than 1 above the minimum keeps the schedule. */
  lemma ScheduleShrink(minRadius: real, maxRadius: real, maxR: real, shrinks: nat)
    requires minRadius > 0.0 && Schedule(minRadius, maxRadius, maxR, shrinks)
    requires maxR > minRadius + 1.0
    ensures Schedule(minRadius, maxRadius, Shrink(minRadius, maxR), shrinks + 1)
  {
    DecayCountBound(maxRadius - minRadius, shrinks);
  }

  /** The random values one iteration of the packer draws. */
  datatype Draw = Draw(radius: real, color: Color, rowStart: int, colStarts: seq<int>, colorPick: real)

  predicate ValidDraw(d: Draw, h: int)
  {
    0.0 <= d.radius < 1.0 && ValidJitter(d.rowStart, d.colStarts, h) && 0.0 <= d.colorPick < 1.0
  }

  /**
   * One placement step: the shape, shown with its final (padded) geometry g, had
   * passed the first-fit test on the mask before at its unpadded size, and the
   * mask after is the one before with g's footprint cleared.
   */
  predicate Placement(before: Mask, after: Mask, g: Geometry, w: int, h: int)
  {
    g.r > DefaultPadding &&
    Qualifies(before, g.kind, g.r - DefaultPadding, DefaultMinOverlapRatio, Pixel(g.x, g.y)) &&
    after == Cleared(before, Region(g, w, h))
  }

  /** The geometry a placed shape had while it was searched for and coloured, before the padding. */
  function Unpadded(g: Geometry): (u: Geometry)
    ensures u.kind == g.kind && u.x == g.x && u.y == g.y && u.r + DefaultPadding == g.r
  {
    g.(r := g.r - DefaultPadding)
  }

  /**
   * The search with the i-th draw's radius and parities finds no placement on
   * mask m: the test for the packer's stop.
   */
  predicate NoPlacement(m: Mask, kind: Kind, minRadius: real, maxRadius: real, d: Draw)
  {
    minRadius > 0.0 && maxRadius >= 0.0 && ValidDraw(d, Height(m)) &&
    Candidates(m, kind, RandomRadius(minRadius, maxRadius, d.radius), DefaultMinOverlapRatio,
               ScanOrder(Height(m), Width(m), d.rowStart, d.colStarts)) == []
  }

  /**
   * The shape with final (padded) geometry g sits where the first-fit search
   * with draw d's parities put it on mask m: at the first visited pixel that
   * passes the test at its unpadded size.
   */
  predicate FirstFit(m: Mask, g: Geometry, d: Draw)
  {
    g.r > DefaultPadding && ValidDraw(d, Height(m)) &&
    var c := Candidates(m, g.kind, g.r - DefaultPadding, DefaultMinOverlapRatio,
                        ScanOrder(Height(m), Width(m), d.rowStart, d.colStarts));
    c != [] && Pixel(g.x, g.y) == c[0]
  }

  /** The k-th recorded step is a valid placement of placed[k] on history[k], giving history[k + 1]. */
  ghost predicate StepAt(history: seq<Mask>, placed: seq<Geometry>, w: int, h: int, k: int)
  {
    0 <= k < |placed| && k + 1 < |history| && Placement(history[k], history[k + 1], placed[k], w, h)
  }

  /** p lies under the footprint of the k-th placed shape. */
  predicate Covers(placed: seq<Geometry>, w: int, h: int, k: int, p: Pixel)
  {
    0 <= k < |placed| && p in Region(placed[k], w, h)
  }

  /** The j-th shape is not centred on the footprint of the k-th. */
  predicate Apart(placed: seq<Geometry>, w: int, h: int, j: int, k: int)
  {
    0 <= k < |placed| && 0 <= j < |placed| && Pixel(placed[j].x, placed[j].y) !in Region(placed[k], w, h)
  }

  /**
   * The record of a packing so far: history[k] is the mask before the k-th
   * placement and history[k + 1] the mask after it. Every placement is valid,
   * the current mask is occupied on every cleared footprint, and no shape is
   * centred on the footprint of an earlier one.
   */
  ghost predicate Packed(history: seq<Mask>, placed: seq<Geometry>, w: int, h: int)
  {
    |history| == |placed| + 1 &&
    (forall k :: 0 <= k < |placed| ==> StepAt(history, placed, w, h, k)) &&
    (forall k, p :: Covers(placed, w, h, k, p) ==> !Free(history[|placed|], p)) &&
    (forall j, k :: 0 <= k < j < |placed| ==> Apart(placed, w, h, j, k))
  }

  /** A valid placement on the current mask extends the record. */
  lemma PackedExtend(history: seq<Mask>, placed: seq<Geometry>, w: int, h: int, after: Mask, g: Geometry)
    requires Packed(history, placed, w, h)
    requires Placement(history[|placed|], after, g, w, h)
    ensures Packed(history + [after], placed + [g], w, h)
  {
    var before := history[|placed|];
    var history', placed' := history + [after], placed + [g];
    var n := |placed|;
    assert Free(before, Pixel(g.x, g.y));
    forall k | 0 <= k < |placed'|
      ensures StepAt(history', placed', w, h, k)
    {
      if k < n {
        assert StepAt(history, placed, w, h, k);
        assert history'[k] == history[k] && history'[k + 1] == history[k + 1] && placed'[k] == placed[k];
      }
    }
    forall k, p | Covers(placed', w, h, k, p)
      ensures !Free(after, p)
    {
      if k < n {
        assert placed'[k] == placed[k];
        assert Covers(placed, w, h, k, p);
      }
    }
    forall j, k | 0 <= k < j < |placed'|
      ensures Apart(placed', w, h, j, k)
    {
      assert placed'[k] == if k < n then placed[k] else g;
      if j < n {
        assert Apart(placed, w, h, j, k);
        assert placed'[j] == placed[j];
      } else {
        assert placed'[j] == g;
        assert Covers(placed, w, h, k, Pixel(g.x, g.y)) ==> !Free(before, Pixel(g.x, g.y));
      }
    }
  }

  /** Every mask of the record has the dimensions of the first. */
  lemma {:induction false} DimsKept(history: seq<Mask>, placed: seq<Geometry>, w: int, h: int, k: nat)
    requires Packed(history, placed, w, h) && k <= |placed|
    ensures Height(history[k]) == Height(history[0]) && Width(history[k]) == Width(history[0])
  {
    if k > 0 {
      DimsKept(history, placed, w, h, k - 1);
      assert StepAt(history, placed, w, h, k - 1);
    }
  }

  /** No two placements of the record are the same: a later one is centred off every earlier footprint. */
  lemma PlacedDistinct(history: seq<Mask>, placed: seq<Geometry>, w: int, h: int, j: int, k: int)
    requires Packed(history, placed, w, h)
    requires Width(history[0]) == w && Height(history[0]) == h
    requires 0 <= k < j < |placed|
    ensures placed[j] != placed[k]
  {
    assert StepAt(history, placed, w, h, j);
    DimsKept(history, placed, w, h, j);
    RegionContainsCentre(placed[j], w, h);
    assert Apart(placed, w, h, j, k);
  }

  /** Cells only ever go from free to occupied: a cell free later was free earlier. */
  lemma {:induction false} PackedMonotone(history: seq<Mask>, placed: seq<Geometry>, w: int, h: int,
                                          j: nat, k: nat, p: Pixel)
    requires Packed(history, placed, w, h)
    requires j <= k <= |placed|
    requires Free(history[k], p)
    ensures Free(history[j], p)
    decreases k - j
  {
    if j < k {
      assert StepAt(history, placed, w, h, k - 1);
      PackedMonotone(history, placed, w, h, j, k - 1, p);
    }
  }

  /**
   * Every recorded shape has the given kind and, when lo < hi, a drawn
   * (unpadded) radius in [lo, hi).
   */
  predicate Drawn(placed: seq<Geometry>, kind: Kind, lo: real, hi: real)
  {
    forall k :: 0 <= k < |placed| ==>
      placed[k].kind == kind && (lo < hi ==> lo <= placed[k].r - DefaultPadding < hi)
  }

  /** A shape of the kind with a radius drawn from [lo, hi) extends the record. */
  lemma DrawnExtend(placed: seq<Geometry>, kind: Kind, lo: real, hi: real, g: Geometry)
    requires Drawn(placed, kind, lo, hi)
    requires g.kind == kind && (lo < hi ==> lo <= g.r - DefaultPadding < hi)
    ensures Drawn(placed + [g], kind, lo, hi)
  {
  }

  /** Placement k sits where the first-fit search of round rounds[k] put it on the mask just before it. */
  ghost predicate RoundAt(history: seq<Mask>, placed: seq<Geometry>, rounds: seq<nat>, draws: seq<Draw>, k: int)
  {
    0 <= k < |placed| && k < |history| && k < |rounds| && rounds[k] < |draws| &&
    FirstFit(history[k], placed[k], draws[rounds[k]])
  }

  /**
   * Placement k came from round rounds[k] of the packer: it sits where that
   * round's first-fit search put it on the mask just before it. Rounds are
   * strictly increasing and below the current one.
   */
  ghost predicate FirstFits(history: seq<Mask>, placed: seq<Geometry>, rounds: seq<nat>, draws: seq<Draw>, i: nat)
  {
    |rounds| == |placed| <= |history| &&
    (forall k :: 0 <= k < |placed| ==> RoundAt(history, placed, rounds, draws, k)) &&
    (forall k :: 0 <= k < |rounds| ==> rounds[k] < i) &&
    (forall j, k :: 0 <= j < k < |rounds| ==> rounds[j] < rounds[k])
  }

  /** A round that places nothing keeps the record. */
  lemma FirstFitsLater(history: seq<Mask>, placed: seq<Geometry>, rounds: seq<nat>, draws: seq<Draw>, i: nat)
    requires FirstFits(history, placed, rounds, draws, i)
    ensures FirstFits(history, placed, rounds, draws, i + 1)
  {
  }

  /** A round that places a shape where its first-fit search put it extends the record. */
  lemma FirstFitsExtend(history: seq<Mask>, placed: seq<Geometry>, rounds: seq<nat>, draws: seq<Draw>, i: nat,
                        after: Mask, g: Geometry)
    requires FirstFits(history, placed, rounds, draws, i)
    requires |history| == |placed| + 1 && i < |draws|
    requires FirstFit(history[|placed|], g, draws[i])
    ensures FirstFits(history + [after], placed + [g], rounds + [i], draws, i + 1)
  {
    var history', placed', rounds' := history + [after], placed + [g], rounds + [i];
    forall k | 0 <= k < |placed'|
      ensures RoundAt(history', placed', rounds', draws, k)
    {
      if k < |placed| {
        assert RoundAt(history, placed, rounds, draws, k);
        assert history'[k] == history[k] && placed'[k] == placed[k] && rounds'[k] == rounds[k];
      }
    }
  }

  /** Round j is one of the placing rounds. */
  predicate PlacedIn(rounds: seq<nat>, j: int)
  {
    j in rounds
  }

  /**
   * Placement k came from round rounds[k]: k shapes were placed before that round
   * and k + 1 after it, the round kept the maximum radius, and the shape's radius
   * was drawn from that round's range, minRadius to maxes[rounds[k]].
   */
  ghost predicate RadiusAt(placed: seq<Geometry>, rounds: seq<nat>, at: seq<nat>, maxes: seq<real>,
                           draws: seq<Draw>, minRadius: real, k: int)
  {
    0 <= k < |placed| && k < |rounds| && rounds[k] + 1 < |at| && rounds[k] + 1 < |maxes| && rounds[k] < |draws| &&
    at[rounds[k]] == k && at[rounds[k] + 1] == k + 1 && maxes[rounds[k] + 1] == maxes[rounds[k]] &&
    0.0 <= draws[rounds[k]].radius < 1.0 &&
    placed[k].r == RandomRadius(minRadius, maxes[rounds[k]], draws[rounds[k]].radius) + DefaultPadding
  }

  /**
   * Round j shrank the maximum radius: its search with the radius range of that
   * round found no place on the mask of that moment, the range was wider than 1,
   * and the next round starts from the shrunk maximum with no new shape.
   */
  ghost predicate ShrinkAt(history: seq<Mask>, at: seq<nat>, maxes: seq<real>, draws: seq<Draw>,
                           kind: Kind, minRadius: real, j: int)
  {
    0 <= j && j + 1 < |at| && j + 1 < |maxes| && j < |draws| && at[j] < |history| &&
    at[j + 1] == at[j] && maxes[j] > minRadius + 1.0 && maxes[j + 1] == Shrink(minRadius, maxes[j]) &&
    NoPlacement(history[at[j]], kind, minRadius, maxes[j], draws[j])
  }

  /**
   * The trace of the first i rounds of the packer: at[j] shapes were placed and
   * the maximum radius was maxes[j] when round j started; every round either
   * placed a shape, drawn from its own radius range, or shrank the range after a
   * failed search.
   */
  ghost predicate Trace(history: seq<Mask>, placed: seq<Geometry>, rounds: seq<nat>, at: seq<nat>, maxes: seq<real>,
                        draws: seq<Draw>, kind: Kind, minRadius: real, maxRadius: real, i: nat)
  {
    |rounds| == |placed| && |at| == i + 1 && |maxes| == i + 1 &&
    at[0] == 0 && maxes[0] == maxRadius && at[i] == |placed| &&
    (forall k :: 0 <= k < |placed| ==> RadiusAt(placed, rounds, at, maxes, draws, minRadius, k)) &&
    (forall j :: 0 <= j < i ==> PlacedIn(rounds, j) || ShrinkAt(history, at, maxes, draws, kind, minRadius, j))
  }

  /** A shrinking round extends the trace. */
  lemma TraceShrink(history: seq<Mask>, placed: seq<Geometry>, rounds: seq<nat>, at: seq<nat>, maxes: seq<real>,
                    draws: seq<Draw>, kind: Kind, minRadius: real, maxRadius: real, i: nat)
    requires Trace(history, placed, rounds, at, maxes, draws, kind, minRadius, maxRadius, i)
    requires i < |draws| && |placed| < |history|
    requires maxes[i] > minRadius + 1.0
    requires NoPlacement(history[|placed|], kind, minRadius, maxes[i], draws[i])
    ensures Trace(history, placed, rounds, at + [|placed|], maxes + [Shrink(minRadius, maxes[i])],
                  draws, kind, minRadius, maxRadius, i + 1)
  {
    var at', maxes' := at + [|placed|], maxes + [Shrink(minRadius, maxes[i])];
    forall k | 0 <= k < |placed|
      ensures RadiusAt(placed, rounds, at', maxes', draws, minRadius, k)
    {
      assert RadiusAt(placed, rounds, at, maxes, draws, minRadius, k);
    }
    forall j | 0 <= j < i + 1
      ensures PlacedIn(rounds, j) || ShrinkAt(history, at', maxes', draws, kind, minRadius, j)
    {
      if j < i && !PlacedIn(rounds, j) {
        assert ShrinkAt(history, at, maxes, draws, kind, minRadius, j);
      }
    }
  }

  /** A placing round, with the radius drawn from the round's range, extends the trace. */
  lemma TracePlace(history: seq<Mask>, placed: seq<Geometry>, rounds: seq<nat>, at: seq<nat>, maxes: seq<real>,
                   draws: seq<Draw>, kind: Kind, minRadius: real, maxRadius: real, i: nat,
                   after: Mask, g: Geometry)
    requires Trace(history, placed, rounds, at, maxes, draws, kind, minRadius, maxRadius, i)
    requires i < |draws| && 0.0 <= draws[i].radius < 1.0
    requires g.r == RandomRadius(minRadius, maxes[i], draws[i].radius) + DefaultPadding
    ensures Trace(history + [after], placed + [g], rounds + [i], at + [|placed| + 1], maxes + [maxes[i]],
                  draws, kind, minRadius, maxRadius, i + 1)
  {
    var history', placed', rounds' := history + [after], placed + [g], rounds + [i];
    var at', maxes' := at + [|placed| + 1], maxes + [maxes[i]];
    forall k | 0 <= k < |placed'|
      ensures RadiusAt(placed', rounds', at', maxes', draws, minRadius, k)
    {
      if k < |placed| {
        assert RadiusAt(placed, rounds, at, maxes, draws, minRadius, k);
      }
    }
    forall j | 0 <= j < i + 1
      ensures PlacedIn(rounds', j) || ShrinkAt(history', at', maxes', draws, kind, minRadius, j)
    {
      if j == i {
        assert rounds'[|placed|] == i;
      } else if PlacedIn(rounds, j) {
        assert PlacedIn(rounds', j);
      } else {
        assert ShrinkAt(history, at, maxes, draws, kind, minRadius, j);
      }
    }
  }

  /**
   * Placement k has the colour SetColorFromImage gave it in round rounds[k]: the
   * sampled image colour under its unpadded footprint, or that round's drawn
   * colour when the footprint misses the image.
   */
  predicate ColorAt(image: array2<Color>, placed: seq<Geometry>, rounds: seq<nat>, draws: seq<Draw>, k: int, c: Color)
    reads image
  {
    0 <= k < |placed| && k < |rounds| && rounds[k] < |draws| && 0.0 <= draws[rounds[k]].colorPick < 1.0 &&
    Colored(image, Unpadded(placed[k]), draws[rounds[k]].colorPick, draws[rounds[k]].color, c)
  }

  /** Recording a placement keeps the colours of the earlier shapes and adds the new one's. */
  lemma ColorsExtend(image: array2<Color>, placed: seq<Geometry>, rounds: seq<nat>, draws: seq<Draw>, i: nat,
                     g: Geometry, shapes: seq<Shape>, shape: Shape)
    requires |rounds| == |placed| == |shapes| && i < |draws| && 0.0 <= draws[i].colorPick < 1.0
    requires forall k :: 0 <= k < |shapes| ==> ColorAt(image, placed, rounds, draws, k, shapes[k].color)
    requires Colored(image, Unpadded(g), draws[i].colorPick, draws[i].color, shape.color)
    ensures forall k :: 0 <= k < |shapes| + 1 ==>
      ColorAt(image, placed + [g], rounds + [i], draws, k, (shapes + [shape])[k].color)
  {
    forall k | 0 <= k < |shapes| + 1
      ensures ColorAt(image, placed + [g], rounds + [i], draws, k, (shapes + [shape])[k].color)
    {
      if k < |shapes| {
        assert ColorAt(image, placed, rounds, draws, k, shapes[k].color);
      }
    }
  }

  /**
   * What the record says of placement k: its centre is a pixel its round's
   * search visited on the mask before it, passes the test there at the unpadded
   * size, and every pixel visited before it fails the test.
   */
  lemma PlacedAtFirstQualifying(history: seq<Mask>, placed: seq<Geometry>, rounds: seq<nat>, draws: seq<Draw>,
                                i: nat, k: nat)
    requires FirstFits(history, placed, rounds, draws, i)
    requires k < |placed|
    ensures rounds[k] < i && rounds[k] < |draws|
    ensures placed[k].r > DefaultPadding && ValidDraw(draws[rounds[k]], Height(history[k]))
    ensures exists n ::
      var scan := ScanOrder(Height(history[k]), Width(history[k]), draws[rounds[k]].rowStart, draws[rounds[k]].colStarts);
      0 <= n < |scan| && scan[n] == Pixel(placed[k].x, placed[k].y) &&
      Qualifies(history[k], placed[k].kind, placed[k].r - DefaultPadding, DefaultMinOverlapRatio, scan[n]) &&
      forall j :: 0 <= j < n ==>
        !Qualifies(history[k], placed[k].kind, placed[k].r - DefaultPadding, DefaultMinOverlapRatio, scan[j])
  {
    assert RoundAt(history, placed, rounds, draws, k);
    var m, g, d := history[k], placed[k], draws[rounds[k]];
    var scan := ScanOrder(Height(m), Width(m), d.rowStart, d.colStarts);
    var c := Candidates(m, g.kind, g.r - DefaultPadding, DefaultMinOverlapRatio, scan);
    FirstCandidateIsFirstQualifying(m, g.kind, g.r - DefaultPadding, DefaultMinOverlapRatio, scan);
    CandidatesMembership(m, g.kind, g.r - DefaultPadding, DefaultMinOverlapRatio, scan, c[0]);
  }

  /** A mask without a free cell at the start receives no shape. */
  lemma EmptyMaskPlacesNothing(history: seq<Mask>, placed: seq<Geometry>, rounds: seq<nat>, draws: seq<Draw>,
                               i: nat)
    requires FirstFits(history, placed, rounds, draws, i) && |history| > 0
    requires forall y, x :: 0 <= y < |history[0]| && 0 <= x < |history[0][y]| ==> !history[0][y][x]
    ensures placed == []
  {
    if placed != [] {
      assert RoundAt(history, placed, rounds, draws, 0);
      var m, g, d := history[0], placed[0], draws[rounds[0]];
      NoFreeCellNoCandidate(m, g.kind, g.r - DefaultPadding, DefaultMinOverlapRatio,
                            ScanOrder(Height(m), Width(m), d.rowStart, d.colStarts));
      assert false;
    }
  }

  /** Moves the shape to p, recolours it from the image and clears its padded footprint. */
  method PlaceShape(mask: array2<bool>, image: array2<Color>, shape: Shape, p: Pixel, colorPick: real)
    requires mask.Length0 > 0 && image.Length0 > 0
    requires 0.0 <= colorPick < 1.0
    modifies mask, shape
    ensures shape.Geom() == Geometry(shape.kind, p.x, p.y, old(shape.r) + DefaultPadding)
    ensures Colored(image, Geometry(shape.kind, p.x, p.y, old(shape.r)), colorPick, old(shape.color), shape.color)
    ensures Cells(mask) == Cleared(old(Cells(mask)), Region(shape.Geom(), mask.Length1, mask.Length0))
  {
    shape.x, shape.y := p.x, p.y;
    SetColorFromImage(image, shape, colorPick);
    ClearMask(mask, shape, DefaultPadding);
  }

  /**
   * One round of the packer: draws a shape with a radius in the current range,
   * searches the mask first-fit and, on success, moves the shape there,
   * recolours it and clears its padded footprint. On failure the mask is left
   * as it was.
   */
  method PackStep(mask: array2<bool>, image: array2<Color>, kind: Kind,
                  minRadius: real, maxRadius: real, d: Draw)
    returns (result: Option<Shape>)
    requires minRadius > 0.0 && maxRadius >= 0.0
    requires ValidDraw(d, mask.Length0) && mask.Length0 > 0 && image.Length0 > 0
    modifies mask
    ensures result.None? ==>
      Cells(mask) == old(Cells(mask)) && NoPlacement(Cells(mask), kind, minRadius, maxRadius, d)
    ensures result.Some? ==>
      fresh(result.value) && result.value.kind == kind &&
      result.value.r == RandomRadius(minRadius, maxRadius, d.radius) + DefaultPadding &&
      Placement(old(Cells(mask)), Cells(mask), result.value.Geom(), mask.Length1, mask.Length0) &&
      FirstFit(old(Cells(mask)), result.value.Geom(), d) &&
      Colored(image, Unpadded(result.value.Geom()), d.colorPick, d.color, result.value.color)
  {
    var h, w := mask.Length0, mask.Length1;
    ghost var before := Cells(mask);
    assert Height(before) == h && Width(before) == w;
    var shape := GenerateRandomShape(kind, minRadius, maxRadius, d.radius, d.color);
    var location := FindLocation(mask, shape, DefaultMinOverlapRatio, true, d.rowStart, d.colStarts, 0.0);
    ghost var scan := ScanOrder(h, w, d.rowStart, d.colStarts);
    assert location == Pick(Candidates(before, kind, shape.r, DefaultMinOverlapRatio, scan), true, 0.0);
    if location.None? {
      return None;
    }
    var p := location.value;
    ghost var r0 := shape.r;
    CandidatesMembership(before, kind, r0, DefaultMinOverlapRatio, scan, p);
    PlaceShape(mask, image, shape, p, d.colorPick);
    assert Unpadded(shape.Geom()) == Geometry(kind, p.x, p.y, r0);
    return Some(shape);
  }

  /**
   * One round of the packer on the record of the rounds before: a failed search
   * leaves mask and record alone; a placement extends the record with the new
   * shape's geometry, the cleared mask, the round's index, its radius range and
   * the colour the shape was given.
   */
  method PackRound(mask: array2<bool>, image: array2<Color>, kind: Kind, minRadius: real,
                   maxRadius: real, maxR: real, draws: seq<Draw>, i: nat,
                   ghost history: seq<Mask>, ghost placed: seq<Geometry>, ghost rounds: seq<nat>,
                   ghost at: seq<nat>, ghost maxes: seq<real>, ghost shapes: seq<Shape>)
    returns (result: Option<Shape>)
    requires minRadius > 0.0 && maxR >= 0.0
    requires minRadius < maxRadius ==> minRadius < maxR <= maxRadius
    requires i < |draws| && ValidDraw(draws[i], mask.Length0) && mask.Length0 > 0 && image.Length0 > 0
    requires Packed(history, placed, mask.Length1, mask.Length0) && history[|placed|] == Cells(mask)
    requires Drawn(placed, kind, minRadius, maxRadius)
    requires FirstFits(history, placed, rounds, draws, i)
    requires Trace(history, placed, rounds, at, maxes, draws, kind, minRadius, maxRadius, i) && maxes[i] == maxR
    requires |shapes| == |placed| && forall k :: 0 <= k < |shapes| ==> ColorAt(image, placed, rounds, draws, k, shapes[k].color)
    modifies mask
    ensures result.None? ==>
      Cells(mask) == old(Cells(mask)) && NoPlacement(Cells(mask), kind, minRadius, maxR, draws[i])
    ensures result.Some? ==>
      fresh(result.value) &&
      result.value.r == RandomRadius(minRadius, maxR, draws[i].radius) + DefaultPadding &&
      Packed(history + [Cells(mask)], placed + [result.value.Geom()], mask.Length1, mask.Length0) &&
      Drawn(placed + [result.value.Geom()], kind, minRadius, maxRadius) &&
      FirstFits(history + [Cells(mask)], placed + [result.value.Geom()], rounds + [i], draws, i + 1) &&
      Trace(history + [Cells(mask)], placed + [result.value.Geom()], rounds + [i], at + [|placed| + 1], maxes + [maxR],
            draws, kind, minRadius, maxRadius, i + 1) &&
      forall k :: 0 <= k < |shapes| + 1 ==>
        ColorAt(image, placed + [result.value.Geom()], rounds + [i], draws, k, (shapes + [result.value])[k].color)
  {
    ghost var before := Cells(mask);
    result := PackStep(mask, image, kind, minRadius, maxR, draws[i]);
    if result.Some? {
      ghost var g := result.value.Geom();
      PackedExtend(history, placed, mask.Length1, mask.Length0, Cells(mask), g);
      DrawnExtend(placed, kind, minRadius, maxRadius, g);
      FirstFitsExtend(history, placed, rounds, draws, i, Cells(mask), g);
      TracePlace(history, placed, rounds, at, maxes, draws, kind, minRadius, maxRadius, i, Cells(mask), g);
      ColorsExtend(image, placed, rounds, draws, i, g, shapes, result.value);
    }
  }

  /** What the packer's loop keeps true after i rounds: the record of the rounds behind it. */
  ghost predicate Progress(mask: array2<bool>, image: array2<Color>, kind: Kind, minRadius: real, maxRadius: real,
                           draws: seq<Draw>, i: nat, maxR: real, shrinks: nat, history: seq<Mask>,
                           placed: seq<Geometry>, rounds: seq<nat>, at: seq<nat>, maxes: seq<real>, shapes: seq<Shape>)
    reads mask, image, shapes
  {
    i <= MaxIterations && |shapes| + shrinks == i && |placed| == |shapes| &&
    Packed(history, placed, mask.Length1, mask.Length0) && history[|shapes|] == Cells(mask) &&
    Drawn(placed, kind, minRadius, maxRadius) &&
    Schedule(minRadius, maxRadius, maxR, shrinks) &&
    (forall k :: 0 <= k < |shapes| ==> shapes[k].Geom() == placed[k]) &&
    (forall k :: 0 <= k < |shapes| ==> ColorAt(image, placed, rounds, draws, k, shapes[k].color)) &&
    FirstFits(history, placed, rounds, draws, i) &&
    Trace(history, placed, rounds, at, maxes, draws, kind, minRadius, maxRadius, i) && maxes[i] == maxR
  }

  /**
   * One iteration of the packer's loop: a placement extends the record, a failed
   * search with a radius range wider than 1 shrinks the maximum, and a failed
   * search with a narrower one stops the loop and leaves everything as it was.
   */
  method Round(mask: array2<bool>, image: array2<Color>, kind: Kind, minRadius: real, maxRadius: real,
               draws: seq<Draw>, i: nat, maxR: real, ghost shrinks: nat, ghost history: seq<Mask>,
               ghost placed: seq<Geometry>, ghost rounds: seq<nat>, ghost at: seq<nat>, ghost maxes: seq<real>,
               shapes: seq<Shape>)
    returns (stop: bool, maxR': real, ghost shrinks': nat, ghost history': seq<Mask>, ghost placed': seq<Geometry>,
             ghost rounds': seq<nat>, ghost at': seq<nat>, ghost maxes': seq<real>, shapes': seq<Shape>)
    requires minRadius > 0.0 && maxRadius >= 0.0 && i < MaxIterations
    requires |draws| == MaxIterations && ValidDraw(draws[i], mask.Length0)
    requires mask.Length0 > 0 && image.Length0 > 0
    requires Progress(mask, image, kind, minRadius, maxRadius, draws, i, maxR, shrinks, history, placed, rounds, at, maxes, shapes)
    modifies mask
    ensures stop ==>
      Cells(mask) == old(Cells(mask)) && maxR <= minRadius + 1.0 &&
      NoPlacement(Cells(mask), kind, minRadius, maxR, draws[i]) &&
      maxR' == maxR && shrinks' == shrinks && history' == history && placed' == placed &&
      rounds' == rounds && at' == at && maxes' == maxes && shapes' == shapes
    ensures !stop ==>
      Progress(mask, image, kind, minRadius, maxRadius, draws, i + 1, maxR', shrinks', history', placed', rounds',
               at', maxes', shapes')
    ensures history'[0] == history[0]
  {
    stop, maxR', shrinks', history', placed', rounds', at', maxes', shapes' :=
      false, maxR, shrinks, history, placed, rounds, at, maxes, shapes;
    var next := PackRound(mask, image, kind, minRadius, maxRadius, maxR, draws, i, history, placed, rounds, at, maxes, shapes);
    if next.None? {
      if maxR > minRadius + 1.0 {
        ScheduleShrink(minRadius, maxRadius, maxR, shrinks);
        TraceShrink(history, placed, rounds, at, maxes, draws, kind, minRadius, maxRadius, i);
        FirstFitsLater(history, placed, rounds, draws, i);
        maxR', shrinks' := Shrink(minRadius, maxR), shrinks + 1;
        at', maxes' := at + [|placed|], maxes + [Shrink(minRadius, maxR)];
      } else {
        stop := true;
      }
    } else {
      var shape := next.value;
      history', placed', rounds' := history + [Cells(mask)], placed + [shape.Geom()], rounds + [i];
      at', maxes' := at + [|placed| + 1], maxes + [maxR];
      shapes' := shapes + [shape];
    }
  }

  /**
   * Places shapes of one kind until a search fails with the maximum radius within
   * 1 of the minimum, or the iteration budget runs out. A failed search with a
   * wider radius range shrinks the maximum and goes on. Each placed shape is
   * recoloured from the image and its padded footprint is cleared from the mask.
   */
  method FillMaskWithShapes(mask: array2<bool>, image: array2<Color>, kind: Kind,
                            minRadius: real, maxRadius: real, draws: seq<Draw>)
    returns (shapes: seq<Shape>, ghost placed: seq<Geometry>, ghost history: seq<Mask>,
             ghost iterations: nat, ghost shrinks: nat, ghost finalMax: real, ghost rounds: seq<nat>,
             ghost at: seq<nat>, ghost maxes: seq<real>)
    requires minRadius > 0.0 && maxRadius >= 0.0
    requires |draws| == MaxIterations
    requires forall i :: 0 <= i < |draws| ==> ValidDraw(draws[i], mask.Length0)
    requires mask.Length0 > 0 && image.Length0 > 0
    modifies mask
    ensures iterations <= MaxIterations && |shapes| + shrinks == iterations
    ensures |placed| == |shapes| && forall k :: 0 <= k < |shapes| ==> shapes[k].Geom() == placed[k]
    ensures forall j, k :: 0 <= j < k < |shapes| ==> shapes[j] != shapes[k]
    ensures forall k :: 0 <= k < |shapes| ==> ColorAt(image, placed, rounds, draws, k, shapes[k].color)
    ensures Trace(history, placed, rounds, at, maxes, draws, kind, minRadius, maxRadius, iterations)
    ensures maxes[iterations] == finalMax
    ensures Packed(history, placed, mask.Length1, mask.Length0)
    ensures history[0] == old(Cells(mask)) && history[|placed|] == Cells(mask)
    ensures Drawn(placed, kind, minRadius, maxRadius)
    ensures FirstFits(history, placed, rounds, draws, iterations)
    ensures Schedule(minRadius, maxRadius, finalMax, shrinks)
    ensures iterations < MaxIterations ==>
      finalMax <= minRadius + 1.0 && NoPlacement(Cells(mask), kind, minRadius, finalMax, draws[iterations])
  {
    ghost var hist := [Cells(mask)];
    ghost var recs: seq<Geometry> := [];
    ghost var count: nat := 0;
    ghost var used: seq<nat> := [];
    ghost var starts: seq<nat> := [0];
    ghost var ms: seq<real> := [maxRadius];
    var result: seq<Shape> := [];
    var maxR := maxRadius;
    var i := 0;
    while i < MaxIterations
      invariant 0 <= i <= MaxIterations
      invariant Progress(mask, image, kind, minRadius, maxRadius, draws, i, maxR, count, hist, recs, used, starts, ms, result)
      invariant hist[0] == old(Cells(mask))
    {
      var stop;
      stop, maxR, count, hist, recs, used, starts, ms, result :=
        Round(mask, image, kind, minRadius, maxRadius, draws, i, maxR, count, hist, recs, used, starts, ms, result);
      if stop {
        break;
      }
      i := i + 1;
    }
    shapes, placed, history, iterations, shrinks, finalMax, rounds := result, recs, hist, i, count, maxR, used;
    at, maxes := starts, ms;
    forall j, k | 0 <= j < k < |shapes|
      ensures shapes[j] != shapes[k]
    {
      PlacedDistinct(history, placed, mask.Length1, mask.Length0, k, j);
    }
  }
}
