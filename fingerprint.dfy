/** The fingerprint of one cell: corner sanity samples, then 64 dark/light
    samples packed into an integer, most significant bit first. */
module Fingerprint {
  import opened Options
  import opened Pixels
  import opened Layout

  /** A pixel is dark when its luminance is below this level. */
  const DARK_LEVEL: int := 125

  predicate IsDark(p: Rgba) {
    Gray(p) < DARK_LEVEL
  }

  function Add(origin: Point, d: Point): Point {
    Point(origin.row + d.row, origin.col + d.col)
  }

  /** The pixel at q can be read; otherwise the source's list indexing raises. */
  predicate InRaster(screen: Raster, q: Point) {
    0 <= q.row < |screen| && 0 <= q.col < |screen[q.row]|
  }

  predicate AllInRaster(screen: Raster, origin: Point, offsets: seq<Point>) {
    forall k :: 0 <= k < |offsets| ==> InRaster(screen, Add(origin, offsets[k]))
  }

  function DarkAt(screen: Raster, q: Point): bool
    requires InRaster(screen, q)
  {
    IsDark(screen[q.row][q.col])
  }

  /** Samples just inside the cell's corners: a dark one means no tile. */
  const INNER_CORNERS: seq<Point> :=
    [Point(3, 3), Point(3, CELL_WIDTH - 4), Point(CELL_HEIGHT - 4, 3), Point(CELL_HEIGHT - 4, CELL_WIDTH - 4)]

  /** Samples on the cell's own corners: a light one means the grid is misaligned. */
  const OUTER_CORNERS: seq<Point> :=
    [Point(0, 0), Point(CELL_HEIGHT - 1, 0), Point(0, CELL_WIDTH - 1)]

  /** Reads the corner samples in order and stops at the first whose darkness
      is `rejectDark`: Some(true) then, Some(false) when none is, and None when
      a read falls outside the raster first. */
  function ScanCorners(screen: Raster, origin: Point, corners: seq<Point>, rejectDark: bool): (r: Option<bool>)
    ensures AllInRaster(screen, origin, corners) ==>
              r == Some(exists k :: 0 <= k < |corners| && DarkAt(screen, Add(origin, corners[k])) == rejectDark)
    ensures r.None? ==> !AllInRaster(screen, origin, corners)
    ensures r == Some(false) ==> AllInRaster(screen, origin, corners)
    ensures r == Some(false) ==>
              forall k :: 0 <= k < |corners| ==> DarkAt(screen, Add(origin, corners[k])) != rejectDark
    decreases |corners|
  {
    if corners == [] then Some(false)
    else
      var q := Add(origin, corners[0]);
      if !InRaster(screen, q) then None
      else if DarkAt(screen, q) == rejectDark then Some(true)
      else
        var rest := ScanCorners(screen, origin, corners[1..], rejectDark);
        assert forall k :: 1 <= k < |corners| ==> corners[k] == corners[1..][k - 1];
        rest
  }

  /** The darkness of each sampled pixel, in sampling order. */
  function Pattern(screen: Raster, origin: Point, offsets: seq<Point>): (bits: seq<bool>)
    requires AllInRaster(screen, origin, offsets)
    ensures |bits| == |offsets|
    ensures forall k :: 0 <= k < |offsets| ==> bits[k] == DarkAt(screen, Add(origin, offsets[k]))
  {
    seq(|offsets|, k requires 0 <= k < |offsets| => DarkAt(screen, Add(origin, offsets[k])))
  }

  function BitValue(b: bool): nat {
    if b then 1 else 0
  }

  /** The number of dark samples. */
  function CountDark(bits: seq<bool>): (n: nat)
    ensures n <= |bits|
  {
    if bits == [] then 0 else CountDark(bits[..|bits| - 1]) + BitValue(bits[|bits| - 1])
  }

  /** The samples packed as the source's `hash = (hash << 1) | is_black` does. */
  function Pack(bits: seq<bool>): nat {
    if bits == [] then 0 else 2 * Pack(bits[..|bits| - 1]) + BitValue(bits[|bits| - 1])
  }

  function Pow2(n: nat): (p: nat)
    ensures p >= 1
  {
    if n == 0 then 1 else 2 * Pow2(n - 1)
  }

  /** Bit i of v, counting from the least significant. */
  function Bit(v: nat, i: nat): bool {
    if i == 0 then v % 2 == 1 else Bit(v / 2, i - 1)
  }

  /** The number of set bits among the lowest n bits of v. */
  function PopCount(v: nat, n: nat): nat {
    if n == 0 then 0 else v % 2 + PopCount(v / 2, n - 1)
  }

  /** The fingerprint of cell (x, y), or None when the source would raise
      because a sample lies outside the raster. */
  function CellIdOf(screen: Raster, x: nat, y: nat): (id: Option<int>)
    ensures id.Some? ==> 0 <= id.value < Pow2(|IdPoints()|)
  {
    var origin := CellPoint(x, y);
    match ScanCorners(screen, origin, INNER_CORNERS, true)
    case None => None
    case Some(true) => Some(0)
    case Some(false) =>
      match ScanCorners(screen, origin, OUTER_CORNERS, false)
      case None => None
      case Some(true) => Some(0)
      case Some(false) =>
        if !AllInRaster(screen, origin, IdPoints()) then None
        else
          var bits := Pattern(screen, origin, IdPoints());
          var dark := CountDark(bits);
          PackBound(bits);
          if dark == 0 || dark == |bits| then Some(0) else Some(Pack(bits))
  }

  /** Packing n samples gives a number below 2^n. */
  lemma {:induction false} PackBound(bits: seq<bool>)
    ensures Pack(bits) < Pow2(|bits|)
  {
    if bits != [] {
      PackBound(bits[..|bits| - 1]);
    }
  }

  /** Sample k of n is bit n - 1 - k of the packed value. */
  lemma {:induction false} PackBit(bits: seq<bool>, k: nat)
    requires k < |bits|
    ensures Bit(Pack(bits), |bits| - 1 - k) == bits[k]
  {
    var init := bits[..|bits| - 1];
    var b := BitValue(bits[|bits| - 1]);
    assert Pack(bits) == 2 * Pack(init) + b;
    if k < |bits| - 1 {
      assert (2 * Pack(init) + b) / 2 == Pack(init);
      PackBit(init, k);
    }
  }

  /** The packed value has exactly as many set bits as there are dark samples. */
  lemma {:induction false} PackPopCount(bits: seq<bool>)
    ensures PopCount(Pack(bits), |bits|) == CountDark(bits)
  {
    if bits != [] {
      var init := bits[..|bits| - 1];
      var b := BitValue(bits[|bits| - 1]);
      assert (2 * Pack(init) + b) / 2 == Pack(init);
      assert (2 * Pack(init) + b) % 2 == b;
      PackPopCount(init);
    }
  }

  /** Different sample patterns of the same length pack to different values. */
  lemma PackInjective(s: seq<bool>, t: seq<bool>)
    requires |s| == |t| && Pack(s) == Pack(t)
    ensures s == t
  {
    forall k | 0 <= k < |s|
      ensures s[k] == t[k]
    {
      PackBit(s, k);
      PackBit(t, k);
    }
  }

  /** The corner checks: with the seven corner samples readable, a dark inner
      corner or a light outer corner makes the fingerprint 0. */
  lemma CornerRejection(screen: Raster, x: nat, y: nat)
    requires AllInRaster(screen, CellPoint(x, y), INNER_CORNERS)
    requires AllInRaster(screen, CellPoint(x, y), OUTER_CORNERS)
    requires (exists k :: 0 <= k < |INNER_CORNERS| && DarkAt(screen, Add(CellPoint(x, y), INNER_CORNERS[k])))
          || (exists k :: 0 <= k < |OUTER_CORNERS| && !DarkAt(screen, Add(CellPoint(x, y), OUTER_CORNERS[k])))
    ensures CellIdOf(screen, x, y) == Some(0)
  {
  }

  /** A nonzero fingerprint comes from a cell whose every sample was
      readable and whose corner checks passed. */
  lemma NonzeroFingerprintCorners(screen: Raster, x: nat, y: nat)
    requires CellIdOf(screen, x, y).Some? && CellIdOf(screen, x, y).value != 0
    ensures AllInRaster(screen, CellPoint(x, y), INNER_CORNERS)
    ensures AllInRaster(screen, CellPoint(x, y), OUTER_CORNERS)
    ensures AllInRaster(screen, CellPoint(x, y), IdPoints())
    ensures forall k :: 0 <= k < |INNER_CORNERS| ==> !DarkAt(screen, Add(CellPoint(x, y), INNER_CORNERS[k]))
    ensures forall k :: 0 <= k < |OUTER_CORNERS| ==> DarkAt(screen, Add(CellPoint(x, y), OUTER_CORNERS[k]))
  {
  }

  /** A nonzero fingerprint is the packed sample pattern, with some but not
      all samples dark. */
  lemma NonzeroIsPack(screen: Raster, x: nat, y: nat)
    requires CellIdOf(screen, x, y).Some? && CellIdOf(screen, x, y).value != 0
    ensures AllInRaster(screen, CellPoint(x, y), IdPoints())
    ensures var bits := Pattern(screen, CellPoint(x, y), IdPoints());
      CellIdOf(screen, x, y).value == Pack(bits) && 1 <= CountDark(bits) <= |bits| - 1
  {
  }

  /** What packing guarantees about the packed value: its range, its bits
      and how many of them are set. */
  lemma PackFacts(bits: seq<bool>)
    ensures Pack(bits) < Pow2(|bits|) && PopCount(Pack(bits), |bits|) == CountDark(bits)
    ensures forall k :: 0 <= k < |bits| ==> Bit(Pack(bits), |bits| - 1 - k) == bits[k]
  {
    PackBound(bits);
    PackPopCount(bits);
    forall k | 0 <= k < |bits|
      ensures Bit(Pack(bits), |bits| - 1 - k) == bits[k]
    {
      PackBit(bits, k);
    }
  }

  /** The bits of a nonzero fingerprint: bit n - 1 - k is set exactly when
      sample k is dark, the value is below 2^n, and between 1 and n - 1 of
      its n bits are set (n = 64 sampled points). */
  lemma NonzeroFingerprintBits(screen: Raster, x: nat, y: nat)
    requires CellIdOf(screen, x, y).Some? && CellIdOf(screen, x, y).value != 0
    ensures AllInRaster(screen, CellPoint(x, y), IdPoints())
    ensures var h, n := CellIdOf(screen, x, y).value, |IdPoints()|;
      && 0 < h < Pow2(n)
      && (forall k :: 0 <= k < n ==> Bit(h, n - 1 - k) == DarkAt(screen, Add(CellPoint(x, y), IdPoints()[k])))
      && 1 <= PopCount(h, n) <= n - 1
  {
    var bits := Pattern(screen, CellPoint(x, y), IdPoints());
    NonzeroIsPack(screen, x, y);
    PatternBits(screen, CellPoint(x, y), IdPoints());
    assert CellIdOf(screen, x, y).value == Pack(bits) && |bits| == |IdPoints()|;
  }

  /** A number with a set bit among its lowest n bits is not zero. */
  lemma {:induction false} PopNonzero(v: nat, n: nat)
    requires PopCount(v, n) >= 1
    ensures v != 0
  {
    if v == 0 {
      PopZero(n);
    }
  }

  lemma {:induction false} PopZero(n: nat)
    ensures PopCount(0, n) == 0
  {
    if n > 0 {
      PopZero(n - 1);
    }
  }

  /** The converse of the corner and pattern rules: a cell whose corners
      pass and whose readable samples are mixed gets its packed pattern,
      which is not zero. */
  lemma MixedPatternIsPacked(screen: Raster, x: nat, y: nat)
    requires AllInRaster(screen, CellPoint(x, y), INNER_CORNERS)
    requires AllInRaster(screen, CellPoint(x, y), OUTER_CORNERS)
    requires AllInRaster(screen, CellPoint(x, y), IdPoints())
    requires forall k :: 0 <= k < |INNER_CORNERS| ==> !DarkAt(screen, Add(CellPoint(x, y), INNER_CORNERS[k]))
    requires forall k :: 0 <= k < |OUTER_CORNERS| ==> DarkAt(screen, Add(CellPoint(x, y), OUTER_CORNERS[k]))
    requires var bits := Pattern(screen, CellPoint(x, y), IdPoints());
      1 <= CountDark(bits) <= |bits| - 1
    ensures var bits := Pattern(screen, CellPoint(x, y), IdPoints());
      CellIdOf(screen, x, y) == Some(Pack(bits)) && Pack(bits) != 0
  {
    var bits := Pattern(screen, CellPoint(x, y), IdPoints());
    PackPopCount(bits);
    PopNonzero(Pack(bits), |bits|);
  }

  /** A cell whose corners pass but whose readable samples are all light or
      all dark gets fingerprint 0. */
  lemma UniformPatternIsZero(screen: Raster, x: nat, y: nat)
    requires AllInRaster(screen, CellPoint(x, y), INNER_CORNERS)
    requires AllInRaster(screen, CellPoint(x, y), OUTER_CORNERS)
    requires AllInRaster(screen, CellPoint(x, y), IdPoints())
    requires forall k :: 0 <= k < |INNER_CORNERS| ==> !DarkAt(screen, Add(CellPoint(x, y), INNER_CORNERS[k]))
    requires forall k :: 0 <= k < |OUTER_CORNERS| ==> DarkAt(screen, Add(CellPoint(x, y), OUTER_CORNERS[k]))
    requires var bits := Pattern(screen, CellPoint(x, y), IdPoints());
      CountDark(bits) == 0 || CountDark(bits) == |bits|
    ensures CellIdOf(screen, x, y) == Some(0)
  {
  }

  /** Bit n - 1 - k of a packed pattern of n samples is sample k. */
  lemma PatternBits(screen: Raster, origin: Point, points: seq<Point>)
    requires AllInRaster(screen, origin, points)
    ensures var bits := Pattern(screen, origin, points);
      && Pack(bits) < Pow2(|points|) && PopCount(Pack(bits), |points|) == CountDark(bits)
      && forall k :: 0 <= k < |points| ==> Bit(Pack(bits), |points| - 1 - k) == DarkAt(screen, Add(origin, points[k]))
  {
    PackFacts(Pattern(screen, origin, points));
  }

  /** Two cells with nonzero fingerprints, in the same or different rasters,
      get the same fingerprint exactly when their dark sample patterns agree. */
  lemma FingerprintsEqualIffPatternsEqual(s1: Raster, x1: nat, y1: nat, s2: Raster, x2: nat, y2: nat)
    requires CellIdOf(s1, x1, y1).Some? && CellIdOf(s1, x1, y1).value != 0
    requires CellIdOf(s2, x2, y2).Some? && CellIdOf(s2, x2, y2).value != 0
    ensures AllInRaster(s1, CellPoint(x1, y1), IdPoints()) && AllInRaster(s2, CellPoint(x2, y2), IdPoints())
    ensures CellIdOf(s1, x1, y1) == CellIdOf(s2, x2, y2)
        <==> Pattern(s1, CellPoint(x1, y1), IdPoints()) == Pattern(s2, CellPoint(x2, y2), IdPoints())
  {
    var p1 := Pattern(s1, CellPoint(x1, y1), IdPoints());
    var p2 := Pattern(s2, CellPoint(x2, y2), IdPoints());
    if CellIdOf(s1, x1, y1) == CellIdOf(s2, x2, y2) {
      PackInjective(p1, p2);
    }
  }

  /** A rectangular raster large enough for the whole grid never makes a
      sample read fail. */
  lemma CoveringRasterReadsEveryCell(screen: Raster, x: nat, y: nat)
    requires |screen| >= CELL_TOP + CELL_HEIGHT * CELL_MAX_ROW
    requires forall r :: 0 <= r < |screen| ==> |screen[r]| >= CELL_LEFT + CELL_WIDTH * CELL_MAX_COL
    requires x < CELL_MAX_ROW && y < CELL_MAX_COL
    ensures CellIdOf(screen, x, y).Some?
  {
    var origin := CellPoint(x, y);
    IdPointsInCell();
    assert forall d: Point :: 0 <= d.row < CELL_HEIGHT && 0 <= d.col < CELL_WIDTH ==> InRaster(screen, Add(origin, d));
  }
}
