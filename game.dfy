/** The game reader: a padded board of canonical tile ids, how it is read
    from a raster, the two-turn path solver over it, and hint selection. */
module Llk {
  import opened Options
  import opened Pixels
  import opened Layout
  import opened Fingerprint
  import opened Ranges
  import opened Canon

  /** Board size, including the one-cell empty border on every side. */
  const H: int := CELL_MAX_ROW + 2
  const W: int := CELL_MAX_COL + 2

  predicate InBoard(p: Point) {
    0 <= p.row < H && 0 <= p.col < W
  }

  predicate OnBorder(r: int, c: int) {
    r == 0 || r == H - 1 || c == 0 || c == W - 1
  }

  /** Orthogonal neighbours. */
  predicate Adjacent(a: Point, b: Point) {
    || (a.row == b.row && (a.col - b.col == 1 || b.col - a.col == 1))
    || (a.col == b.col && (a.row - b.row == 1 || b.row - a.row == 1))
  }

  /** p is read before q in row-major order. */
  predicate Before(p: Point, q: Point) {
    p.row < q.row || (p.row == q.row && p.col < q.col)
  }

  /** x lies on the straight segment from p to q (both ends included). */
  predicate OnSegment(x: Point, p: Point, q: Point) {
    || (p.row == q.row == x.row && Min(p.col, q.col) <= x.col <= Max(p.col, q.col))
    || (p.col == q.col == x.col && Min(p.row, q.row) <= x.row <= Max(p.row, q.row))
  }

  predicate Straight(p: Point, q: Point) {
    p.row == q.row || p.col == q.col
  }

  function Reverse(s: seq<Point>): (t: seq<Point>)
    ensures |t| == |s| && forall i :: 0 <= i < |s| ==> t[i] == s[|s| - 1 - i]
  {
    seq(|s|, i requires 0 <= i < |s| => s[|s| - 1 - i])
  }

  /** The extent of the empty runs through a point: rows [top, bottom) of its
      column and columns [left, right) of its row, half-open as the source returns them. */
  datatype Reach = Reach(top: int, bottom: int, left: int, right: int)

  /** A move to suggest: two cells with the same tile and the path joining them. */
  datatype Move = Move(from: Point, to: Point, path: seq<Point>)

  predicate AllInBoard(g: seq<Point>) {
    forall i :: 0 <= i < |g| ==> InBoard(g[i])
  }

  /** perm lists 0 … n - 1, each once: the order a shuffle leaves n groups in. */
  predicate IsPermutation(perm: seq<int>, n: int) {
    && |perm| == n
    && (forall k :: 0 <= k < n ==> 0 <= perm[k] < n)
    && (forall g :: 0 <= g < n ==> g in perm)
  }

  /** The runs are not empty and stay within the board. */
  predicate Bounded(m: Reach) {
    0 <= m.top < m.bottom <= H && 0 <= m.left < m.right <= W
  }

  /** The rows both vertical runs cover. */
  function SharedRows(ra: Reach, rb: Reach): (s: Span)
    requires Bounded(ra) && Bounded(rb)
    ensures !s.IsEmpty() ==> 0 <= s.lo && s.hi <= H
    ensures forall r :: s.Contains(r) <==> ra.top <= r < ra.bottom && rb.top <= r < rb.bottom
  {
    var s := Intersection(Span(ra.top, ra.bottom), Span(rb.top, rb.bottom));
    assert !s.IsEmpty() ==> s.Contains(s.lo) && s.Contains(s.hi - 1);
    s
  }

  /** The columns both horizontal runs cover. */
  function SharedCols(ra: Reach, rb: Reach): (s: Span)
    requires Bounded(ra) && Bounded(rb)
    ensures !s.IsEmpty() ==> 0 <= s.lo && s.hi <= W
    ensures forall c :: s.Contains(c) <==> ra.left <= c < ra.right && rb.left <= c < rb.right
  {
    var s := Intersection(Span(ra.left, ra.right), Span(rb.left, rb.right));
    assert !s.IsEmpty() ==> s.Contains(s.lo) && s.Contains(s.hi - 1);
    s
  }

  /** The shared runs do not depend on the order of the two. */
  lemma SharedSymmetric(ra: Reach, rb: Reach)
    requires Bounded(ra) && Bounded(rb)
    ensures SharedRows(ra, rb) == SharedRows(rb, ra) && SharedCols(ra, rb) == SharedCols(rb, ra)
  {
    IntersectionCommutes(Span(ra.top, ra.bottom), Span(rb.top, rb.bottom));
    IntersectionCommutes(Span(ra.left, ra.right), Span(rb.left, rb.right));
  }

  /** What the board holds at (r, c) before renumbering: 0 on the border,
      otherwise the fingerprint of cell (r - 1, c - 1), None when reading it fails. */
  function RawAt(screen: Raster, r: int, c: int): Option<int>
    requires 0 <= r < H && 0 <= c < W
  {
    if OnBorder(r, c) then Some(0) else CellIdOf(screen, r - 1, c - 1)
  }

  /** Position of cell (r, c) in the row-major flattening of the board;
      18 is the padded width W = CELL_MAX_COL + 2, written as a literal so
      that the product stays linear for the solver. */
  function Flat(r: int, c: int): int {
    18 * r + c
  }

  /** Every cell of the grid can be read from the raster. */
  predicate RasterOk(screen: Raster) {
    forall r, c :: 0 <= r < H && 0 <= c < W ==> RawAt(screen, r, c).Some?
  }

  /** A rectangular raster large enough for the whole grid can be read in
      full, so a refresh from it succeeds. */
  lemma CoveringRasterIsOk(screen: Raster)
    requires |screen| >= CELL_TOP + CELL_HEIGHT * CELL_MAX_ROW
    requires forall r :: 0 <= r < |screen| ==> |screen[r]| >= CELL_LEFT + CELL_WIDTH * CELL_MAX_COL
    ensures RasterOk(screen)
  {
    forall r, c | 0 <= r < H && 0 <= c < W
      ensures RawAt(screen, r, c).Some?
    {
      if !OnBorder(r, c) {
        CoveringRasterReadsEveryCell(screen, r - 1, c - 1);
      }
    }
  }

  /** The padded fingerprint board, flattened in row-major order. */
  function PaddedRaw(screen: Raster): (raw: seq<int>)
    requires RasterOk(screen)
    ensures |raw| == H * W
    ensures forall r, c :: 0 <= r < H && 0 <= c < W ==> RawAt(screen, r, c) == Some(raw[Flat(r, c)])
  {
    var raw := seq(H * W, p requires 0 <= p < H * W => RawAt(screen, p / W, p % W).value);
    assert forall r, c :: 0 <= r < H && 0 <= c < W ==> Flat(r, c) / W == r && Flat(r, c) % W == c;
    raw
  }

  /** The number of times each fingerprint was read, as the source's dictionary keeps it. */
  ghost predicate CountsOf(dic: map<int, nat>, raw: seq<int>) {
    forall h :: h != 0 ==> (h in dic <==> h in raw) && (h in dic ==> dic[h] == multiset(raw)[h])
  }

  /** Cell (r, c) comes before cell (dr, dc) in row-major order. */
  predicate Done(r: int, c: int, dr: int, dc: int) {
    r < dr || (r == dr && c < dc)
  }

  /** The cells before (dr, dc) in row-major order have been read, in that
      order, into built. */
  ghost predicate ReadOk(screen: Raster, built: seq<int>, dr: int, dc: int) {
    && 0 <= dc <= W && |built| == Flat(dr, dc)
    && forall r, c {:trigger RawAt(screen, r, c)} :: 0 <= r < H && 0 <= c < W && Done(r, c, dr, dc) ==>
         RawAt(screen, r, c) == Some(built[Flat(r, c)])
  }

  /** Reading cell (dr, dc) extends what has been read by one cell. */
  lemma ReadOkAppend(screen: Raster, built: seq<int>, dr: int, dc: int, x: int)
    requires ReadOk(screen, built, dr, dc) && 0 <= dr < H && 0 <= dc < W && RawAt(screen, dr, dc) == Some(x)
    ensures ReadOk(screen, built + [x], dr, dc + 1)
  {
    forall r, c | 0 <= r < H && 0 <= c < W && Done(r, c, dr, dc + 1)
      ensures RawAt(screen, r, c) == Some((built + [x])[Flat(r, c)])
    {
      if r != dr || c != dc {
        assert Done(r, c, dr, dc);
      }
    }
  }

  /** Counting one more read fingerprint. */
  lemma CountsAppend(dic: map<int, nat>, built: seq<int>, x: int)
    requires CountsOf(dic, built)
    ensures CountsOf(dic[x := if x in dic then dic[x] + 1 else 1], built + [x])
    ensures CountsOf(dic, built + [0])
  {
    assert multiset(built + [x]) == multiset(built) + multiset{x};
    assert multiset(built + [0]) == multiset(built) + multiset{0};
  }

  /** b holds the cells read so far, and 0 everywhere else. */
  ghost predicate Holds(b: array2<int>, built: seq<int>, dr: int, dc: int)
    reads b
  {
    && b.Length0 == H && b.Length1 == W && 0 <= dc <= W && |built| == Flat(dr, dc)
    && forall r, c :: 0 <= r < H && 0 <= c < W ==> b[r, c] == if Done(r, c, dr, dc) then built[Flat(r, c)] else 0
  }

  /** The surviving fingerprints among the first n cells of raw are those
      vis knows, visCnt of them, each mapped to its id. */
  ghost predicate Seen(raw: seq<int>, vis: map<int, int>, visCnt: int, n: int) {
    && 0 <= n <= |raw|
    && visCnt == |Order(raw, raw[..n])|
    && (forall h :: h in vis <==> h in Order(raw, raw[..n]))
    && (forall h :: h in vis ==> h in Order(raw, raw) && vis[h] == 1 + IndexOf(Order(raw, raw), h))
  }

  /** The source's test on the count: a fingerprint read at some cell is
      dropped exactly when its count is odd or above four. */
  lemma DroppedByCount(raw: seq<int>, dic: map<int, nat>, n: int)
    requires CountsOf(dic, raw) && 0 <= n < |raw| && raw[n] != 0
    ensures raw[n] in dic
    ensures Kept(raw, raw[n]) <==> !(dic[raw[n]] % 2 == 1 || dic[raw[n]] > 4)
  {
  }

  /** A cell whose fingerprint is dropped, or already has an id, leaves the
      bookkeeping as it is, and its canonical id is 0, or that id. */
  lemma SeenAgain(raw: seq<int>, vis: map<int, int>, visCnt: int, n: int)
    requires Seen(raw, vis, visCnt, n) && n < |raw|
    requires !Kept(raw, raw[n]) || raw[n] in vis
    ensures Seen(raw, vis, visCnt, n + 1)
    ensures Canonical(raw)[n] == if Kept(raw, raw[n]) then vis[raw[n]] else 0
  {
    OrderStep(raw, raw, n);
    assert raw[..n + 1][..n] == raw[..n];
  }

  /** A surviving fingerprint met for the first time gets the next id. */
  lemma SeenFirst(raw: seq<int>, vis: map<int, int>, visCnt: int, n: int)
    requires Seen(raw, vis, visCnt, n) && n < |raw|
    requires Kept(raw, raw[n]) && raw[n] !in vis
    ensures Seen(raw, vis[raw[n] := visCnt + 1], visCnt + 1, n + 1)
    ensures Canonical(raw)[n] == visCnt + 1
  {
    var f, vis' := raw[n], vis[raw[n] := visCnt + 1];
    assert f !in raw[..n];
    OrderStep(raw, raw, n);
    RankOfFirstOccurrence(raw, n);
    assert Order(raw, raw[..n + 1]) == Order(raw, raw[..n]) + [f];
    forall h ensures h in vis' <==> h in Order(raw, raw[..n + 1]) {
    }
    forall h | h in vis' ensures h in Order(raw, raw) && vis'[h] == 1 + IndexOf(Order(raw, raw), h) {
      if h != f {
        assert h in vis;
      }
    }
  }

  /** One step of the source's renumbering, case by case: the id it gives
      cell n and the bookkeeping that follows agree with the canonical board. */
  lemma SeenStep(raw: seq<int>, dic: map<int, nat>, vis: map<int, int>, visCnt: int, n: int)
    requires Seen(raw, vis, visCnt, n) && n < |raw| && CountsOf(dic, raw)
    ensures raw[n] == 0 ==> Canonical(raw)[n] == 0 && Seen(raw, vis, visCnt, n + 1)
    ensures raw[n] != 0 ==> raw[n] in dic
    ensures raw[n] != 0 && (dic[raw[n]] % 2 == 1 || dic[raw[n]] > 4) ==>
              Canonical(raw)[n] == 0 && Seen(raw, vis, visCnt, n + 1)
    ensures raw[n] != 0 && !(dic[raw[n]] % 2 == 1 || dic[raw[n]] > 4) && raw[n] in vis ==>
              Canonical(raw)[n] == vis[raw[n]] && Seen(raw, vis, visCnt, n + 1)
    ensures raw[n] != 0 && !(dic[raw[n]] % 2 == 1 || dic[raw[n]] > 4) && raw[n] !in vis ==>
              Canonical(raw)[n] == visCnt + 1 && Seen(raw, vis[raw[n] := visCnt + 1], visCnt + 1, n + 1)
  {
    if raw[n] == 0 {
      SeenAgain(raw, vis, visCnt, n);
    } else {
      DroppedByCount(raw, dic, n);
      if !Kept(raw, raw[n]) || raw[n] in vis {
        SeenAgain(raw, vis, visCnt, n);
      } else {
        SeenFirst(raw, vis, visCnt, n);
      }
    }
  }

  /** The second pass has reached cell (i, j): the cells before it hold
      their canonical ids, the others still hold their fingerprints. */
  ghost predicate Renumbered(b: array2<int>, raw: seq<int>, i: int, j: int)
    reads b
    requires b.Length0 == H && b.Length1 == W && |raw| == H * W
  {
    forall r, c :: 0 <= r < H && 0 <= c < W ==>
      b[r, c] == if Done(r, c, i, j) then Canonical(raw)[Flat(r, c)] else raw[Flat(r, c)]
  }

  /** Finishing row i is starting row i + 1. */
  lemma RenumberedRowEnd(b: array2<int>, raw: seq<int>, i: int)
    requires b.Length0 == H && b.Length1 == W && |raw| == H * W
    requires Renumbered(b, raw, i, W)
    ensures Renumbered(b, raw, i + 1, 0)
  {
    forall r, c | 0 <= r < H && 0 <= c < W
      ensures Done(r, c, i, W) == Done(r, c, i + 1, 0)
    {
    }
  }

  /** One row of the second pass. */
  method RenumberRow(b: array2<int>, i: int, dic: map<int, nat>, vis0: map<int, int>, visCnt0: int, ghost raw: seq<int>)
    returns (vis: map<int, int>, visCnt: int)
    requires b.Length0 == H && b.Length1 == W && |raw| == H * W && 0 <= i < H
    requires CountsOf(dic, raw) && Seen(raw, vis0, visCnt0, Flat(i, 0)) && Renumbered(b, raw, i, 0)
    modifies b
    ensures Seen(raw, vis, visCnt, Flat(i + 1, 0)) && Renumbered(b, raw, i + 1, 0)
  {
    vis, visCnt := vis0, visCnt0;
    var j := 0;
    while j < W
      invariant 0 <= j <= W
      invariant Seen(raw, vis, visCnt, Flat(i, j)) && Renumbered(b, raw, i, j)
    {
      assert Flat(i, j + 1) == Flat(i, j) + 1;
      vis, visCnt := RenumberCell(b, i, j, dic, vis, visCnt, raw);
      j := j + 1;
    }
    assert Flat(i, W) == Flat(i + 1, 0);
    RenumberedRowEnd(b, raw, i);
  }

  /** One cell of the second pass: the id the source writes at (i, j). */
  method RenumberCell(b: array2<int>, i: int, j: int, dic: map<int, nat>, vis0: map<int, int>, visCnt0: int,
                      ghost raw: seq<int>)
    returns (vis: map<int, int>, visCnt: int)
    requires b.Length0 == H && b.Length1 == W && |raw| == H * W && 0 <= i < H && 0 <= j < W
    requires CountsOf(dic, raw) && Seen(raw, vis0, visCnt0, Flat(i, j)) && Renumbered(b, raw, i, j)
    modifies b
    ensures Seen(raw, vis, visCnt, Flat(i, j) + 1) && Renumbered(b, raw, i, j + 1)
  {
    vis, visCnt := vis0, visCnt0;
    var h := b[i, j];
    SeenStep(raw, dic, vis, visCnt, Flat(i, j));
    if h != 0 {
      var id: int;
      if dic[h] % 2 == 1 || dic[h] > 4 {
        id := 0;
      } else if h in vis {
        id := vis[h];
      } else {
        visCnt := visCnt + 1;
        id := visCnt;
        vis := vis[h := visCnt];
      }
      b[i, j] := id;
    }
  }

  class Game {
    /** Canonical ids; 0 is an empty cell. */
    var board: array2<int>
    /** The number of distinct tile ids on the board. */
    var typeCnt: nat
    /** The sampled offsets inside a cell. */
    var idPoints: seq<Point>

    predicate Shaped()
      reads this
    {
      board.Length0 == H && board.Length1 == W
    }

    function At(p: Point): int
      reads this, board
      requires Shaped() && InBoard(p)
    {
      board[p.row, p.col]
    }

    predicate Occurs(v: int)
      reads this, board
      requires Shaped()
    {
      exists r, c :: 0 <= r < H && 0 <= c < W && board[r, c] == v
    }

    /** The board has its size, an empty border, and uses exactly the ids 1 … typeCnt. */
    ghost predicate Valid()
      reads this, board
    {
      && Shaped()
      && idPoints == IdPoints()
      && (forall r, c :: 0 <= r < H && 0 <= c < W ==> 0 <= board[r, c] <= typeCnt)
      && (forall r, c :: 0 <= r < H && 0 <= c < W && OnBorder(r, c) ==> board[r, c] == 0)
      && (forall v :: 1 <= v <= typeCnt ==> Occurs(v))
    }

    constructor()
      ensures Valid() && fresh(board) && typeCnt == 0
      ensures forall r, c :: 0 <= r < H && 0 <= c < W ==> board[r, c] == 0
    {
      var points := InitIdPoints();
      idPoints := points;
      board := new int[H, W]((r, c) => 0);
      typeCnt := 0;
    }

    // ------------------------------------------------------------------
    // Reaches: the empty runs through a point

    /** First row of the empty run above row r in column c. */
    function Top(r: int, c: int): (t: int)
      reads this, board
      requires Shaped() && 0 <= r < H && 0 <= c < W
      ensures 0 <= t <= r
      ensures forall k :: t <= k < r ==> board[k, c] == 0
      ensures t == 0 || board[t - 1, c] != 0
      decreases r
    {
      if r >= 1 && board[r - 1, c] == 0 then Top(r - 1, c) else r
    }

    /** Last row of the empty run below row r in column c. */
    function Bottom(r: int, c: int): (t: int)
      reads this, board
      requires Shaped() && 0 <= r < H && 0 <= c < W
      ensures r <= t < H
      ensures forall k :: r < k <= t ==> board[k, c] == 0
      ensures t == H - 1 || board[t + 1, c] != 0
      decreases H - r
    {
      if r <= CELL_MAX_ROW && board[r + 1, c] == 0 then Bottom(r + 1, c) else r
    }

    /** First column of the empty run left of column c in row r. */
    function Left(r: int, c: int): (t: int)
      reads this, board
      requires Shaped() && 0 <= r < H && 0 <= c < W
      ensures 0 <= t <= c
      ensures forall k :: t <= k < c ==> board[r, k] == 0
      ensures t == 0 || board[r, t - 1] != 0
      decreases c
    {
      if c >= 1 && board[r, c - 1] == 0 then Left(r, c - 1) else c
    }

    /** Last column of the empty run right of column c in row r. */
    function Right(r: int, c: int): (t: int)
      reads this, board
      requires Shaped() && 0 <= r < H && 0 <= c < W
      ensures c <= t < W
      ensures forall k :: c < k <= t ==> board[r, k] == 0
      ensures t == W - 1 || board[r, t + 1] != 0
      decreases W - c
    {
      if c <= CELL_MAX_COL && board[r, c + 1] == 0 then Right(r, c + 1) else c
    }

    /** m describes the maximal empty runs through p: within the board, every
        cell of the runs other than p is empty, and each run is bounded by a
        tile or by the edge of the board. */
    predicate IsReach(p: Point, m: Reach)
      reads this, board
      requires Shaped() && InBoard(p)
    {
      && 0 <= m.top <= p.row < m.bottom <= H
      && 0 <= m.left <= p.col < m.right <= W
      && (forall k :: m.top <= k < m.bottom && k != p.row ==> board[k, p.col] == 0)
      && (forall k :: m.left <= k < m.right && k != p.col ==> board[p.row, k] == 0)
      && (m.top == 0 || board[m.top - 1, p.col] != 0)
      && (m.bottom == H || board[m.bottom, p.col] != 0)
      && (m.left == 0 || board[p.row, m.left - 1] != 0)
      && (m.right == W || board[p.row, m.right] != 0)
    }

    function ReachOf(p: Point): (m: Reach)
      reads this, board
      requires Shaped() && InBoard(p)
      ensures IsReach(p, m)
    {
      Reach(Top(p.row, p.col), Bottom(p.row, p.col) + 1, Left(p.row, p.col), Right(p.row, p.col) + 1)
    }

    /** The runs through a point are determined by the board. */
    lemma ReachUnique(p: Point, m1: Reach, m2: Reach)
      requires Shaped() && InBoard(p) && IsReach(p, m1) && IsReach(p, m2)
      ensures m1 == m2
    {
    }

    /** Walks up, down, left and right from p while the next cell is empty. */
    method MoveableVH(p: Point) returns (m: Reach)
      requires Shaped() && InBoard(p)
      ensures IsReach(p, m)
    {
      var top, bottom := p.row, p.row;
      while top >= 1 && board[top - 1, p.col] == 0
        invariant 0 <= top <= p.row
        invariant forall k :: top <= k < p.row ==> board[k, p.col] == 0
      {
        top := top - 1;
      }
      while bottom <= CELL_MAX_ROW && board[bottom + 1, p.col] == 0
        invariant p.row <= bottom < H
        invariant forall k :: p.row < k <= bottom ==> board[k, p.col] == 0
      {
        bottom := bottom + 1;
      }
      var left, right := p.col, p.col;
      while left >= 1 && board[p.row, left - 1] == 0
        invariant 0 <= left <= p.col
        invariant forall k :: left <= k < p.col ==> board[p.row, k] == 0
      {
        left := left - 1;
      }
      while right <= CELL_MAX_COL && board[p.row, right + 1] == 0
        invariant p.col <= right < W
        invariant forall k :: p.col < k <= right ==> board[p.row, k] == 0
      {
        right := right + 1;
      }
      m := Reach(top, bottom + 1, left, right + 1);
    }

    // ------------------------------------------------------------------
    // The path solver

    /** Columns [c0, c1) of row r are empty. */
    predicate RowClear(r: int, c0: int, c1: int)
      reads this, board
      requires Shaped() && 0 <= r < H && 0 <= c0 && c1 <= W
    {
      forall c :: c0 <= c < c1 ==> board[r, c] == 0
    }

    /** Rows [r0, r1) of column c are empty. */
    predicate ColClear(c: int, r0: int, r1: int)
      reads this, board
      requires Shaped() && 0 <= c < W && 0 <= r0 && r1 <= H
    {
      forall r :: r0 <= r < r1 ==> board[r, c] == 0
    }

    /** The first row of [lo, hi) whose columns [c0, c1) are empty. */
    function FirstClearRow(lo: int, hi: int, c0: int, c1: int): (r: Option<int>)
      reads this, board
      requires Shaped() && (lo < hi ==> 0 <= lo && hi <= H) && 0 <= c0 <= c1 <= W
      ensures r.Some? ==> lo <= r.value < hi && RowClear(r.value, c0, c1)
      ensures forall k :: lo <= k < hi && (r.None? || k < r.value) ==> !RowClear(k, c0, c1)
      decreases hi - lo
    {
      if lo >= hi then None
      else if RowClear(lo, c0, c1) then Some(lo)
      else FirstClearRow(lo + 1, hi, c0, c1)
    }

    /** The first column of [lo, hi) whose rows [r0, r1) are empty. */
    function FirstClearCol(lo: int, hi: int, r0: int, r1: int): (r: Option<int>)
      reads this, board
      requires Shaped() && (lo < hi ==> 0 <= lo && hi <= W) && 0 <= r0 <= r1 <= H
      ensures r.Some? ==> lo <= r.value < hi && ColClear(r.value, r0, r1)
      ensures forall k :: lo <= k < hi && (r.None? || k < r.value) ==> !ColClear(k, r0, r1)
      decreases hi - lo
    {
      if lo >= hi then None
      else if ColClear(lo, r0, r1) then Some(lo)
      else FirstClearCol(lo + 1, hi, r0, r1)
    }

    /** A path turning twice at the first row shared by the vertical runs
        ra and rb whose stretch between the columns of a and b is clear. */
    function TurnAtRow(a: Point, b: Point, ra: Reach, rb: Reach): Option<seq<Point>>
      reads this, board
      requires Shaped() && Bounded(ra) && Bounded(rb) && 0 <= a.col < W && 0 <= b.col < W
    {
      var rows := SharedRows(ra, rb);
      var byRow := FirstClearRow(rows.lo, rows.hi, Min(a.col, b.col), Max(a.col, b.col));
      if byRow.Some? then Some([a, Point(byRow.value, a.col), Point(byRow.value, b.col), b]) else None
    }

    /** A path turning twice at the first column shared by the horizontal runs
        ra and rb whose stretch between the rows of a and b is clear. */
    function TurnAtCol(a: Point, b: Point, ra: Reach, rb: Reach): Option<seq<Point>>
      reads this, board
      requires Shaped() && Bounded(ra) && Bounded(rb) && 0 <= a.row < H && 0 <= b.row < H
    {
      var cols := SharedCols(ra, rb);
      var byCol := FirstClearCol(cols.lo, cols.hi, Min(a.row, b.row), Max(a.row, b.row));
      if byCol.Some? then Some([a, Point(a.row, byCol.value), Point(b.row, byCol.value), b]) else None
    }

    /** What the solver answers for a and b: the direct step for neighbours;
        otherwise the first row both can reach vertically whose stretch
        between their columns is clear, then likewise the first column. */
    function FindPath(a: Point, b: Point): (r: Option<seq<Point>>)
      reads this, board
      requires Shaped() && InBoard(a) && InBoard(b)
      ensures Adjacent(a, b) ==> r == Some([a, b])
      ensures !Adjacent(a, b) && r.Some? ==> |r.value| == 4 && r.value[0] == a && r.value[3] == b
    {
      if Adjacent(a, b) then Some([a, b])
      else
        var ra, rb := ReachOf(a), ReachOf(b);
        if TurnAtRow(a, b, ra, rb).Some? then TurnAtRow(a, b, ra, rb)
        else TurnAtCol(a, b, ra, rb)
    }

    /** Every board cell on the segment from p to q, other than a and b, is empty. */
    ghost predicate SegmentClear(p: Point, q: Point, a: Point, b: Point)
      reads this, board
      requires Shaped()
    {
      forall x :: InBoard(x) && OnSegment(x, p, q) && x != a && x != b ==> At(x) == 0
    }

    /** A legal connection of a and b: from a to b, inside the board, either
        the direct step between neighbours or four waypoints turning at a
        shared row or a shared column, every segment straight and clear. */
    ghost predicate SoundPath(a: Point, b: Point, path: seq<Point>)
      reads this, board
      requires Shaped()
    {
      && (|path| == 2 || |path| == 4)
      && path[0] == a && path[|path| - 1] == b
      && (forall k :: 0 <= k < |path| ==> InBoard(path[k]))
      && (|path| == 2 ==> Adjacent(a, b))
      && (|path| == 4 ==>
            || (path[1].col == a.col && path[1].row == path[2].row && path[2].col == b.col)
            || (path[1].row == a.row && path[1].col == path[2].col && path[2].row == b.row))
      && (forall k :: 0 <= k < |path| - 1 ==> Straight(path[k], path[k + 1]) && SegmentClear(path[k], path[k + 1], a, b))
    }

    /** The vertical leg between p (one of the two ends) and row r of p's
        column is clear when r is within p's vertical run. */
    lemma ColumnLegClear(p: Point, r: int, a: Point, b: Point)
      requires Shaped() && InBoard(p) && (p == a || p == b)
      requires ReachOf(p).top <= r < ReachOf(p).bottom
      ensures SegmentClear(p, Point(r, p.col), a, b) && SegmentClear(Point(r, p.col), p, a, b)
    {
      var m := ReachOf(p);
      assert IsReach(p, m);
    }

    /** The horizontal leg between p (one of the two ends) and column c of
        p's row is clear when c is within p's horizontal run. */
    lemma RowLegClear(p: Point, c: int, a: Point, b: Point)
      requires Shaped() && InBoard(p) && (p == a || p == b)
      requires ReachOf(p).left <= c < ReachOf(p).right
      ensures SegmentClear(p, Point(p.row, c), a, b) && SegmentClear(Point(p.row, c), p, a, b)
    {
      var m := ReachOf(p);
      assert IsReach(p, m);
    }

    /** The middle leg along row r is clear when r is in both vertical runs
        and the cells of row r from the smaller column up to (not including)
        the larger are empty. */
    lemma MiddleRowClear(a: Point, b: Point, r: int)
      requires Shaped() && InBoard(a) && InBoard(b)
      requires ReachOf(a).top <= r < ReachOf(a).bottom && ReachOf(b).top <= r < ReachOf(b).bottom
      requires RowClear(r, Min(a.col, b.col), Max(a.col, b.col))
      ensures SegmentClear(Point(r, a.col), Point(r, b.col), a, b)
    {
      var ma, mb := ReachOf(a), ReachOf(b);
      forall x | InBoard(x) && OnSegment(x, Point(r, a.col), Point(r, b.col)) && x != a && x != b
        ensures At(x) == 0
      {
        assert x.row == r;
        if x.col == a.col {
          assert IsReach(a, ma);
        } else if x.col == b.col {
          assert IsReach(b, mb);
        }
      }
    }

    /** The middle leg along column c, symmetrically. */
    lemma MiddleColClear(a: Point, b: Point, c: int)
      requires Shaped() && InBoard(a) && InBoard(b)
      requires ReachOf(a).left <= c < ReachOf(a).right && ReachOf(b).left <= c < ReachOf(b).right
      requires ColClear(c, Min(a.row, b.row), Max(a.row, b.row))
      ensures SegmentClear(Point(a.row, c), Point(b.row, c), a, b)
    {
      var ma, mb := ReachOf(a), ReachOf(b);
      forall x | InBoard(x) && OnSegment(x, Point(a.row, c), Point(b.row, c)) && x != a && x != b
        ensures At(x) == 0
      {
        assert x.col == c;
        if x.row == a.row {
          assert IsReach(a, ma);
        } else if x.row == b.row {
          assert IsReach(b, mb);
        }
      }
    }

    /** Four waypoints whose three legs are straight and clear form a sound path. */
    lemma FourSound(a: Point, b: Point, p: Point, q: Point)
      requires Shaped() && InBoard(a) && InBoard(b) && InBoard(p) && InBoard(q)
      requires || (p.col == a.col && p.row == q.row && q.col == b.col)
               || (p.row == a.row && p.col == q.col && q.row == b.row)
      requires SegmentClear(a, p, a, b) && SegmentClear(p, q, a, b) && SegmentClear(q, b, a, b)
      ensures SoundPath(a, b, [a, p, q, b])
    {
      var path := [a, p, q, b];
      forall k | 0 <= k < |path| - 1
        ensures Straight(path[k], path[k + 1]) && SegmentClear(path[k], path[k + 1], a, b)
      {
        if k == 0 {
        } else if k == 1 {
        } else {
        }
      }
    }

    /** Soundness of the solver: whatever path it reports joins a to b
        inside the board through empty cells only, with at most two turns. */
    lemma PathSound(a: Point, b: Point)
      requires Shaped() && InBoard(a) && InBoard(b)
      ensures FindPath(a, b).Some? ==> SoundPath(a, b, FindPath(a, b).value)
    {
      if !Adjacent(a, b) {
        var ra, rb := ReachOf(a), ReachOf(b);
        var rows, cols := SharedRows(ra, rb), SharedCols(ra, rb);
        var byRow := FirstClearRow(rows.lo, rows.hi, Min(a.col, b.col), Max(a.col, b.col));
        if byRow.Some? {
          var r := byRow.value;
          assert rows.Contains(r);
          ColumnLegClear(a, r, a, b);
          MiddleRowClear(a, b, r);
          ColumnLegClear(b, r, a, b);
          FourSound(a, b, Point(r, a.col), Point(r, b.col));
        } else {
          var byCol := FirstClearCol(cols.lo, cols.hi, Min(a.row, b.row), Max(a.row, b.row));
          if byCol.Some? {
            var c := byCol.value;
            assert cols.Contains(c);
            RowLegClear(a, c, a, b);
            MiddleColClear(a, b, c);
            RowLegClear(b, c, a, b);
            FourSound(a, b, Point(a.row, c), Point(b.row, c));
          }
        }
      } else {
        assert SegmentClear(a, b, a, b);
      }
    }

    lemma ReverseFour(p0: Point, p1: Point, p2: Point, p3: Point)
      ensures Reverse([p0, p1, p2, p3]) == [p3, p2, p1, p0]
    {
    }

    /** The row turn found from b is the reverse of the one found from a. */
    lemma TurnAtRowSymmetric(a: Point, b: Point, ra: Reach, rb: Reach)
      requires Shaped() && Bounded(ra) && Bounded(rb) && 0 <= a.col < W && 0 <= b.col < W
      ensures TurnAtRow(b, a, rb, ra).Some? <==> TurnAtRow(a, b, ra, rb).Some?
      ensures TurnAtRow(a, b, ra, rb).Some? ==> TurnAtRow(b, a, rb, ra).value == Reverse(TurnAtRow(a, b, ra, rb).value)
    {
      SharedSymmetric(ra, rb);
      var rows := SharedRows(ra, rb);
      var c0, c1 := Min(a.col, b.col), Max(a.col, b.col);
      assert c0 == Min(b.col, a.col) && c1 == Max(b.col, a.col);
      var byRow := FirstClearRow(rows.lo, rows.hi, c0, c1);
      if byRow.Some? {
        ReverseFour(a, Point(byRow.value, a.col), Point(byRow.value, b.col), b);
      }
    }

    /** The column turn found from b is the reverse of the one found from a. */
    lemma TurnAtColSymmetric(a: Point, b: Point, ra: Reach, rb: Reach)
      requires Shaped() && Bounded(ra) && Bounded(rb) && 0 <= a.row < H && 0 <= b.row < H
      ensures TurnAtCol(b, a, rb, ra).Some? <==> TurnAtCol(a, b, ra, rb).Some?
      ensures TurnAtCol(a, b, ra, rb).Some? ==> TurnAtCol(b, a, rb, ra).value == Reverse(TurnAtCol(a, b, ra, rb).value)
    {
      SharedSymmetric(ra, rb);
      var cols := SharedCols(ra, rb);
      var r0, r1 := Min(a.row, b.row), Max(a.row, b.row);
      assert r0 == Min(b.row, a.row) && r1 == Max(b.row, a.row);
      var byCol := FirstClearCol(cols.lo, cols.hi, r0, r1);
      if byCol.Some? {
        ReverseFour(a, Point(a.row, byCol.value), Point(b.row, byCol.value), b);
      }
    }

    /** The solver is symmetric: from b to a it finds a path exactly when it
        finds one from a to b, and then the reverse of it. */
    lemma PathSymmetric(a: Point, b: Point)
      requires Shaped() && InBoard(a) && InBoard(b)
      ensures FindPath(b, a).Some? <==> FindPath(a, b).Some?
      ensures FindPath(a, b).Some? ==> FindPath(b, a).value == Reverse(FindPath(a, b).value)
    {
      if Adjacent(a, b) {
        assert Reverse([a, b]) == [b, a];
      } else {
        var ra, rb := ReachOf(a), ReachOf(b);
        TurnAtRowSymmetric(a, b, ra, rb);
        TurnAtColSymmetric(a, b, ra, rb);
      }
    }

    /** The source's row scan: for each row of [lo, hi), walk the columns
        [c0, c1) and stop at the first row where no tile interrupts the walk. */
    method ScanRows(lo: int, hi: int, c0: int, c1: int) returns (found: Option<int>)
      requires Shaped() && (lo < hi ==> 0 <= lo && hi <= H) && 0 <= c0 <= c1 <= W
      ensures found == FirstClearRow(lo, hi, c0, c1)
    {
      var r := lo;
      while r < hi
        invariant lo <= r
        invariant FirstClearRow(lo, hi, c0, c1) == FirstClearRow(r, hi, c0, c1)
      {
        var c := c0;
        while c < c1 && board[r, c] == 0
          invariant c0 <= c <= c1
          invariant forall k :: c0 <= k < c ==> board[r, k] == 0
        {
          c := c + 1;
        }
        if c >= c1 {
          return Some(r);
        }
        r := r + 1;
      }
      return None;
    }

    /** The source's column scan, symmetrically. */
    method ScanCols(lo: int, hi: int, r0: int, r1: int) returns (found: Option<int>)
      requires Shaped() && (lo < hi ==> 0 <= lo && hi <= W) && 0 <= r0 <= r1 <= H
      ensures found == FirstClearCol(lo, hi, r0, r1)
    {
      var c := lo;
      while c < hi
        invariant lo <= c
        invariant FirstClearCol(lo, hi, r0, r1) == FirstClearCol(c, hi, r0, r1)
      {
        var r := r0;
        while r < r1 && board[r, c] == 0
          invariant r0 <= r <= r1
          invariant forall k :: r0 <= k < r ==> board[k, c] == 0
        {
          r := r + 1;
        }
        if r >= r1 {
          return Some(c);
        }
        c := c + 1;
      }
      return None;
    }

    /** The source's second stage: intersect the vertical runs and scan the
        shared rows for a clear stretch between the two columns. */
    method RowTurn(a: Point, b: Point, ma: Reach, mb: Reach) returns (path: Option<seq<Point>>)
      requires Shaped() && InBoard(a) && InBoard(b) && Bounded(ma) && Bounded(mb)
      ensures path == TurnAtRow(a, b, ma, mb)
    {
      var rows := Intersection(Span(ma.top, ma.bottom), Span(mb.top, mb.bottom));
      assert rows == SharedRows(ma, mb);
      var byRow := ScanRows(rows.lo, rows.hi, Min(a.col, b.col), Max(a.col, b.col));
      if byRow.Some? {
        path := Some([a, Point(byRow.value, a.col), Point(byRow.value, b.col), b]);
      } else {
        path := None;
      }
    }

    /** The source's third stage: intersect the horizontal runs and scan the
        shared columns for a clear stretch between the two rows. */
    method ColTurn(a: Point, b: Point, ma: Reach, mb: Reach) returns (path: Option<seq<Point>>)
      requires Shaped() && InBoard(a) && InBoard(b) && Bounded(ma) && Bounded(mb)
      ensures path == TurnAtCol(a, b, ma, mb)
    {
      var cols := Intersection(Span(ma.left, ma.right), Span(mb.left, mb.right));
      assert cols == SharedCols(ma, mb);
      var byCol := ScanCols(cols.lo, cols.hi, Min(a.row, b.row), Max(a.row, b.row));
      if byCol.Some? {
        path := Some([a, Point(a.row, byCol.value), Point(b.row, byCol.value), b]);
      } else {
        path := None;
      }
    }

    /** The source's second and third stages: the row turn, and failing that the column turn. */
    method Turns(a: Point, b: Point, ma: Reach, mb: Reach) returns (path: Option<seq<Point>>)
      requires Shaped() && InBoard(a) && InBoard(b) && Bounded(ma) && Bounded(mb)
      ensures path == if TurnAtRow(a, b, ma, mb).Some? then TurnAtRow(a, b, ma, mb) else TurnAtCol(a, b, ma, mb)
    {
      path := RowTurn(a, b, ma, mb);
      if path.None? {
        path := ColTurn(a, b, ma, mb);
      }
    }

    /** The solver as the source runs it: the neighbour test, the two runs,
        then a scan of the shared rows and, failing that, of the shared columns. */
    method Path(a: Point, b: Point) returns (path: Option<seq<Point>>)
      requires Shaped() && InBoard(a) && InBoard(b)
      ensures path == FindPath(a, b)
    {
      if (a.row == b.row && Abs(a.col - b.col) == 1) || (a.col == b.col && Abs(a.row - b.row) == 1) {
        path := Some([a, b]);
      } else {
        var ma := MoveableVH(a);
        var mb := MoveableVH(b);
        path := Turns(a, b, ma, mb);
        ReachUnique(a, ma, ReachOf(a));
        ReachUnique(b, mb, ReachOf(b));
      }
    }

    // ------------------------------------------------------------------
    // Reading one cell

    /** One of the source's corner loops: sample the corners in order and stop
        at the first whose darkness is rejectDark (Some(true)); Some(false)
        when none is; None when a sample falls outside the raster. */
    static method CheckCorners(screen: Raster, origin: Point, corners: seq<Point>, rejectDark: bool)
      returns (r: Option<bool>)
      ensures r == ScanCorners(screen, origin, corners, rejectDark)
    {
      var k := 0;
      while k < |corners|
        invariant 0 <= k <= |corners|
        invariant ScanCorners(screen, origin, corners, rejectDark) == ScanCorners(screen, origin, corners[k..], rejectDark)
      {
        var q := Add(origin, corners[k]);
        if !InRaster(screen, q) {
          return None;
        }
        if (Gray(screen[q.row][q.col]) < DARK_LEVEL) == rejectDark {
          return Some(true);
        }
        assert corners[k..][1..] == corners[k + 1..];
        k := k + 1;
      }
      return Some(false);
    }

    /** The fingerprint of cell (x, y) as the source computes it: the four
        inner corners must be light, the three outer corners dark, then the
        64 samples are packed, and an all-light or all-dark pattern gives 0.
        None stands for the source's failed read outside the raster. */
    static method CellId(screen: Raster, points: seq<Point>, x: nat, y: nat) returns (id: Option<int>)
      requires points == IdPoints()
      ensures id == CellIdOf(screen, x, y)
    {
      var origin := CellPoint(x, y);
      var inner := CheckCorners(screen, origin, INNER_CORNERS, true);
      if inner.None? {
        return None;
      } else if inner.value {
        return Some(0);
      }
      var outer := CheckCorners(screen, origin, OUTER_CORNERS, false);
      if outer.None? {
        return None;
      } else if outer.value {
        return Some(0);
      }
      var inRaster, hash, blackCnt := SampleIdPoints(screen, origin, points);
      if !inRaster {
        return None;
      }
      if blackCnt == 0 || blackCnt == |points| {
        return Some(0);
      }
      return Some(hash);
    }

    /** Reads the sampled points of a cell, one bit per point (dark or not),
        packing the bits into hash and counting the dark ones. inRaster is
        false when a point lies outside the raster. */
    static method SampleIdPoints(screen: Raster, origin: Point, points: seq<Point>)
      returns (inRaster: bool, hash: int, blackCnt: nat)
      ensures inRaster <==> AllInRaster(screen, origin, points)
      ensures inRaster ==> hash == Pack(Pattern(screen, origin, points))
      ensures inRaster ==> blackCnt == CountDark(Pattern(screen, origin, points))
    {
      hash, blackCnt := 0, 0;
      ghost var bits: seq<bool> := [];
      var k := 0;
      while k < |points|
        invariant 0 <= k <= |points|
        invariant AllInRaster(screen, origin, points[..k])
        invariant bits == Pattern(screen, origin, points[..k])
        invariant hash == Pack(bits) && blackCnt == CountDark(bits)
      {
        var q := Add(origin, points[k]);
        if !InRaster(screen, q) {
          return false, 0, 0;
        }
        var isBlack := Gray(screen[q.row][q.col]) < DARK_LEVEL;
        if isBlack {
          blackCnt := blackCnt + 1;
        }
        hash := 2 * hash + BitValue(isBlack);
        assert (bits + [isBlack])[..|bits|] == bits;
        bits := bits + [isBlack];
        k := k + 1;
      }
      assert points[..k] == points;
      inRaster := true;
    }

    // ------------------------------------------------------------------
    // Reading the whole board

    /** Reads the board from the raster: fingerprints every cell, drops the
        fingerprints that cannot form pairs and renumbers the others. When a
        read falls outside the raster nothing is changed and ok is false. */
    method Refresh(screen: Raster) returns (ok: bool)
      requires idPoints == IdPoints()
      modifies this
      ensures idPoints == old(idPoints)
      ensures ok <==> RasterOk(screen)
      ensures !ok ==> unchanged(this)
      ensures ok ==> fresh(board) && Valid() && typeCnt == TypeCount(PaddedRaw(screen))
      ensures ok ==> forall r, c :: 0 <= r < H && 0 <= c < W ==>
                       board[r, c] == Canonical(PaddedRaw(screen))[Flat(r, c)]
    {
      var b, dic;
      ok, b, dic := ReadCells(screen);
      if !ok {
        return;
      }
      ghost var raw := PaddedRaw(screen);
      var vis := Renumber(b, dic, raw);
      typeCnt := |vis|;
      board := b;
      forall r, c | 0 <= r < H && 0 <= c < W && OnBorder(r, c)
        ensures raw[Flat(r, c)] == 0
      {
        assert RawAt(screen, r, c) == Some(0);
      }
      CanonicalValid(raw);
    }

    /** A board holding the canonical form of a padded fingerprint board, with
        its count of ids, is valid. */
    lemma CanonicalValid(raw: seq<int>)
      requires Shaped() && idPoints == IdPoints() && |raw| == H * W
      requires forall r, c :: 0 <= r < H && 0 <= c < W && OnBorder(r, c) ==> raw[Flat(r, c)] == 0
      requires forall r, c :: 0 <= r < H && 0 <= c < W ==> board[r, c] == Canonical(raw)[Flat(r, c)]
      requires typeCnt == TypeCount(raw)
      ensures Valid()
    {
      forall v | 1 <= v <= typeCnt
        ensures Occurs(v)
      {
        CanonicalDense(raw, v);
        var p :| 0 <= p < |raw| && Canonical(raw)[p] == v;
        var r, c := p / W, p % W;
        assert Flat(r, c) == p;
        assert board[r, c] == v;
      }
    }

    /** The source's first pass over the grid: read every cell into a padded
        board (empty border) and count how often each fingerprint was read.
        ok is false when some read falls outside the raster. */
    method ReadCells(screen: Raster) returns (ok: bool, b: array2<int>, dic: map<int, nat>)
      requires idPoints == IdPoints()
      ensures fresh(b) && b.Length0 == H && b.Length1 == W
      ensures ok <==> RasterOk(screen)
      ensures ok ==> CountsOf(dic, PaddedRaw(screen))
      ensures ok ==> forall r, c :: 0 <= r < H && 0 <= c < W ==> b[r, c] == PaddedRaw(screen)[Flat(r, c)]
    {
      b := new int[H, W]((r, c) => 0);
      dic := map[];
      ghost var built: seq<int> := seq(W, _ => 0);
      var i := 0;
      while i < CELL_MAX_ROW
        invariant 0 <= i <= CELL_MAX_ROW
        invariant ReadOk(screen, built, i + 1, 0) && Holds(b, built, i + 1, 0) && CountsOf(dic, built)
      {
        ok, dic, built := ReadRow(screen, b, i, dic, built);
        if !ok {
          return false, b, dic;
        }
        i := i + 1;
      }
      ghost var c := 0;
      while c < W
        invariant 0 <= c <= W
        invariant ReadOk(screen, built, H - 1, c) && Holds(b, built, H - 1, c) && CountsOf(dic, built)
      {
        ReadOkAppend(screen, built, H - 1, c, 0);
        CountsAppend(dic, built, 0);
        built := built + [0];
        c := c + 1;
      }
      assert ReadOk(screen, built, H, 0);
      assert RasterOk(screen);
      assert built == PaddedRaw(screen) by {
        forall p | 0 <= p < H * W
          ensures built[p] == PaddedRaw(screen)[p]
        {
          assert p == Flat(p / W, p % W);
        }
      }
      ok := true;
    }

    /** One row of the first pass: the left border, the cells of grid row i,
        the right border. */
    method ReadRow(screen: Raster, b: array2<int>, i: int, dic0: map<int, nat>, ghost built0: seq<int>)
      returns (ok: bool, dic: map<int, nat>, ghost built: seq<int>)
      requires idPoints == IdPoints() && 0 <= i < CELL_MAX_ROW
      requires ReadOk(screen, built0, i + 1, 0) && Holds(b, built0, i + 1, 0) && CountsOf(dic0, built0)
      modifies b
      ensures ok ==> ReadOk(screen, built, i + 2, 0) && Holds(b, built, i + 2, 0) && CountsOf(dic, built)
      ensures !ok ==> !RasterOk(screen)
      ensures !ok ==> exists c {:trigger RawAt(screen, i + 1, c)} :: 1 <= c <= CELL_MAX_COL && RawAt(screen, i + 1, c).None?
      ensures !ok ==> exists c {:trigger Holds(b, built, i + 1, c)} :: 1 <= c <= CELL_MAX_COL && Holds(b, built, i + 1, c)
    {
      ReadOkAppend(screen, built0, i + 1, 0, 0);
      CountsAppend(dic0, built0, 0);
      dic, built := dic0, built0 + [0];
      var j := 0;
      while j < CELL_MAX_COL
        invariant 0 <= j <= CELL_MAX_COL
        invariant ReadOk(screen, built, i + 1, j + 1) && Holds(b, built, i + 1, j + 1) && CountsOf(dic, built)
      {
        var cid;
        cid, dic, built := ReadStep(screen, b, i, j, dic, built);
        if cid.None? {
          assert RawAt(screen, i + 1, j + 1).None? && Holds(b, built, i + 1, j + 1);
          return false, dic, built;
        }
        j := j + 1;
      }
      ReadOkAppend(screen, built, i + 1, W - 1, 0);
      CountsAppend(dic, built, 0);
      built := built + [0];
      assert Flat(i + 1, W) == Flat(i + 2, 0);
      ok := true;
    }

    /** One step of the first pass: reads cell (i, j) of the grid into the
        padded board at (i + 1, j + 1) and counts its fingerprint; None when a
        read falls outside the raster. */
    method ReadStep(screen: Raster, b: array2<int>, i: int, j: int, dic0: map<int, nat>, ghost built0: seq<int>)
      returns (cid: Option<int>, dic: map<int, nat>, ghost built: seq<int>)
      requires idPoints == IdPoints() && 0 <= i < CELL_MAX_ROW && 0 <= j < CELL_MAX_COL
      requires ReadOk(screen, built0, i + 1, j + 1) && Holds(b, built0, i + 1, j + 1) && CountsOf(dic0, built0)
      modifies b
      ensures cid == RawAt(screen, i + 1, j + 1)
      ensures cid.Some? ==> ReadOk(screen, built, i + 1, j + 2) && Holds(b, built, i + 1, j + 2) && CountsOf(dic, built)
      ensures cid.None? ==> Holds(b, built, i + 1, j + 1)
    {
      dic, built := dic0, built0;
      cid := ReadCell(screen, b, i, j, built);
      if cid.Some? {
        var id := cid.value;
        ReadOkAppend(screen, built, i + 1, j + 1, id);
        CountsAppend(dic, built, id);
        dic := dic[id := if id in dic then dic[id] + 1 else 1];
        built := built + [id];
      }
    }

    /** Reads cell (i, j) of the grid into the padded board at (i + 1, j + 1);
        None when a read falls outside the raster. */
    method ReadCell(screen: Raster, b: array2<int>, i: int, j: int, ghost built: seq<int>) returns (cid: Option<int>)
      requires idPoints == IdPoints() && 0 <= i < CELL_MAX_ROW && 0 <= j < CELL_MAX_COL
      requires Holds(b, built, i + 1, j + 1)
      modifies b
      ensures cid == RawAt(screen, i + 1, j + 1)
      ensures cid.Some? ==> Holds(b, built + [cid.value], i + 1, j + 2)
      ensures cid.None? ==> Holds(b, built, i + 1, j + 1)
    {
      cid := CellId(screen, idPoints, i, j);
      if cid.None? {
        return;
      }
      Store(b, i + 1, j + 1, cid.value, built);
    }

    /** Writes the next cell of the first pass, at (r, c) of the padded board. */
    static method Store(b: array2<int>, r: int, c: int, v: int, ghost built: seq<int>)
      requires 0 <= r < H && 0 <= c < W - 1 && Holds(b, built, r, c)
      modifies b
      ensures Holds(b, built + [v], r, c + 1)
    {
      b[r, c] := v;
      forall r', c' | 0 <= r' < H && 0 <= c' < W
        ensures b[r', c'] == if Done(r', c', r, c + 1) then (built + [v])[Flat(r', c')] else 0
      {
        if r' == r && c' == c {
          assert Flat(r', c') == |built|;
        } else {
          assert b[r', c'] == old(b[r', c']);
        }
      }
    }

    /** The source's second pass: clear every fingerprint read an odd number
        of times or more than four times, and renumber the others 1, 2, … in
        order of first appearance. */
    static method Renumber(b: array2<int>, dic: map<int, nat>, ghost raw: seq<int>) returns (vis: map<int, int>)
      requires b.Length0 == H && b.Length1 == W && |raw| == H * W
      requires forall r, c :: 0 <= r < H && 0 <= c < W ==> b[r, c] == raw[Flat(r, c)]
      requires CountsOf(dic, raw)
      modifies b
      ensures forall r, c :: 0 <= r < H && 0 <= c < W ==> b[r, c] == Canonical(raw)[Flat(r, c)]
      ensures |vis| == TypeCount(raw)
    {
      vis := map[];
      var visCnt := 0;
      assert raw[..Flat(0, 0)] == [];
      var i := 0;
      while i < H
        invariant 0 <= i <= H
        invariant Seen(raw, vis, visCnt, Flat(i, 0)) && Renumbered(b, raw, i, 0)
      {
        vis, visCnt := RenumberRow(b, i, dic, vis, visCnt, raw);
        i := i + 1;
      }
      assert raw[..Flat(H, 0)] == raw;
      DistinctCard(Order(raw, raw));
      assert vis.Keys == set f | f in Order(raw, raw);
    }

    // ------------------------------------------------------------------
    // Hints

    /** The cells holding id v among the cells before (r, c), in row-major order. */
    function Cells(v: int, r: int, c: int): (s: seq<Point>)
      reads this, board
      requires Shaped() && 0 <= r <= H && 0 <= c <= W && (r < H || c == 0)
      ensures forall i :: 0 <= i < |s| ==> InBoard(s[i]) && At(s[i]) == v && Done(s[i].row, s[i].col, r, c)
      decreases r, c
    {
      if c == 0 then
        if r == 0 then [] else Cells(v, r - 1, W)
      else
        Cells(v, r, c - 1) + (if board[r, c - 1] == v then [Point(r, c - 1)] else [])
    }

    /** The cells are listed in row-major order, and every cell before (r, c)
        holding v is listed. */
    lemma {:induction false} CellsOrdered(v: int, r: int, c: int)
      requires Shaped() && 0 <= r <= H && 0 <= c <= W && (r < H || c == 0)
      ensures forall i, j :: 0 <= i < j < |Cells(v, r, c)| ==> Before(Cells(v, r, c)[i], Cells(v, r, c)[j])
      ensures forall x, y :: 0 <= x < H && 0 <= y < W && Done(x, y, r, c) && board[x, y] == v ==>
                Point(x, y) in Cells(v, r, c)
      decreases r, c
    {
      if c == 0 {
        if r > 0 {
          CellsOrdered(v, r - 1, W);
        }
      } else {
        CellsOrdered(v, r, c - 1);
      }
    }

    /** The cells holding id v, in row-major order. */
    function Group(v: int): seq<Point>
      reads this, board
      requires Shaped()
    {
      Cells(v, board.Length0, 0)
    }

    /** cardPos maps every id met before (r, c) to its cells met so far. */
    ghost predicate CardsUpTo(cardPos: map<int, seq<Point>>, r: int, c: int)
      reads this, board
      requires Shaped() && 0 <= r <= H && 0 <= c <= W && (r < H || c == 0)
    {
      && 0 !in cardPos
      && forall v :: v != 0 ==>
           if Cells(v, r, c) == [] then v !in cardPos else v in cardPos && cardPos[v] == Cells(v, r, c)
    }

    /** Groups the cells of the board by id, each group in row-major order.
        The ids met are exactly 1 … typeCnt. */
    method CardPositions() returns (cardPos: map<int, seq<Point>>)
      requires Valid()
      ensures forall v :: v in cardPos <==> 1 <= v <= typeCnt
      ensures forall v :: v in cardPos ==> cardPos[v] == Group(v) && |cardPos[v]| > 0
      ensures |cardPos| == typeCnt
    {
      cardPos := map[];
      var r := 0;
      while r < H
        invariant 0 <= r <= H
        invariant CardsUpTo(cardPos, r, 0)
      {
        var c := 0;
        while c < W
          invariant 0 <= c <= W
          invariant CardsUpTo(cardPos, r, c)
        {
          var cid := board[r, c];
          if cid != 0 {
            cardPos := cardPos[cid := if cid in cardPos then cardPos[cid] + [Point(r, c)] else [Point(r, c)]];
          }
          c := c + 1;
        }
        r := r + 1;
      }
      forall v | v in cardPos
        ensures 1 <= v <= typeCnt
      {
        var p := Group(v)[0];
      }
      forall v | 1 <= v <= typeCnt
        ensures v in cardPos
      {
        assert Occurs(v);
        var x, y :| 0 <= x < H && 0 <= y < W && board[x, y] == v;
        CellsOrdered(v, H, 0);
        assert Point(x, y) in Group(v);
      }
      assert cardPos.Keys == IdSet(typeCnt);
    }

    /** No pair (i', j') of g searched before (i, j) can be joined: the pairs
        are searched with i' ascending, then j' ascending. */
    ghost predicate NoPairBefore(g: seq<Point>, i: int, j: int)
      reads this, board
      requires Shaped() && AllInBoard(g)
    {
      forall i', j' {:trigger FindPath(g[i'], g[j'])} ::
        0 <= i' < j' < |g| && (i' < i || (i' == i && j' < j)) ==> FindPath(g[i'], g[j']).None?
    }

    /** Moving past pair (x, y) when it cannot be joined. */
    lemma NoPairStep(g: seq<Point>, x: int, y: int)
      requires Shaped() && AllInBoard(g) && 0 <= x < y < |g|
      requires NoPairBefore(g, x, y) && FindPath(g[x], g[y]).None?
      ensures NoPairBefore(g, x, y + 1)
    {
      forall i', j' | 0 <= i' < j' < |g| && (i' < x || (i' == x && j' < y + 1))
        ensures FindPath(g[i'], g[j']).None?
      {
        if i' != x || j' != y {
          assert i' < x || (i' == x && j' < y);
        }
      }
    }

    /** The pairs before (x, x + 1) and before (x, |g|) are those before (x, 0)
        and before (x + 1, 0). */
    lemma NoPairNext(g: seq<Point>, x: int)
      requires Shaped() && AllInBoard(g) && 0 <= x < |g|
      ensures NoPairBefore(g, x, 0) <==> NoPairBefore(g, x, x + 1)
      ensures NoPairBefore(g, x, |g|) <==> NoPairBefore(g, x + 1, 0)
    {
    }

    /** No two cells of g can be joined. */
    ghost predicate NoPair(g: seq<Point>)
      reads this, board
      requires Shaped() && AllInBoard(g)
    {
      NoPairBefore(g, |g|, 0)
    }

    /** No two distinct cells holding the same tile can be joined. */
    ghost predicate NoMove()
      reads this, board
      requires Shaped()
    {
      forall a, b {:trigger FindPath(a, b)} ::
        InBoard(a) && InBoard(b) && At(a) != 0 && At(a) == At(b) && Before(a, b) ==> FindPath(a, b).None?
    }

    /** Tries the pairs (x, y), x < y, of one group with x ascending, then y
        ascending, and returns the first that can be joined with its path. */
    method FirstPair(points: seq<Point>) returns (move: Option<Move>, ghost i: int, ghost j: int)
      requires Shaped() && AllInBoard(points)
      ensures move.None? ==> NoPair(points)
      ensures move.Some? ==>
                && 0 <= i < j < |points| && move.value.from == points[i] && move.value.to == points[j]
                && FindPath(points[i], points[j]) == Some(move.value.path) && NoPairBefore(points, i, j)
    {
      var x := 0;
      while x < |points|
        invariant 0 <= x <= |points|
        invariant NoPairBefore(points, x, 0)
      {
        var y := x + 1;
        NoPairNext(points, x);
        while y < |points|
          invariant x + 1 <= y <= |points|
          invariant NoPairBefore(points, x, y)
        {
          var path := FindPath(points[x], points[y]);
          if path.Some? {
            return Some(Move(points[x], points[y], path.value)), x, y;
          }
          NoPairStep(points, x, y);
          y := y + 1;
        }
        NoPairNext(points, x);
        x := x + 1;
      }
      return None, 0, 0;
    }

    /** m joins two distinct cells holding the same tile, the first before
        the second in row-major order, along the path the solver finds. */
    ghost predicate IsMove(m: Move)
      reads this, board
      requires Shaped()
    {
      && InBoard(m.from) && InBoard(m.to)
      && At(m.from) != 0 && At(m.from) == At(m.to) && Before(m.from, m.to)
      && FindPath(m.from, m.to) == Some(m.path)
    }

    /** m is pair (i, j) of group perm[k] + 1, the groups before it in perm
        have no pair that can be joined, and neither have the pairs of its
        own group searched before (i, j). */
    ghost predicate FirstOf(perm: seq<int>, k: int, i: int, j: int, m: Move)
      reads this, board
      requires Shaped()
    {
      && 0 <= k < |perm|
      && (forall k' :: 0 <= k' < k ==> NoPair(Group(perm[k'] + 1)))
      && 0 <= i < j < |Group(perm[k] + 1)|
      && m.from == Group(perm[k] + 1)[i] && m.to == Group(perm[k] + 1)[j]
      && NoPairBefore(Group(perm[k] + 1), i, j)
    }

    /** Suggests a move: the groups of equal tiles are tried in the order perm
        gives (the shuffle), and within a group the pairs in the order
        FirstPair tries them; the first pair that can be joined is returned
        with its path. None when no pair on the board can be joined. The ghost
        results name the group and the pair that were found. */
    method Hint(perm: seq<int>) returns (move: Option<Move>, ghost k: int, ghost i: int, ghost j: int)
      requires Valid() && IsPermutation(perm, typeCnt)
      ensures move.Some? ==> IsMove(move.value) && FirstOf(perm, k, i, j, move.value)
      ensures move.None? <==> NoMove()
    {
      var cardPos := CardPositions();
      var g := 0;
      while g < |perm|
        invariant 0 <= g <= |perm|
        invariant Valid()
        invariant forall v :: v in cardPos ==> cardPos[v] == Group(v)
        invariant forall k' :: 0 <= k' < g ==> NoPair(Group(perm[k'] + 1))
      {
        move, i, j := FirstPair(cardPos[perm[g] + 1]);
        if move.Some? {
          k := g;
          FoundIsMove(cardPos, perm, k, i, j, move.value);
          return;
        }
        NoPairExtend(cardPos, perm, g);
        g := g + 1;
      }
      NoMoveOfGroups(perm);
      move, k, i, j := None, 0, 0, 0;
    }

    /** The pair found first is a move, found in the order the search promises. */
    lemma FoundIsMove(cardPos: map<int, seq<Point>>, perm: seq<int>, k: int, i: int, j: int, m: Move)
      requires Valid() && IsPermutation(perm, typeCnt) && 0 <= k < |perm|
      requires forall v :: v in cardPos <==> 1 <= v <= typeCnt
      requires forall v :: v in cardPos ==> cardPos[v] == Group(v)
      requires forall k' :: 0 <= k' < k ==> NoPair(Group(perm[k'] + 1))
      requires AllInBoard(cardPos[perm[k] + 1]) && 0 <= i < j < |cardPos[perm[k] + 1]|
      requires m.from == cardPos[perm[k] + 1][i] && m.to == cardPos[perm[k] + 1][j]
      requires FindPath(m.from, m.to) == Some(m.path) && NoPairBefore(cardPos[perm[k] + 1], i, j)
      ensures IsMove(m) && FirstOf(perm, k, i, j, m) && !NoMove()
    {
      CellsOrdered(perm[k] + 1, H, 0);
    }

    /** One more group of the permutation has been searched in vain. */
    lemma NoPairExtend(cardPos: map<int, seq<Point>>, perm: seq<int>, g: int)
      requires Shaped() && 0 <= g < |perm| && perm[g] + 1 in cardPos
      requires forall v :: v in cardPos ==> cardPos[v] == Group(v)
      requires forall k' :: 0 <= k' < g ==> NoPair(Group(perm[k'] + 1))
      requires AllInBoard(cardPos[perm[g] + 1]) && NoPair(cardPos[perm[g] + 1])
      ensures forall k' :: 0 <= k' < g + 1 ==> NoPair(Group(perm[k'] + 1))
    {
    }

    /** If no group the permutation lists has a joinable pair, no move exists. */
    lemma NoMoveOfGroups(perm: seq<int>)
      requires Valid() && IsPermutation(perm, typeCnt)
      requires forall k :: 0 <= k < |perm| ==> NoPair(Group(perm[k] + 1))
      ensures NoMove()
    {
      forall a, b | InBoard(a) && InBoard(b) && At(a) != 0 && At(a) == At(b) && Before(a, b)
        ensures FindPath(a, b).None?
      {
        assert At(a) - 1 in perm;
        var k :| 0 <= k < |perm| && perm[k] == At(a) - 1;
        NoPairInGroup(perm[k] + 1, a, b);
      }
    }

    /** Two cells of a group without joinable pairs cannot be joined. */
    lemma NoPairInGroup(v: int, a: Point, b: Point)
      requires Shaped() && InBoard(a) && InBoard(b) && At(a) == v && At(b) == v && Before(a, b)
      requires NoPair(Group(v))
      ensures FindPath(a, b).None?
    {
      var g := Group(v);
      CellsOrdered(v, H, 0);
      assert a in g && b in g;
      var i :| 0 <= i < |g| && g[i] == a;
      var j :| 0 <= j < |g| && g[j] == b;
      assert i < j;
      assert FindPath(g[i], g[j]).None?;
    }
  }

  function Abs(v: int): int {
    if v < 0 then -v else v
  }

  /** The ids 1 … n. */
  function IdSet(n: nat): (ids: set<int>)
    ensures forall v :: v in ids <==> 1 <= v <= n
    ensures |ids| == n
  {
    if n == 0 then {} else IdSet(n - 1) + {n}
  }
}
