/** Where a block fits on the shape, and which squares it covers there. */
module Placement {
  import opened Grids

  /** A square of the shape, or the offset of a block's top-left corner. */
  datatype Pos = Pos(row: nat, col: nat)

  /** Row-major order, the order of Python's tuple comparison. */
  predicate Before(p: Pos, q: Pos) {
    p.row < q.row || (p.row == q.row && p.col < q.col)
  }

  predicate StrictlyRowMajor(ps: seq<Pos>) {
    forall i, j :: 0 <= i < j < |ps| ==> Before(ps[i], ps[j])
  }

  /** Two row-major lists, the first wholly before the second, join into one. */
  lemma JoinRowMajor(a: seq<Pos>, b: seq<Pos>)
    requires StrictlyRowMajor(a) && StrictlyRowMajor(b)
    requires forall p, q :: p in a && q in b ==> Before(p, q)
    ensures StrictlyRowMajor(a + b)
  {
    forall i, j | 0 <= i < j < |a + b|
      ensures Before((a + b)[i], (a + b)[j])
    {
      if j < |a| {
      } else if i < |a| {
        assert (a + b)[i] in a && (a + b)[j] in b;
      } else {
        assert (a + b)[i] == b[i - |a|] && (a + b)[j] == b[j - |a|];
      }
    }
  }

  lemma AppendRowMajor(ps: seq<Pos>, x: Pos)
    requires StrictlyRowMajor(ps) && forall p :: p in ps ==> Before(p, x)
    ensures StrictlyRowMajor(ps + [x])
    ensures forall p :: p in ps + [x] <==> p in ps || p == x
  {
    JoinRowMajor(ps, [x]);
  }

  /** Python's `s[k:]` for a non-negative `k`: empty when `k` is past the end. */
  function Drop<T>(s: seq<T>, k: nat): (r: seq<T>)
    ensures |r| == if k <= |s| then |s| - k else 0
    ensures forall i :: 0 <= i < |r| ==> r[i] == s[k + i]
  {
    if k <= |s| then s[k..] else []
  }

  /** The squarewise AND of two rows, as long as the shorter one (`izip`
      stops at the end of either). */
  function Mask(b: seq<Bit>, s: seq<Bit>): (m: seq<Bit>)
    ensures |m| == if |b| <= |s| then |b| else |s|
    ensures forall j :: 0 <= j < |m| ==> m[j] == if b[j] == 1 && s[j] == 1 then 1 else 0
  {
    if |b| == 0 || |s| == 0 then []
    else [if b[0] == 1 && s[0] == 1 then 1 else 0] + Mask(b[1..], s[1..])
  }

  /** A block row fits on a shape row when masking leaves it unchanged. */
  predicate RowFits(b: seq<Bit>, s: seq<Bit>) {
    Mask(b, s) == b
  }

  /** A row fits exactly when the shape row is long enough and has a filled
      square under every filled square of the block row. */
  lemma RowFitsIff(b: seq<Bit>, s: seq<Bit>)
    ensures RowFits(b, s) <==>
      |b| <= |s| && forall j :: 0 <= j < |b| && b[j] == 1 ==> s[j] == 1
  {
    if |b| <= |s| && forall j :: 0 <= j < |b| && b[j] == 1 ==> s[j] == 1 {
      var m := Mask(b, s);
      forall j | 0 <= j < |b|
        ensures m[j] == b[j]
      {
      }
    }
  }

  /** The row-by-row loop of the fit test over the block's rows paired with
      the shape's rows from the offset on; pairing stops at the end of
      either. */
  function FitRows(bs: Grid, ss: Grid, col: nat): bool {
    if |bs| == 0 || |ss| == 0 then true
    else RowFits(bs[0], Drop(ss[0], col)) && FitRows(bs[1..], ss[1..], col)
  }

  function CanPlaceAt(row: nat, col: nat, block: Grid, shape: Grid): bool {
    FitRows(block, Drop(shape, row), col)
  }

  /** Where the shape has at least as many rows as the block, the fit test
      is the conjunction of the row tests. */
  lemma {:induction false} FitRowsAll(bs: Grid, ss: Grid, col: nat)
    requires |bs| <= |ss|
    ensures FitRows(bs, ss, col) <==>
      forall i :: 0 <= i < |bs| ==> RowFits(bs[i], Drop(ss[i], col))
  {
    if |bs| > 0 {
      FitRowsAll(bs[1..], ss[1..], col);
      assert forall i :: 1 <= i < |bs| ==> bs[i] == bs[1..][i - 1] && ss[i] == ss[1..][i - 1];
    }
  }

  /** Every filled square of the block, moved by the offset, lands on a
      filled square of the shape. */
  predicate CoversOnes(row: nat, col: nat, block: Grid, shape: Grid) {
    forall i, j :: 0 <= i < |block| && 0 <= j < |block[i]| && block[i][j] == 1 ==>
      row + i < |shape| && col + j < |shape[row + i]| && shape[row + i][col + j] == 1
  }

  /** At an offset that keeps the block inside the shape, the fit test holds
      exactly when the block's filled squares all land on filled squares. */
  lemma CanPlaceAtIff(row: nat, col: nat, block: Grid, shape: Grid)
    requires Rectangular(block) && Rectangular(shape)
    requires row + Height(block) <= Height(shape) && col + Width(block) <= Width(shape)
    ensures CanPlaceAt(row, col, block, shape) <==> CoversOnes(row, col, block, shape)
  {
    var ss := Drop(shape, row);
    FitRowsAll(block, ss, col);
    forall i | 0 <= i < |block|
      ensures RowFits(block[i], Drop(ss[i], col)) <==>
        forall j :: 0 <= j < |block[i]| && block[i][j] == 1 ==> shape[row + i][col + j] == 1
    {
      RowFitsIff(block[i], Drop(ss[i], col));
      assert ss[i] == shape[row + i];
      assert |block[i]| <= |Drop(ss[i], col)|;
    }
    if CanPlaceAt(row, col, block, shape) {
      forall i, j | 0 <= i < |block| && 0 <= j < |block[i]| && block[i][j] == 1
        ensures row + i < |shape| && col + j < |shape[row + i]| && shape[row + i][col + j] == 1
      {
        assert RowFits(block[i], Drop(ss[i], col));
      }
    }
  }

  /** Block rows that hang below the shape's last row are never examined. */
  lemma {:induction false} FitRowsOverhang(bs: Grid, ss: Grid, col: nat)
    requires |bs| > |ss|
    ensures FitRows(bs, ss, col) == FitRows(bs[..|ss|], ss, col)
  {
    if |ss| > 0 {
      assert bs[..|ss|][1..] == bs[1..][..|ss| - 1];
      FitRowsOverhang(bs[1..], ss[1..], col);
    }
  }

  /** An offset at which the source's loops try the block and the fit test
      passes. */
  predicate Admissible(p: Pos, block: Grid, shape: Grid)
    requires |block| > 0 && |shape| > 0
  {
    && p.row < 1 + Height(shape) - Height(block)
    && p.col < 1 + Width(shape) - Width(block)
    && CanPlaceAt(p.row, p.col, block, shape)
  }

  /** Every offset at which the block fits, in row-major order. */
  method Place(block: Grid, shape: Grid) returns (locs: seq<Pos>)
    requires |block| > 0 && |shape| > 0
    ensures StrictlyRowMajor(locs)
    ensures forall p :: p in locs <==> Admissible(p, block, shape)
  {
    locs := Scan(1 + Height(shape) - Height(block), 1 + Width(shape) - Width(block),
                 (r: nat, c: nat) => CanPlaceAt(r, c, block, shape));
  }

  /** The two nested loops of the search, over rows below `rows` and columns
      below `cols`, keeping the offsets that pass `fits`. */
  method Scan(rows: int, cols: int, fits: (nat, nat) -> bool) returns (locs: seq<Pos>)
    ensures StrictlyRowMajor(locs)
    ensures forall p :: p in locs <==> p.row < rows && p.col < cols && fits(p.row, p.col)
  {
    locs := [];
    var row: nat := 0;
    while row < rows
      invariant row <= if rows < 0 then 0 else rows
      invariant StrictlyRowMajor(locs)
      invariant forall p :: p in locs ==> p.row < row
      invariant forall p :: p in locs <==> p.row < row && p.col < cols && fits(p.row, p.col)
    {
      var col: nat := 0;
      while col < cols
        invariant col <= if cols < 0 then 0 else cols
        invariant StrictlyRowMajor(locs)
        invariant forall p :: p in locs ==> Before(p, Pos(row, col))
        invariant forall p :: p in locs <==>
          (p.row < row && p.col < cols && fits(p.row, p.col)) ||
          (p.row == row && p.col < col && fits(p.row, p.col))
      {
        if fits(row, col) {
          AppendRowMajor(locs, Pos(row, col));
          locs := locs + [Pos(row, col)];
        }
        col := col + 1;
      }
      forall p | true
        ensures p in locs <==> p.row < row + 1 && p.col < cols && fits(p.row, p.col)
      {
      }
      row := row + 1;
    }
    forall p | true
      ensures p in locs <==> p.row < rows && p.col < cols && fits(p.row, p.col)
    {
    }
  }

  /** The number of filled squares in a row. */
  function Ones(line: seq<Bit>): nat {
    if |line| == 0 then 0 else line[0] + Ones(line[1..])
  }

  /** The number of filled squares in a grid. */
  function Count(g: Grid): nat {
    if |g| == 0 then 0 else Ones(g[0]) + Count(g[1..])
  }

  /** The squares covered by one block row placed at (row, col). */
  function CoverLine(row: nat, col: nat, line: seq<Bit>): (cells: seq<Pos>)
    ensures |cells| == Ones(line)
    ensures forall q :: q in cells <==>
      q.row == row && col <= q.col < col + |line| && line[q.col - col] == 1
    ensures StrictlyRowMajor(cells)
    decreases |line|
  {
    if |line| == 0 then []
    else
      var rest := CoverLine(row, col + 1, line[1..]);
      var head := if line[0] == 1 then [Pos(row, col)] else [];
      JoinRowMajor(head, rest);
      head + rest
  }

  /** The squares a block placed at (row, col) covers: one per filled square
      of the block, in row-major order. */
  function CoverAt(row: nat, col: nat, block: Grid): (cells: seq<Pos>)
    ensures |cells| == Count(block)
    ensures forall q :: q in cells <==>
      row <= q.row < row + |block| && col <= q.col < col + |block[q.row - row]| &&
      block[q.row - row][q.col - col] == 1
    ensures StrictlyRowMajor(cells)
    decreases |block|
  {
    if |block| == 0 then []
    else
      var first := CoverLine(row, col, block[0]);
      var rest := CoverAt(row + 1, col, block[1..]);
      JoinRowMajor(first, rest);
      first + rest
  }

  /** A block placed at an offset the placement search returns covers only
      squares inside the shape, and only filled ones. */
  lemma PlacedCellsInShape(p: Pos, block: Grid, shape: Grid)
    requires Rectangular(block) && Rectangular(shape)
    requires Admissible(p, block, shape)
    ensures forall q :: q in CoverAt(p.row, p.col, block) ==>
      q.row < Height(shape) && q.col < Width(shape) && shape[q.row][q.col] == 1
  {
    assert CoversOnes(p.row, p.col, block, shape) by {
      CanPlaceAtIff(p.row, p.col, block, shape);
    }
    forall q | q in CoverAt(p.row, p.col, block)
      ensures q.row < Height(shape) && q.col < Width(shape) && shape[q.row][q.col] == 1
    {
      CoveredSquareFilled(p.row, p.col, block, shape, q);
    }
  }

  /** Where every filled block square lands on a filled shape square, so
      does every covered square. */
  lemma CoveredSquareFilled(row: nat, col: nat, block: Grid, shape: Grid, q: Pos)
    requires CoversOnes(row, col, block, shape) && q in CoverAt(row, col, block)
    ensures q.row < |shape| && q.col < |shape[q.row]| && shape[q.row][q.col] == 1
  {
    var i := q.row - row;
    var j := q.col - col;
    assert block[i][j] == 1;
  }
}
