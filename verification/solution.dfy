/** Drawing a solution: every placement the solver switched on paints the
    squares it covers with its own label, '0' for the first, '1' for the
    next and so on, and the board is printed. */
module Solution {
  import opened Results
  import opened Grids
  import opened Placement
  import opened Constraints

  /** A square of the board while drawing: still the shape's 0/1, or the
      character code of the label painted on it. */
  datatype Square = Plain(bit: Bit) | Labelled(code: int)
  type Canvas = seq<seq<Square>>

  /** The character code of the first label, '0'. */
  const FirstLabel: int := 48
  /** The largest code the label counter may reach: `chr` of Python 2 only
      accepts codes up to 255. */
  const LastCode: int := 255
  /** The character code of a space. */
  const Space: int := 32

  function CanvasOf(shape: Grid): (c: Canvas)
    ensures |c| == |shape|
    ensures forall i :: 0 <= i < |c| ==> |c[i]| == |shape[i]|
    ensures forall i, j :: 0 <= i < |c| && 0 <= j < |c[i]| ==> c[i][j] == Plain(shape[i][j])
  {
    seq(|shape|, i requires 0 <= i < |shape| =>
      seq(|shape[i]|, j requires 0 <= j < |shape[i]| => Plain(shape[i][j])))
  }

  predicate SameDims(a: Canvas, b: Canvas) {
    |a| == |b| && forall r :: 0 <= r < |a| ==> |a[r]| == |b[r]|
  }

  predicate InCanvas(c: Canvas, q: Pos) {
    q.row < |c| && q.col < |c[q.row]|
  }

  /** Whether the block placed at (row, col) has a filled square on (r, c). */
  predicate Hit(row: nat, col: nat, block: Grid, r: nat, c: nat) {
    row <= r < row + |block| && col <= c < col + |block[r - row]| && block[r - row][c - col] == 1
  }

  /** Painting one block row placed at column `col` on one board line. */
  method FillRow(code: int, col: nat, bline: seq<Bit>, line: seq<Square>) returns (out: seq<Square>)
    requires forall j :: 0 <= j < |bline| && bline[j] == 1 ==> col + j < |line|
    ensures |out| == |line|
    ensures forall c :: 0 <= c < |out| ==>
      out[c] == if col <= c < col + |bline| && bline[c - col] == 1 then Labelled(code) else line[c]
  {
    out := line;
    var j := 0;
    while j < |bline|
      invariant 0 <= j <= |bline|
      invariant |out| == |line|
      invariant forall c :: 0 <= c < |out| ==>
        out[c] == if col <= c < col + j && bline[c - col] == 1 then Labelled(code) else line[c]
    {
      if bline[j] != 0 {
        out := out[col + j := Labelled(code)];
      }
      j := j + 1;
    }
  }

  /** Painting one placed block: the squares `CoverAt` lists take the label,
      every other square keeps what it had. */
  method Fill(code: int, row: nat, col: nat, block: Grid, canvas: Canvas) returns (out: Canvas)
    requires forall q :: q in CoverAt(row, col, block) ==> InCanvas(canvas, q)
    ensures SameDims(out, canvas)
    ensures forall r, c :: 0 <= r < |out| && 0 <= c < |out[r]| ==>
      out[r][c] == if Pos(r, c) in CoverAt(row, col, block) then Labelled(code) else canvas[r][c]
  {
    out := canvas;
    var i := 0;
    while i < |block|
      invariant 0 <= i <= |block|
      invariant SameDims(out, canvas)
      invariant forall r, c :: 0 <= r < |out| && 0 <= c < |out[r]| ==>
        out[r][c] == if Hit(row, col, block, r, c) && r < row + i then Labelled(code) else canvas[r][c]
    {
      var r := row + i;
      forall j | 0 <= j < |block[i]| && block[i][j] == 1
        ensures r < |canvas| && col + j < |canvas[r]|
      {
        assert Pos(r, col + j) in CoverAt(row, col, block);
      }
      if r < |out| {
        var line := FillRow(code, col, block[i], out[r]);
        out := out[r := line];
      }
      i := i + 1;
    }
  }

  /** Python's `tokens[-n:]`: the last `n` tokens, except that `n == 0`
      (like `n` past the length) keeps them all. */
  function LastN(tokens: seq<int>, n: nat): (r: seq<int>)
    ensures |r| == if n == 0 || n >= |tokens| then |tokens| else n
    ensures r == tokens[|tokens| - |r|..]
  {
    if n == 0 || n >= |tokens| then tokens else tokens[|tokens| - n..]
  }

  function CountNonzero(values: seq<int>): (k: nat)
    ensures k <= |values|
  {
    if |values| == 0 then 0
    else CountNonzero(values[..|values| - 1]) + (if values[|values| - 1] != 0 then 1 else 0)
  }

  /** A placement switched on, with the label it paints. */
  datatype Selection = Selection(key: Candidate, code: int)

  /** The labelling loop: the k-th nonzero value (counting from 0) selects
      the key at the same position with label '0' + k; zero values are
      skipped. None where the loop fails: a nonzero value with no key, or a
      label counter stepped past `LastCode`. */
  function Select(values: seq<int>, keys: seq<Candidate>): (r: Option<seq<Selection>>)
    ensures r.None? <==>
      (exists i :: 0 <= i < |values| && values[i] != 0 && i >= |keys|) ||
      CountNonzero(values) > LastCode - FirstLabel
    ensures r.Some? ==> |r.value| == CountNonzero(values)
    ensures r.Some? ==> forall k :: 0 <= k < |r.value| ==> r.value[k].key in keys
  {
    if |values| == 0 then Some([])
    else
      var n := |values| - 1;
      var prefix := values[..n];
      assert forall i :: 0 <= i < n ==> prefix[i] == values[i];
      var sel := Select(prefix, keys);
      if sel.None? then None
      else if values[n] == 0 then sel
      else if n >= |keys| then None
      else if FirstLabel + |sel.value| + 1 > LastCode then None
      else Some(sel.value + [Selection(keys[n], FirstLabel + |sel.value|)])
  }

  /** The selection made for each nonzero value: its own key, labelled with
      the number of nonzero values before it. */
  lemma {:induction false} SelectPicks(values: seq<int>, keys: seq<Candidate>)
    requires Select(values, keys).Some?
    ensures forall i :: 0 <= i < |values| && values[i] != 0 ==>
      i < |keys| && CountNonzero(values[..i]) < |Select(values, keys).value| &&
      Select(values, keys).value[CountNonzero(values[..i])] ==
        Selection(keys[i], FirstLabel + CountNonzero(values[..i]))
  {
    if |values| > 0 {
      var n := |values| - 1;
      var prefix := values[..n];
      var sel := Select(prefix, keys).value;
      var r := Select(values, keys).value;
      SelectPicks(prefix, keys);
      assert r[..|sel|] == sel;
      forall i | 0 <= i < |values| && values[i] != 0
        ensures i < |keys| && CountNonzero(values[..i]) < |r| &&
          r[CountNonzero(values[..i])] == Selection(keys[i], FirstLabel + CountNonzero(values[..i]))
      {
        if i < n {
          assert prefix[i] == values[i] && prefix[..i] == values[..i];
          assert r[CountNonzero(values[..i])] == r[..|sel|][CountNonzero(values[..i])];
        } else {
          assert values[..i] == prefix;
        }
      }
    }
  }

  /** The label of the last selection that covers a square, if any. */
  function LastCover(sels: seq<Selection>, q: Pos): (r: Option<int>)
    ensures r.Some? <==> exists k :: 0 <= k < |sels| && q in Covered(sels[k].key)
  {
    if |sels| == 0 then None
    else
      var prefix := sels[..|sels| - 1];
      assert forall k :: 0 <= k < |sels| - 1 ==> prefix[k] == sels[k];
      if q in Covered(sels[|sels| - 1].key) then Some(sels[|sels| - 1].code)
      else LastCover(prefix, q)
  }

  function Painted(before: Square, mark: Option<int>): Square {
    if mark.Some? then Labelled(mark.value) else before
  }

  /** Filling the selections one after another: each square ends with the
      label of the last selection covering it. */
  method PaintAll(canvas: Canvas, sels: seq<Selection>) returns (out: Canvas)
    requires forall k, q :: 0 <= k < |sels| && q in Covered(sels[k].key) ==> InCanvas(canvas, q)
    ensures SameDims(out, canvas)
    ensures forall r, c :: 0 <= r < |out| && 0 <= c < |out[r]| ==>
      out[r][c] == Painted(canvas[r][c], LastCover(sels, Pos(r, c)))
  {
    out := canvas;
    var k := 0;
    while k < |sels|
      invariant 0 <= k <= |sels|
      invariant SameDims(out, canvas)
      invariant forall r, c :: 0 <= r < |out| && 0 <= c < |out[r]| ==>
        out[r][c] == Painted(canvas[r][c], LastCover(sels[..k], Pos(r, c)))
    {
      var s := sels[k];
      forall q | q in CoverAt(s.key.v.at.row, s.key.v.at.col, s.key.block)
        ensures InCanvas(out, q)
      {
        assert q in Covered(sels[k].key);
        assert InCanvas(canvas, q);
        assert |out[q.row]| == |canvas[q.row]|;
      }
      out := Fill(s.code, s.key.v.at.row, s.key.v.at.col, s.key.block, out);
      assert sels[..k + 1][..k] == sels[..k];
      k := k + 1;
    }
    assert sels[..k] == sels;
  }

  /** The printed form of a square, `c or ' '`: a space for an empty square,
      the label for a labelled one. */
  function Glyph(s: Square): int
    requires s != Plain(1)
  {
    if s.Labelled? then s.code else Space
  }

  /** One printed line, or None when a filled square was left unlabelled:
      joining the integer 1 into a string fails. */
  function RenderLine(line: seq<Square>): (r: Option<seq<int>>)
    ensures r.None? <==> Plain(1) in line
    ensures r.Some? ==> |r.value| == |line|
    ensures r.Some? ==> forall j :: 0 <= j < |line| ==> r.value[j] == Glyph(line[j])
  {
    if |line| == 0 then Some([])
    else
      var prefix := line[..|line| - 1];
      assert line == prefix + [line[|line| - 1]];
      match RenderLine(prefix)
      case None => None
      case Some(t) =>
        if line[|line| - 1] == Plain(1) then None
        else Some(t + [Glyph(line[|line| - 1])])
  }

  /** The printed board, line by line. */
  function Render(canvas: Canvas): (r: Option<seq<seq<int>>>)
    ensures r.None? <==> exists i :: 0 <= i < |canvas| && Plain(1) in canvas[i]
    ensures r.Some? ==> |r.value| == |canvas|
    ensures r.Some? ==> forall i :: 0 <= i < |canvas| ==> RenderLine(canvas[i]) == Some(r.value[i])
  {
    if |canvas| == 0 then Some([])
    else
      var prefix := canvas[..|canvas| - 1];
      assert forall i :: 0 <= i < |canvas| - 1 ==> prefix[i] == canvas[i];
      match Render(prefix)
      case None => None
      case Some(t) =>
        match RenderLine(canvas[|canvas| - 1])
        case None => None
        case Some(l) => Some(t + [l])
  }

  /** The lines written before the output stops: every line up to the
      first one holding an unlabelled filled square, which raises while it
      is joined, so nothing from it or after it is written. */
  function Printed(canvas: Canvas): (lines: seq<seq<int>>)
    ensures |lines| <= |canvas|
    ensures forall i :: 0 <= i < |lines| ==> RenderLine(canvas[i]) == Some(lines[i])
    ensures |lines| < |canvas| ==> Plain(1) in canvas[|lines|]
  {
    if |canvas| == 0 then []
    else
      match RenderLine(canvas[0])
      case None => []
      case Some(l) =>
        var rest := Printed(canvas[1..]);
        assert forall i :: 1 <= i < |canvas| ==> canvas[1..][i - 1] == canvas[i];
        [l] + rest
  }

  /** The board printed whole is what is written, and it is printed whole
      exactly when every line is written. */
  lemma PrintedRender(canvas: Canvas)
    ensures Render(canvas).Some? <==> |Printed(canvas)| == |canvas|
    ensures Render(canvas).Some? ==> Printed(canvas) == Render(canvas).value
  {
    var lines := Printed(canvas);
    if |lines| < |canvas| {
      assert Plain(1) in canvas[|lines|];
    } else {
      assert forall i :: 0 <= i < |canvas| ==> Plain(1) !in canvas[i] by {
        forall i | 0 <= i < |canvas| ensures Plain(1) !in canvas[i] {
          assert RenderLine(canvas[i]) == Some(lines[i]);
        }
      }
      var out := Render(canvas).value;
      assert forall i :: 0 <= i < |canvas| ==> out[i] == lines[i] by {
        forall i | 0 <= i < |canvas| ensures out[i] == lines[i] {
          assert RenderLine(canvas[i]) == Some(out[i]);
        }
      }
    }
  }

  /** A plan as the solver builds it: every block rectangular, every offset
      one the placement search returned for it. */
  predicate ValidPlan(plan: seq<PlanEntry>, shape: Grid) {
    Rectangular(shape) &&
    forall i :: 0 <= i < |plan| ==>
      Rectangular(plan[i].block) && forall p :: p in plan[i].locs ==> Admissible(p, plan[i].block, shape)
  }

  /** Every square a key of a valid plan covers is a filled square of the shape. */
  lemma KeyCellsInShape(plan: seq<PlanEntry>, shape: Grid)
    requires ValidPlan(plan, shape)
    ensures forall key, q :: key in Candidates(plan) && q in Covered(key) ==>
      q.row < |shape| && q.col < |shape[q.row]| && shape[q.row][q.col] == 1
  {
    var cs := Candidates(plan);
    forall key, q | key in cs && q in Covered(key)
      ensures q.row < |shape| && q.col < |shape[q.row]| && shape[q.row][q.col] == 1
    {
      var k :| 0 <= k < |cs| && cs[k] == key;
      var i := key.v.block;
      assert Admissible(key.v.at, plan[i].block, shape);
      PlacedCellsInShape(key.v.at, key.block, shape);
    }
  }

  /** Printing a board painted from the shape: it fails exactly when a
      filled square was left without a label, and otherwise shows a space
      on every empty square and the label on every filled one. */
  lemma RenderPainted(shape: Grid, marks: Pos -> Option<int>, painted: Canvas)
    requires |painted| == |shape| && forall r :: 0 <= r < |shape| ==> |painted[r]| == |shape[r]|
    requires forall r, c :: 0 <= r < |shape| && 0 <= c < |shape[r]| ==>
      painted[r][c] == Painted(Plain(shape[r][c]), marks(Pos(r, c)))
    requires forall r, c :: 0 <= r < |shape| && 0 <= c < |shape[r]| && shape[r][c] == 0 ==>
      marks(Pos(r, c)).None?
    ensures Render(painted).Some? <==>
      forall r, c :: 0 <= r < |shape| && 0 <= c < |shape[r]| && shape[r][c] == 1 ==> marks(Pos(r, c)).Some?
    ensures Render(painted).Some? ==> |Render(painted).value| == |shape|
    ensures Render(painted).Some? ==> forall r, c :: 0 <= r < |shape| && 0 <= c < |shape[r]| ==>
      c < |Render(painted).value[r]| &&
      Render(painted).value[r][c] == if shape[r][c] == 0 then Space else marks(Pos(r, c)).value
  {
    var out := Render(painted);
    if out.None? {
      var i :| 0 <= i < |painted| && Plain(1) in painted[i];
      var j :| 0 <= j < |painted[i]| && painted[i][j] == Plain(1);
      assert shape[i][j] == 1 && marks(Pos(i, j)).None?;
    } else {
      forall r, c | 0 <= r < |shape| && 0 <= c < |shape[r]|
        ensures c < |out.value[r]|
        ensures out.value[r][c] == if shape[r][c] == 0 then Space else marks(Pos(r, c)).value
        ensures shape[r][c] == 1 ==> marks(Pos(r, c)).Some?
      {
        assert RenderLine(painted[r]) == Some(out.value[r]);
        assert Plain(1) !in painted[r];
        assert painted[r][c] in painted[r];
      }
    }
  }

  /** What is written of a board painted from the shape: the lines before
      the first line with a filled square left without a label, each with a
      space on every empty square and the label on every filled one. */
  lemma PrintedPainted(shape: Grid, marks: Pos -> Option<int>, painted: Canvas)
    requires |painted| == |shape| && forall r :: 0 <= r < |shape| ==> |painted[r]| == |shape[r]|
    requires forall r, c :: 0 <= r < |shape| && 0 <= c < |shape[r]| ==>
      painted[r][c] == Painted(Plain(shape[r][c]), marks(Pos(r, c)))
    requires forall r, c :: 0 <= r < |shape| && 0 <= c < |shape[r]| && shape[r][c] == 0 ==>
      marks(Pos(r, c)).None?
    ensures |Printed(painted)| <= |shape|
    ensures forall r, c :: 0 <= r < |Printed(painted)| && 0 <= c < |shape[r]| ==>
      (shape[r][c] == 1 ==> marks(Pos(r, c)).Some?) &&
      c < |Printed(painted)[r]| &&
      Printed(painted)[r][c] == if shape[r][c] == 0 then Space else marks(Pos(r, c)).value
    ensures |Printed(painted)| < |shape| ==>
      exists c :: 0 <= c < |shape[|Printed(painted)|]| && shape[|Printed(painted)|][c] == 1 &&
        marks(Pos(|Printed(painted)|, c)).None?
  {
    var lines := Printed(painted);
    if |lines| < |shape| {
      var i := |lines|;
      var j :| 0 <= j < |painted[i]| && painted[i][j] == Plain(1);
      assert shape[i][j] == 1 && marks(Pos(i, j)).None?;
    }
    forall r, c | 0 <= r < |lines| && 0 <= c < |shape[r]|
      ensures shape[r][c] == 1 ==> marks(Pos(r, c)).Some?
      ensures c < |lines[r]|
      ensures lines[r][c] == if shape[r][c] == 0 then Space else marks(Pos(r, c)).value
    {
      assert RenderLine(painted[r]) == Some(lines[r]);
      assert Plain(1) !in painted[r];
      assert painted[r][c] in painted[r];
    }
  }

  /** The selections drawn from a valid plan cover only filled squares of
      the shape. */
  lemma SelectionsInShape(plan: seq<PlanEntry>, shape: Grid, sels: seq<Selection>)
    requires ValidPlan(plan, shape)
    requires forall k :: 0 <= k < |sels| ==> sels[k].key in Candidates(plan)
    ensures forall k, q :: 0 <= k < |sels| && q in Covered(sels[k].key) ==>
      q.row < |shape| && q.col < |shape[q.row]| && shape[q.row][q.col] == 1
    ensures forall r, c :: 0 <= r < |shape| && 0 <= c < |shape[r]| && shape[r][c] == 0 ==>
      LastCover(sels, Pos(r, c)).None?
  {
    KeyCellsInShape(plan, shape);
  }

  /** `lines` are the first lines of the board for `shape` painted by
      `sels`: every filled square in them is covered, and each shows a
      space on an empty square and the last covering label on a filled one. */
  predicate LinesShow(shape: Grid, sels: seq<Selection>, lines: seq<seq<int>>) {
    |lines| <= |shape| &&
    forall r, c :: 0 <= r < |lines| && 0 <= c < |shape[r]| ==>
      (shape[r][c] == 1 ==> LastCover(sels, Pos(r, c)).Some?) &&
      c < |lines[r]| &&
      lines[r][c] == if shape[r][c] == 0 then Space else LastCover(sels, Pos(r, c)).value
  }

  /** Every filled square of the shape is covered by some selection. */
  predicate FullyLabelled(shape: Grid, sels: seq<Selection>) {
    forall r, c :: 0 <= r < |shape| && 0 <= c < |shape[r]| && shape[r][c] == 1 ==>
      LastCover(sels, Pos(r, c)).Some?
  }

  /** Row `r` of the shape has a filled square no selection covers. */
  predicate UnlabelledIn(shape: Grid, sels: seq<Selection>, r: nat)
    requires r < |shape|
  {
    exists c :: 0 <= c < |shape[r]| && shape[r][c] == 1 && LastCover(sels, Pos(r, c)).None?
  }

  /** The board painted by `sels` prints whole exactly when every filled
      square is labelled; what is written stops just before the first row
      with an unlabelled filled square. */
  lemma PaintedBoard(shape: Grid, sels: seq<Selection>, painted: Canvas)
    requires |painted| == |shape| && forall r :: 0 <= r < |shape| ==> |painted[r]| == |shape[r]|
    requires forall r, c :: 0 <= r < |shape| && 0 <= c < |shape[r]| ==>
      painted[r][c] == Painted(Plain(shape[r][c]), LastCover(sels, Pos(r, c)))
    requires forall r, c :: 0 <= r < |shape| && 0 <= c < |shape[r]| && shape[r][c] == 0 ==>
      LastCover(sels, Pos(r, c)).None?
    ensures Render(painted).Some? <==> FullyLabelled(shape, sels)
    ensures Render(painted).Some? ==>
      |Render(painted).value| == |shape| && Printed(painted) == Render(painted).value
    ensures LinesShow(shape, sels, Printed(painted))
    ensures |Printed(painted)| < |shape| ==> UnlabelledIn(shape, sels, |Printed(painted)|)
  {
    var marks := q => LastCover(sels, q);
    RenderPainted(shape, marks, painted);
    PrintedPainted(shape, marks, painted);
    PrintedRender(painted);
  }

  /** The display step: the last values of the solver's output, one per key
      in key order, select placements; they paint the shape and the board is
      printed. `out` is the whole board, None where the labelling loop fails
      or a filled square is left unpainted; `printed` is what is written
      before the output stops: nothing when labelling fails, and otherwise
      the lines before the first one with an unpainted filled square. */
  method Show(sol: seq<int>, plan: seq<PlanEntry>, shape: Grid)
    returns (out: Option<seq<seq<int>>>, printed: seq<seq<int>>)
    requires ValidPlan(plan, shape)
    ensures Select(LastN(sol, |Candidates(plan)|), Candidates(plan)).None? ==> out.None? && printed == []
    ensures var sel := Select(LastN(sol, |Candidates(plan)|), Candidates(plan));
      sel.Some? ==> (out.Some? <==> FullyLabelled(shape, sel.value))
    ensures out.Some? ==> |out.value| == |shape| && printed == out.value
    ensures var sel := Select(LastN(sol, |Candidates(plan)|), Candidates(plan));
      sel.Some? ==> LinesShow(shape, sel.value, printed)
    ensures var sel := Select(LastN(sol, |Candidates(plan)|), Candidates(plan));
      sel.Some? && |printed| < |shape| ==> UnlabelledIn(shape, sel.value, |printed|)
  {
    var keys := Candidates(plan);
    var sel := Select(LastN(sol, |keys|), keys);
    if sel.None? {
      return None, [];
    }
    var sels := sel.value;
    SelectionsInShape(plan, shape, sels);
    var painted := PaintAll(CanvasOf(shape), sels);
    out := Render(painted);
    printed := Printed(painted);
    PaintedBoard(shape, sels, painted);
  }
}
