/** The exact-cover problem the solver hands to an integer-programming
    tool: one 0/1 variable per (block, offset) candidate, a constraint per
    block saying exactly one of its placements is used, and a constraint
    per covered square saying exactly one chosen placement covers it. */
module Constraints {
  import opened Grids
  import opened Placement

  /** A block with the offsets at which it fits on the shape. */
  datatype PlanEntry = PlanEntry(block: Grid, locs: seq<Pos>)

  /** The variable for block number `block` placed at `at`. */
  datatype Var = Var(block: nat, at: Pos)

  /** A variable with the block it places: the solver's list of keys. */
  datatype Candidate = Candidate(v: Var, block: Grid)

  function Covered(c: Candidate): seq<Pos> {
    CoverAt(c.v.at.row, c.v.at.col, c.block)
  }

  /** The variables of one block, one per offset, in the offsets' order. */
  function BlockVars(index: nat, locs: seq<Pos>): (vs: seq<Var>)
    ensures |vs| == |locs|
    ensures forall v :: v in vs <==> v.block == index && v.at in locs
  {
    if |locs| == 0 then []
    else
      var vs := BlockVars(index, locs[..|locs| - 1]) + [Var(index, locs[|locs| - 1])];
      assert locs == locs[..|locs| - 1] + [locs[|locs| - 1]];
      vs
  }

  /** Every candidate of the plan, block by block and offset by offset. */
  function Candidates(plan: seq<PlanEntry>): (cs: seq<Candidate>)
    ensures forall k :: 0 <= k < |cs| ==>
      cs[k].v.block < |plan| && cs[k].v.at in plan[cs[k].v.block].locs &&
      cs[k].block == plan[cs[k].v.block].block
  {
    if |plan| == 0 then []
    else
      var last := plan[|plan| - 1];
      var vs := BlockVars(|plan| - 1, last.locs);
      Candidates(plan[..|plan| - 1]) + BlockCandidates(vs, last.block)
  }

  function BlockCandidates(vs: seq<Var>, block: Grid): (cs: seq<Candidate>)
    ensures |cs| == |vs|
    ensures forall k :: 0 <= k < |vs| ==> cs[k] == Candidate(vs[k], block)
  {
    seq(|vs|, k requires 0 <= k < |vs| => Candidate(vs[k], block))
  }

  /** Every offset of every block of the plan is a candidate. */
  lemma {:induction false} CandidatesComplete(plan: seq<PlanEntry>, i: nat, p: Pos)
    requires i < |plan| && p in plan[i].locs
    ensures Candidate(Var(i, p), plan[i].block) in Candidates(plan)
  {
    var prefix := plan[..|plan| - 1];
    var last := plan[|plan| - 1];
    var vs := BlockVars(|plan| - 1, last.locs);
    assert Candidates(plan) == Candidates(prefix) + BlockCandidates(vs, last.block);
    if i < |plan| - 1 {
      assert prefix[i] == plan[i];
      CandidatesComplete(prefix, i, p);
    } else {
      var k :| 0 <= k < |vs| && vs[k] == Var(i, p);
      assert BlockCandidates(vs, last.block)[k] == Candidate(Var(i, p), plan[i].block);
    }
  }

  /** The coverage list of a square so far, empty before the square is met. */
  function Lookup(m: map<Pos, seq<Var>>, c: Pos): seq<Var> {
    if c in m then m[c] else []
  }

  /** Appending a variable to the coverage list of each given square. */
  function AddCells(m: map<Pos, seq<Var>>, cells: seq<Pos>, v: Var): map<Pos, seq<Var>>
    decreases |cells|
  {
    if |cells| == 0 then m
    else AddCells(m[cells[0] := Lookup(m, cells[0]) + [v]], cells[1..], v)
  }

  /** Over distinct squares, each listed square gains the variable once and
      every other square is untouched. */
  lemma {:induction false} AddCellsEffect(m: map<Pos, seq<Var>>, cells: seq<Pos>, v: Var)
    requires forall i, j :: 0 <= i < j < |cells| ==> cells[i] != cells[j]
    ensures forall c :: c in AddCells(m, cells, v) <==> c in m || c in cells
    ensures forall c ::
      Lookup(AddCells(m, cells, v), c) == Lookup(m, c) + (if c in cells then [v] else [])
    decreases |cells|
  {
    if |cells| > 0 {
      var m' := m[cells[0] := Lookup(m, cells[0]) + [v]];
      var rest := cells[1..];
      assert forall i, j :: 0 <= i < j < |rest| ==> rest[i] != rest[j] by {
        forall i, j | 0 <= i < j < |rest| ensures rest[i] != rest[j] {
          assert rest[i] == cells[i + 1] && rest[j] == cells[j + 1];
        }
      }
      AddCellsEffect(m', rest, v);
      assert cells[0] !in rest by {
        forall k | 0 <= k < |rest| ensures rest[k] != cells[0] {
          assert rest[k] == cells[k + 1];
        }
      }
      assert forall c :: c in cells <==> c == cells[0] || c in rest;
    }
  }

  /** The square-to-variables map of the source, built candidate by
      candidate and, within a candidate, square by square. */
  function Coverset(cs: seq<Candidate>): map<Pos, seq<Var>> {
    if |cs| == 0 then map[]
    else
      var last := cs[|cs| - 1];
      AddCells(Coverset(cs[..|cs| - 1]), Covered(last), last.v)
  }

  /** The reference meaning of a coverage list: the variables, in candidate
      order, of the candidates that cover the square. */
  function Users(cs: seq<Candidate>, c: Pos): (vs: seq<Var>)
    ensures forall v :: v in vs ==> exists k :: 0 <= k < |cs| && cs[k].v == v && c in Covered(cs[k])
  {
    if |cs| == 0 then []
    else
      var prev := Users(cs[..|cs| - 1], c);
      var last := cs[|cs| - 1];
      assert forall k :: 0 <= k < |cs| - 1 ==> cs[..|cs| - 1][k] == cs[k];
      prev + (if c in Covered(last) then [last.v] else [])
  }

  /** A candidate that covers a square appears in the square's users. */
  lemma {:induction false} UsersComplete(cs: seq<Candidate>, c: Pos, k: nat)
    requires k < |cs| && c in Covered(cs[k])
    ensures cs[k].v in Users(cs, c)
  {
    if k < |cs| - 1 {
      assert cs[..|cs| - 1][k] == cs[k];
      UsersComplete(cs[..|cs| - 1], c, k);
    }
  }

  /** The map the source builds lists, for every square, exactly the
      variables of the candidates covering it, and has a key for exactly
      the covered squares. */
  lemma {:induction false} CoversetIsUsers(cs: seq<Candidate>)
    ensures forall c :: c in Coverset(cs) <==> Users(cs, c) != []
    ensures forall c :: Lookup(Coverset(cs), c) == Users(cs, c)
  {
    if |cs| > 0 {
      var prefix := cs[..|cs| - 1];
      var last := cs[|cs| - 1];
      CoversetIsUsers(prefix);
      AddCellsEffect(Coverset(prefix), Covered(last), last.v);
    }
  }

  /** A square-to-variables row of the second group of constraints. */
  datatype CellRow = CellRow(cell: Pos, vars: seq<Var>)

  datatype Problem = Problem(blocks: seq<seq<Var>>, cells: seq<CellRow>)

  /** Inserting a square into a row-major list without duplicates. */
  function Insert(s: seq<Pos>, x: Pos): (r: seq<Pos>)
    requires StrictlyRowMajor(s)
    ensures StrictlyRowMajor(r)
    ensures forall c :: c in r <==> c in s || c == x
  {
    if |s| == 0 then [x]
    else if s[0] == x then s
    else if Before(x, s[0]) then
      assert forall c :: c in s ==> Before(x, c) by {
        forall k | 0 <= k < |s| ensures Before(x, s[k]) {
          if k > 0 {
            assert Before(s[0], s[k]);
          }
        }
      }
      JoinRowMajor([x], s);
      [x] + s
    else
      var rest := Insert(s[1..], x);
      assert forall c :: c in rest ==> Before(s[0], c) by {
        forall c | c in rest ensures Before(s[0], c) {
          if c != x {
            var k :| 0 <= k < |s[1..]| && s[1..][k] == c;
            assert s[k + 1] == c;
          }
        }
      }
      JoinRowMajor([s[0]], rest);
      [s[0]] + rest
  }

  /** Sorting a list of squares and dropping repeats. */
  function SortCells(cells: seq<Pos>): (r: seq<Pos>)
    ensures StrictlyRowMajor(r)
    ensures forall c :: c in r <==> c in cells
  {
    if |cells| == 0 then []
    else
      var prev := SortCells(cells[..|cells| - 1]);
      assert cells == cells[..|cells| - 1] + [cells[|cells| - 1]];
      Insert(prev, cells[|cells| - 1])
  }

  /** Every square some candidate covers, with repeats. */
  function AllCovered(cs: seq<Candidate>): (cells: seq<Pos>)
    ensures forall c :: c in cells <==> Users(cs, c) != []
  {
    if |cs| == 0 then []
    else
      var prefix := cs[..|cs| - 1];
      var last := cs[|cs| - 1];
      AllCovered(prefix) + Covered(last)
  }

  function Rows(cells: seq<Pos>, m: map<Pos, seq<Var>>): (rows: seq<CellRow>)
    ensures |rows| == |cells|
    ensures forall k :: 0 <= k < |rows| ==> rows[k] == CellRow(cells[k], Lookup(m, cells[k]))
  {
    seq(|cells|, k requires 0 <= k < |cells| => CellRow(cells[k], Lookup(m, cells[k])))
  }

  function CellsOf(rows: seq<CellRow>): (cells: seq<Pos>)
    ensures |cells| == |rows|
    ensures forall k :: 0 <= k < |rows| ==> cells[k] == rows[k].cell
  {
    seq(|rows|, k requires 0 <= k < |rows| => rows[k].cell)
  }

  /** Variable `v` names a placement of the plan that covers square `c`. */
  predicate Covers(plan: seq<PlanEntry>, v: Var, c: Pos) {
    v.block < |plan| && v.at in plan[v.block].locs &&
    c in CoverAt(v.at.row, v.at.col, plan[v.block].block)
  }

  /** The users of a square among the plan's candidates are exactly the
      variables whose placement covers it. */
  lemma UsersOfPlan(plan: seq<PlanEntry>, c: Pos)
    ensures forall v :: v in Users(Candidates(plan), c) <==> Covers(plan, v, c)
  {
    var cs := Candidates(plan);
    forall v | Covers(plan, v, c)
      ensures v in Users(cs, c)
    {
      CandidatesComplete(plan, v.block, v.at);
      var k :| 0 <= k < |cs| && cs[k] == Candidate(v, plan[v.block].block);
      UsersComplete(cs, c, k);
    }
  }

  /** The cell constraints: per covered square, in row-major order, the
      variables in the coverset. */
  function CellRows(plan: seq<PlanEntry>): seq<CellRow> {
    var cs := Candidates(plan);
    Rows(SortCells(AllCovered(cs)), Coverset(cs))
  }

  /** The cell constraints list each covered square once, in row-major
      order, over exactly the variables whose placement covers it. */
  lemma CellRowsExact(plan: seq<PlanEntry>)
    ensures StrictlyRowMajor(CellsOf(CellRows(plan)))
    ensures forall c :: c in CellsOf(CellRows(plan)) <==> Users(Candidates(plan), c) != []
    ensures forall k :: 0 <= k < |CellRows(plan)| ==>
      CellRows(plan)[k].vars == Users(Candidates(plan), CellRows(plan)[k].cell)
  {
    var cs := Candidates(plan);
    var cells := SortCells(AllCovered(cs));
    var m := Coverset(cs);
    CoversetIsUsers(cs);
    assert CellRows(plan) == Rows(cells, m);
    assert CellsOf(Rows(cells, m)) == cells;
  }

  /** The two groups of constraints: per block, the variables of its
      placements; per covered square, in row-major order, the variables of
      the placements that cover it. */
  function Gen(plan: seq<PlanEntry>): (p: Problem)
    ensures |p.blocks| == |plan|
    ensures forall i :: 0 <= i < |plan| ==> |p.blocks[i]| == |plan[i].locs|
    ensures forall i, v :: 0 <= i < |plan| ==>
      (v in p.blocks[i] <==> v.block == i && v.at in plan[i].locs)
    ensures StrictlyRowMajor(CellsOf(p.cells))
    ensures forall c :: c in CellsOf(p.cells) <==> Users(Candidates(plan), c) != []
    ensures forall k :: 0 <= k < |p.cells| ==>
      p.cells[k].vars == Users(Candidates(plan), p.cells[k].cell)
  {
    CellRowsExact(plan);
    Problem(seq(|plan|, i requires 0 <= i < |plan| => BlockVars(i, plan[i].locs)), CellRows(plan))
  }

  /** Every cell constraint ranges over exactly the placements of the plan
      that cover its square, and a square has a constraint exactly when
      some placement covers it. */
  lemma GenCellsExact(plan: seq<PlanEntry>)
    ensures forall c :: c in CellsOf(Gen(plan).cells) <==> exists v :: Covers(plan, v, c)
    ensures forall k, v :: 0 <= k < |Gen(plan).cells| ==>
      (v in Gen(plan).cells[k].vars <==> Covers(plan, v, Gen(plan).cells[k].cell))
  {
    var rows := CellRows(plan);
    assert Gen(plan).cells == rows;
    forall c
      ensures c in CellsOf(rows) <==> exists v :: Covers(plan, v, c)
    {
      CoveredSquareListed(plan, c);
    }
    forall k | 0 <= k < |rows|
      ensures forall v :: v in rows[k].vars <==> Covers(plan, v, rows[k].cell)
    {
      CellRowVars(plan, k);
    }
  }

  /** A square has a cell constraint exactly when a placement covers it. */
  lemma CoveredSquareListed(plan: seq<PlanEntry>, c: Pos)
    ensures c in CellsOf(CellRows(plan)) <==> exists v :: Covers(plan, v, c)
  {
    CellRowsExact(plan);
    UsersOfPlan(plan, c);
    var us := Users(Candidates(plan), c);
    if us != [] {
      assert Covers(plan, us[0], c);
    }
  }

  /** A cell constraint ranges over exactly the placements covering its square. */
  lemma CellRowVars(plan: seq<PlanEntry>, k: nat)
    requires k < |CellRows(plan)|
    ensures forall v :: v in CellRows(plan)[k].vars <==> Covers(plan, v, CellRows(plan)[k].cell)
  {
    CellRowsExact(plan);
    UsersOfPlan(plan, CellRows(plan)[k].cell);
  }
}
