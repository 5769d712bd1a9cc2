/** The names the constraint problem gives its variables and constraints in
    the text handed to the integer-programming tool. A name is the identity
    of a variable there, so two variables must never share one. */
module LpNames {
  import opened Decimal
  import opened Placement
  import opened Constraints

  /** The name of a block's "exactly one placement" constraint, "b%s". */
  function BlockName(index: nat): (s: string)
    ensures |s| > 1 && s[0] == 'b' && '_' !in s
  {
    var s := "b" + Show(index);
    assert forall k :: 1 <= k < |s| ==> s[k] == Show(index)[k - 1];
    s
  }

  /** The variable name as the source formats it, "b%s_%s%s": the row and
      column digits run together. */
  function VarNameAsWritten(v: Var): string {
    "b" + Show(v.block) + "_" + Show(v.at.row) + Show(v.at.col)
  }

  /** The cell constraint name as the source formats it, "c%s%s". */
  function CellNameAsWritten(c: Pos): string {
    "c" + Show(c.row) + Show(c.col)
  }

  lemma ShowSmall()
    ensures Show(0) == "0" && Show(1) == "1" && Show(10) == "10" && Show(11) == "11"
  {
  }

  /** Block 0 at row 1, column 11 and at row 11, column 1 are two variables
      with one name, "b0_111". */
  lemma VarNamesCollide()
    ensures Var(0, Pos(1, 11)) != Var(0, Pos(11, 1))
    ensures VarNameAsWritten(Var(0, Pos(1, 11))) == VarNameAsWritten(Var(0, Pos(11, 1)))
  {
    ShowSmall();
    assert "1" + "11" == "11" + "1";
  }

  /** The squares (1, 11) and (11, 1) both get the constraint name "c111". */
  lemma CellNamesCollide()
    ensures Pos(1, 11) != Pos(11, 1)
    ensures CellNameAsWritten(Pos(1, 11)) == CellNameAsWritten(Pos(11, 1))
  {
    ShowSmall();
    assert "1" + "11" == "11" + "1";
  }

  /** The three kinds of name the program writes never meet, even though
      names of one kind can collide: a block constraint name has no '_',
      a variable name has one, and a cell constraint name starts with 'c'. */
  lemma NamesDistinctAsWritten(i: nat, v: Var, c: Pos)
    ensures BlockName(i) != VarNameAsWritten(v)
    ensures CellNameAsWritten(c) != VarNameAsWritten(v) && CellNameAsWritten(c) != BlockName(i)
  {
    var n := VarNameAsWritten(v);
    assert n[1 + |Show(v.block)|] == '_';
    assert CellNameAsWritten(c)[0] == 'c' && n[0] == 'b';
  }

  /** The variable name with a separator between row and column too. */
  function VarName(v: Var): string {
    "b" + Show(v.block) + "_" + Show(v.at.row) + "_" + Show(v.at.col)
  }

  /** The cell constraint name with a separator between row and column. */
  function CellName(c: Pos): string {
    "c" + Show(c.row) + "_" + Show(c.col)
  }

  /** Two squares' digit texts joined by '_' read back unambiguously. */
  lemma PairInjective(a: nat, b: nat, c: nat, d: nat)
    requires Show(a) + "_" + Show(b) == Show(c) + "_" + Show(d)
    ensures a == c && b == d
  {
    var sa, sb, sc, sd := Show(a), Show(b), Show(c), Show(d);
    assert sa == sc && sb == sd by {
      SplitAtSeparator(sa, sb, sc, sd, '_');
    }
    ShowInjective(a, c);
    ShowInjective(b, d);
  }

  /** With the separator, distinct variables have distinct names. */
  lemma VarNameInjective(v: Var, w: Var)
    requires VarName(v) == VarName(w)
    ensures v == w
  {
    var x := Show(v.block) + "_" + (Show(v.at.row) + "_" + Show(v.at.col));
    var y := Show(w.block) + "_" + (Show(w.at.row) + "_" + Show(w.at.col));
    assert VarName(v) == "b" + x && VarName(w) == "b" + y;
    assert x == VarName(v)[1..] && y == VarName(w)[1..];
    SplitAtSeparator(Show(v.block), Show(v.at.row) + "_" + Show(v.at.col),
                     Show(w.block), Show(w.at.row) + "_" + Show(w.at.col), '_');
    ShowInjective(v.block, w.block);
    PairInjective(v.at.row, v.at.col, w.at.row, w.at.col);
  }

  /** With the separator, distinct squares have distinct constraint names. */
  lemma CellNameInjective(c: Pos, d: Pos)
    requires CellName(c) == CellName(d)
    ensures c == d
  {
    assert CellName(c)[1..] == Show(c.row) + "_" + Show(c.col);
    assert CellName(d)[1..] == Show(d.row) + "_" + Show(d.col);
    PairInjective(c.row, c.col, d.row, d.col);
  }

  /** Constraint names and variable names never meet: block constraints have
      no '_', and cell constraints start with 'c'. */
  lemma NamesDistinct(i: nat, v: Var, c: Pos)
    ensures BlockName(i) != VarName(v)
    ensures CellName(c) != VarName(v) && CellName(c) != BlockName(i)
  {
    var n := VarName(v);
    assert n[1 + |Show(v.block)|] == '_';
    assert CellName(c)[0] == 'c' && n[0] == 'b';
  }
}
