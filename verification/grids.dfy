/** The 0/1 grids of the Doodle Fit solver: the shape to fill and every
    block are read as lines of text, where a space is an empty square and
    any other character a filled one. */
module Grids {
  import opened Results

  type Bit = b: int | 0 <= b <= 1
  type Grid = seq<seq<Bit>>

  /** The width of a grid is the length of its first row. */
  function Width(g: Grid): nat
    requires |g| > 0
  {
    |g[0]|
  }

  function Height(g: Grid): nat {
    |g|
  }

  predicate Rectangular(g: Grid) {
    |g| > 0 && forall i :: 0 <= i < |g| ==> |g[i]| == |g[0]|
  }

  /** The length of the longest line (0 for no lines). */
  function MaxLen(lines: seq<string>): (w: nat)
    ensures forall i :: 0 <= i < |lines| ==> |lines[i]| <= w
    ensures |lines| > 0 ==> exists i :: 0 <= i < |lines| && |lines[i]| == w
    ensures |lines| == 0 ==> w == 0
  {
    if |lines| == 0 then 0
    else
      var m := MaxLen(lines[1..]);
      assert forall i :: 1 <= i < |lines| ==> lines[i] == lines[1..][i - 1];
      if |lines[0]| >= m then |lines[0]| else m
  }

  function CellOf(c: char): Bit {
    if c == ' ' then 0 else 1
  }

  /** One text line as a grid row, padded with empty squares to width `w`. */
  function GridLine(e: string, w: nat): (row: seq<Bit>)
    requires |e| <= w
    ensures |row| == w
    ensures forall j :: 0 <= j < w ==> (row[j] == 1 <==> j < |e| && e[j] != ' ')
  {
    seq(|e|, j requires 0 <= j < |e| => CellOf(e[j])) + seq(w - |e|, _ => 0)
  }

  /** The grid of a group of lines, or None when the group is empty. */
  function ToGrid(lines: seq<string>): (r: Option<Grid>)
    ensures r.None? <==> |lines| == 0
    ensures r.Some? ==> Rectangular(r.value) && Height(r.value) == |lines|
    ensures r.Some? ==> Width(r.value) == MaxLen(lines)
    ensures r.Some? ==> forall i, j :: 0 <= i < |lines| && 0 <= j < Width(r.value) ==>
      (r.value[i][j] == 1 <==> j < |lines[i]| && lines[i][j] != ' ')
  {
    if |lines| == 0 then None
    else
      var w := MaxLen(lines);
      Some(seq(|lines|, i requires 0 <= i < |lines| => GridLine(lines[i], w)))
  }

  /** A grid drawn as text, '#' for a filled square and ' ' for an empty one. */
  function Draw(g: Grid): (lines: seq<string>)
    ensures |lines| == |g|
    ensures forall i :: 0 <= i < |g| ==> |lines[i]| == |g[i]|
  {
    seq(|g|, i requires 0 <= i < |g| =>
      seq(|g[i]|, j requires 0 <= j < |g[i]| => if g[i][j] == 1 then '#' else ' '))
  }

  /** Reading back a drawn rectangular grid gives the grid itself. */
  lemma ToGridOfDraw(g: Grid)
    requires Rectangular(g)
    ensures ToGrid(Draw(g)) == Some(g)
  {
    var lines := Draw(g);
    assert MaxLen(lines) == |g[0]| by {
      assert |lines[0]| == |g[0]|;
    }
    var h := ToGrid(lines).value;
    assert |h| == |g|;
    forall i | 0 <= i < |g|
      ensures h[i] == g[i]
    {
      assert |h[i]| == |g[i]|;
      forall j | 0 <= j < |g[i]|
        ensures h[i][j] == g[i][j]
      {
        assert lines[i][j] == (if g[i][j] == 1 then '#' else ' ');
      }
    }
    assert h == g;
  }
}
