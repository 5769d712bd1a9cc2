/** The star catalog reader `ti.parseStars` (downloads/code/ti/ti.js): a
    row-driven state machine over tab-separated rows that collects
    constellation labels, stars and link polylines. */
module Catalog {
  import opened Results
  import opened JsNumber
  import opened Sexagesimal

  /** One tab-separated row. The tokenizer never yields a row without a first field. */
  type Row = r: seq<string> | |r| > 0 witness [""]

  datatype Constellation = Constellation(name: string, ra: Num, dec: Num)

  /** `note` is `undefined` when the row has no fourth field. */
  datatype Star = Star(name: string, ra: Num, dec: Num, note: Option<string>)

  /** A polyline of star references; an unknown name is an `undefined` endpoint. */
  type Link = seq<Option<Star>>

  datatype Catalog = Catalog(stars: seq<Star>, links: seq<Link>, constellations: seq<Constellation>)

  /** `fromBase60(undefined)` throws: a constellation or star row needs
      three fields. `row` is the zero-based index of the offending row. */
  datatype ParseError = MissingCoordinate(row: nat)

  /** The parser's variables. `state` is the source's integer counter:
      0 constellations, 1 stars, 2 links, -1 an ignored section; values
      above 2 are reachable and emit nothing. */
  datatype Parser = Parser(
    state: int,
    starMap: map<string, Star>,
    stars: seq<Star>,
    links: seq<Link>,
    constellations: seq<Constellation>)

  const Ignored: int := -1

  const Initial: Parser := Parser(0, map[], [], [], [])

  /** A first field that starts with three dashes marks a section break. */
  predicate IsSeparator(field: string) {
    |field| >= 3 && field[..3] == "---"
  }

  /** A row that neither resets nor advances the state. */
  predicate IsData(row: Row) {
    row[0] != "" && !IsSeparator(row[0])
  }

  /** Right ascension of a catalog entry: hours, minutes, seconds of time,
      scaled by 15 to seconds of arc. */
  function RightAscension(field: string): Num {
    Mul(Finite(15.0), FromBase60(field))
  }

  function StarOf(row: Row): Star
    requires |row| >= 3
  {
    Star(row[0], RightAscension(row[1]), FromBase60(row[2]),
         if |row| > 3 then Some(row[3]) else None)
  }

  /** `starMap[k]` for every name of a link row. */
  function Resolve(row: Row, starMap: map<string, Star>): (link: Link)
    ensures |link| == |row|
    ensures forall k :: 0 <= k < |row| ==>
      (link[k].Some? <==> row[k] in starMap) &&
      (link[k].Some? ==> link[k].value == starMap[row[k]])
  {
    seq(|row|, k requires 0 <= k < |row| =>
      if row[k] in starMap then Some(starMap[row[k]]) else None)
  }

  /** The outputs of `q` extend those of `p`: nothing is ever removed or rewritten. */
  predicate Extends(p: Parser, q: Parser) {
    && |p.stars| <= |q.stars| && q.stars[..|p.stars|] == p.stars
    && |p.links| <= |q.links| && q.links[..|p.links|] == p.links
    && |p.constellations| <= |q.constellations| && q.constellations[..|p.constellations|] == p.constellations
  }

  /** The row callback of `ti.parseStars`, applied to row number `index`. */
  function Step(p: Parser, row: Row, index: nat, members: set<string>): (r: Result<Parser, ParseError>)
    // a blank first field resets the state and emits nothing
    ensures row[0] == "" ==> r == Success(p.(state := 0))
    // a separator row advances the state and emits nothing
    ensures row[0] != "" && IsSeparator(row[0]) ==> r == Success(p.(state := p.state + 1))
    // a constellation outside the membership set starts an ignored section
    ensures IsData(row) && p.state == 0 && row[0] !in members ==> r == Success(p.(state := Ignored))
    // rows of an ignored section, or of a state past the links, change nothing
    ensures IsData(row) && (p.state < 0 || p.state > 2) ==> r == Success(p)
    // the only failure: a constellation or star row without both coordinates
    ensures r.Failure? <==>
      IsData(row) && |row| < 3 && (p.state == 1 || (p.state == 0 && row[0] in members))
    ensures r.Failure? ==> r.error == MissingCoordinate(index)
    // a data row never moves the state except into an ignored section
    ensures r.Success? && IsData(row) ==> r.value.state == p.state || r.value.state == Ignored
    ensures r.Success? ==> Extends(p, r.value)
    // a kept constellation: ra is 15 times the first field, dec the second field unscaled
    ensures r.Success? && IsData(row) && p.state == 0 && row[0] in members ==>
      r.value == p.(constellations := p.constellations +
        [Constellation(row[0], Mul(Finite(15.0), FromBase60(row[1])), FromBase60(row[2]))])
    // a star row named "#..." is dropped from both the list and the lookup map
    ensures r.Success? && IsData(row) && p.state == 1 && row[0][0] == '#' ==> r.value == p
    // any other star row is appended to the list and recorded under its name
    ensures r.Success? && IsData(row) && p.state == 1 && row[0][0] != '#' ==>
      var n := Star(row[0], Mul(Finite(15.0), FromBase60(row[1])), FromBase60(row[2]),
                    if |row| > 3 then Some(row[3]) else None);
      r.value == p.(stars := p.stars + [n], starMap := p.starMap[row[0] := n])
    // a link row appends one polyline with one endpoint per field
    ensures IsData(row) && p.state == 2 ==>
      r.Success? && r.value == p.(links := p.links + [Resolve(row, p.starMap)])
  {
    if row[0] == "" then Success(p.(state := 0))
    else if IsSeparator(row[0]) then Success(p.(state := p.state + 1))
    else if p.state == 0 then
      if row[0] !in members then Success(p.(state := Ignored))
      else if |row| < 3 then Failure(MissingCoordinate(index))
      else Success(p.(constellations := p.constellations +
        [Constellation(row[0], RightAscension(row[1]), FromBase60(row[2]))]))
    else if p.state == 1 then
      if |row| < 3 then Failure(MissingCoordinate(index))
      else
        var n := StarOf(row);
        if n.name[0] != '#' then Success(p.(starMap := p.starMap[n.name := n], stars := p.stars + [n]))
        else Success(p)
    else if p.state == 2 then Success(p.(links := p.links + [Resolve(row, p.starMap)]))
    else Success(p)
  }

  /** The parser after the rows `rows`, or the first row that threw. */
  function Run(rows: seq<Row>, members: set<string>): Result<Parser, ParseError>
  {
    if |rows| == 0 then Success(Initial)
    else
      match Run(rows[..|rows| - 1], members)
      case Failure(e) => Failure(e)
      case Success(p) => Step(p, rows[|rows| - 1], |rows| - 1, members)
  }

  /** Running one more row is one more step. */
  lemma RunSnoc(rows: seq<Row>, row: Row, members: set<string>)
    ensures Run(rows, members).Failure? ==> Run(rows + [row], members) == Run(rows, members)
    ensures Run(rows, members).Success? ==>
      Run(rows + [row], members) == Step(Run(rows, members).value, row, |rows|, members)
  {
    assert (rows + [row])[..|rows|] == rows;
  }

  /** The invariant of the parser's variables. Stars, constellations and
      the link endpoints that resolved are all visible catalog entries. */
  predicate Consistent(p: Parser, members: set<string>) {
    && (forall i :: 0 <= i < |p.constellations| ==> p.constellations[i].name in members)
    && (forall i :: 0 <= i < |p.stars| ==>
          p.stars[i].name != "" && p.stars[i].name[0] != '#' && p.stars[i].name in p.starMap)
    && (forall k :: k in p.starMap ==> p.starMap[k].name == k && p.starMap[k] in p.stars)
    && (forall i, j :: 0 <= i < |p.links| && 0 <= j < |p.links[i]| && p.links[i][j].Some? ==>
          p.links[i][j].value in p.stars)
  }

  /** Recording a visible star keeps the invariant. */
  lemma AddStarConsistent(p: Parser, n: Star, members: set<string>)
    requires Consistent(p, members) && n.name != "" && n.name[0] != '#'
    ensures Consistent(p.(stars := p.stars + [n], starMap := p.starMap[n.name := n]), members)
  {
    var q := p.(stars := p.stars + [n], starMap := p.starMap[n.name := n]);
    forall i | 0 <= i < |q.stars|
      ensures q.stars[i].name != "" && q.stars[i].name[0] != '#' && q.stars[i].name in q.starMap
    {
      if i < |p.stars| {
        assert q.stars[i] == p.stars[i];
      }
    }
    forall k | k in q.starMap
      ensures q.starMap[k].name == k && q.starMap[k] in q.stars
    {
      if k != n.name {
        assert q.starMap[k] == p.starMap[k];
      }
    }
  }

  /** Appending a polyline resolved against the map keeps the invariant. */
  lemma AddLinkConsistent(p: Parser, row: Row, members: set<string>)
    requires Consistent(p, members)
    ensures Consistent(p.(links := p.links + [Resolve(row, p.starMap)]), members)
  {
  }

  /** Every step keeps the invariant. */
  lemma StepConsistent(p: Parser, row: Row, index: nat, members: set<string>)
    requires Consistent(p, members)
    ensures Step(p, row, index, members).Success? ==> Consistent(Step(p, row, index, members).value, members)
  {
    if IsData(row) && p.state == 1 && |row| >= 3 && row[0][0] != '#' {
      AddStarConsistent(p, StarOf(row), members);
    } else if IsData(row) && p.state == 2 {
      AddLinkConsistent(p, row, members);
    }
  }

  /** The invariant holds after any sequence of rows. */
  lemma {:induction false} RunConsistent(rows: seq<Row>, members: set<string>)
    ensures Run(rows, members).Success? ==> Consistent(Run(rows, members).value, members)
  {
    if |rows| > 0 {
      RunConsistent(rows[..|rows| - 1], members);
      match Run(rows[..|rows| - 1], members)
      case Failure(_) =>
      case Success(p) => StepConsistent(p, rows[|rows| - 1], |rows| - 1, members);
    }
  }

  /** `ti.parseStars`: the catalog of a whole file. Every constellation
      kept is in `members`, no star is named "#...", and every link
      endpoint that resolved is one of the returned stars. */
  function ParseStars(rows: seq<Row>, members: set<string>): (r: Result<Catalog, ParseError>)
    ensures r.Success? ==>
      && (forall i :: 0 <= i < |r.value.constellations| ==> r.value.constellations[i].name in members)
      && (forall i :: 0 <= i < |r.value.stars| ==>
            r.value.stars[i].name != "" && r.value.stars[i].name[0] != '#')
      && (forall i, j :: 0 <= i < |r.value.links| && 0 <= j < |r.value.links[i]| && r.value.links[i][j].Some? ==>
            r.value.links[i][j].value in r.value.stars)
  {
    RunConsistent(rows, members);
    match Run(rows, members)
    case Failure(e) => Failure(e)
    case Success(p) => Success(Catalog(p.stars, p.links, p.constellations))
  }

  /** A data row in an ignored section is skipped. */
  lemma SkipIgnoredRow(rows: seq<Row>, row: Row, members: set<string>)
    requires Run(rows, members).Success? && Run(rows, members).value.state == Ignored
    requires IsData(row)
    ensures Run(rows + [row], members) == Run(rows, members)
  {
    RunSnoc(rows, row, members);
  }

  /** Once a section is ignored, rows that are neither blank nor separators
      are skipped without effect, however many there are. */
  lemma {:induction false} IgnoredSectionSkipped(rows: seq<Row>, rest: seq<Row>, members: set<string>)
    requires Run(rows, members).Success? && Run(rows, members).value.state == Ignored
    requires forall i :: 0 <= i < |rest| ==> IsData(rest[i])
    ensures Run(rows + rest, members) == Run(rows, members)
  {
    if |rest| > 0 {
      var front := rest[..|rest| - 1];
      var last := rest[|rest| - 1];
      assert forall i :: 0 <= i < |front| ==> front[i] == rest[i];
      IgnoredSectionSkipped(rows, front, members);
      assert rows + rest == (rows + front) + [last];
      SkipIgnoredRow(rows + front, last, members);
    } else {
      assert rows + rest == rows;
    }
  }

  /** A star row the parser can read: neither blank nor a separator, and
      with both coordinates. */
  predicate StarRow(row: Row) {
    IsData(row) && |row| >= 3
  }

  /** Every row of a section is a readable star row. */
  predicate StarRows(section: seq<Row>) {
    forall i :: 0 <= i < |section| ==> IsData(section[i]) && |section[i]| >= 3
  }

  /** A star row whose star is recorded: its name does not start with '#'. */
  predicate Kept(row: Row)
    requires StarRow(row)
  {
    row[0][0] != '#'
  }

  /** The stars of a star section, in row order, without the '#' rows. */
  function KeptStars(section: seq<Row>): (stars: seq<Star>)
    requires StarRows(section)
  {
    if |section| == 0 then []
    else
      var last := section[|section| - 1];
      KeptStars(section[..|section| - 1]) + (if Kept(last) then [StarOf(last)] else [])
  }

  /** The star of the last recorded row named `k`, if there is one. */
  function LastNamed(section: seq<Row>, k: string): Option<Star>
    requires StarRows(section)
  {
    if |section| == 0 then None
    else
      var last := section[|section| - 1];
      if Kept(last) && last[0] == k then Some(StarOf(last))
      else LastNamed(section[..|section| - 1], k)
  }

  /** `starMap[k]`, with `undefined` as None. */
  function Find(m: map<string, Star>, k: string): Option<Star> {
    if k in m then Some(m[k]) else None
  }

  /** What a readable star row does to the parser. */
  function RecordStar(p: Parser, row: Row): Parser
    requires StarRow(row)
  {
    if Kept(row) then p.(stars := p.stars + [StarOf(row)], starMap := p.starMap[row[0] := StarOf(row)])
    else p
  }

  lemma StarRowStep(p: Parser, row: Row, index: nat, members: set<string>)
    requires p.state == 1 && StarRow(row)
    ensures Step(p, row, index, members) == Success(RecordStar(p, row))
  {
  }

  /** `q` is `p` after the star rows `section`: the non-'#' stars appended
      in order, and each name looking up the star of its last recorded row,
      or what it looked up before when no row of the section records it. */
  ghost predicate AfterStars(p: Parser, q: Parser, section: seq<Row>)
    requires StarRows(section)
  {
    && q.state == p.state && q.links == p.links && q.constellations == p.constellations
    && q.stars == p.stars + KeptStars(section)
    && forall k :: Find(q.starMap, k) ==
         if LastNamed(section, k).Some? then LastNamed(section, k) else Find(p.starMap, k)
  }

  lemma AfterStarsSnoc(p: Parser, q: Parser, front: seq<Row>, last: Row)
    requires StarRows(front)
    requires StarRow(last) && AfterStars(p, q, front)
    ensures StarRows(front + [last])
    ensures AfterStars(p, RecordStar(q, last), front + [last])
  {
    SectionSnoc(front, last);
    FindAfterRecord(q, last);
  }

  /** Adding a row at the end of a section adds its star, if kept, at the
      end of the kept stars, and makes it the last one under its name. */
  lemma SectionSnoc(front: seq<Row>, last: Row)
    requires StarRows(front) && StarRow(last)
    ensures StarRows(front + [last])
    ensures KeptStars(front + [last]) == KeptStars(front) + (if Kept(last) then [StarOf(last)] else [])
    ensures forall k :: LastNamed(front + [last], k) ==
              (if Kept(last) && last[0] == k then Some(StarOf(last)) else LastNamed(front, k))
  {
    assert (front + [last])[..|front|] == front;
  }

  lemma FindAfterRecord(q: Parser, row: Row)
    requires StarRow(row)
    ensures RecordStar(q, row).stars == q.stars + (if Kept(row) then [StarOf(row)] else [])
    ensures forall k :: Find(RecordStar(q, row).starMap, k) ==
              (if Kept(row) && row[0] == k then Some(StarOf(row)) else Find(q.starMap, k))
  {
  }

  /** A section of star rows appends exactly its non-'#' stars, in order,
      and afterwards each name looks up the star of its last recorded row,
      or what it looked up before when no row of the section records it. */
  lemma {:induction false} StarSection(rows: seq<Row>, section: seq<Row>, members: set<string>)
    requires Run(rows, members).Success? && Run(rows, members).value.state == 1
    requires StarRows(section)
    ensures Run(rows + section, members).Success?
    ensures AfterStars(Run(rows, members).value, Run(rows + section, members).value, section)
  {
    if |section| == 0 {
      assert rows + section == rows;
    } else {
      var front := section[..|section| - 1];
      var last := section[|section| - 1];
      assert forall i :: 0 <= i < |front| ==> front[i] == section[i];
      StarSection(rows, front, members);
      var q := Run(rows + front, members).value;
      SnocSplit(rows, section);
      RunSnoc(rows + front, last, members);
      StarRowStep(q, last, |rows + front|, members);
      AfterStarsSnoc(Run(rows, members).value, q, front, last);
      assert front + [last] == section;
    }
  }

  /** The constellations of a constellation section, one per row. */
  function ConstellationsOf(section: seq<Row>): (cs: seq<Constellation>)
    requires StarRows(section)
    ensures |cs| == |section|
  {
    if |section| == 0 then []
    else
      var last := section[|section| - 1];
      ConstellationsOf(section[..|section| - 1]) +
        [Constellation(last[0], RightAscension(last[1]), FromBase60(last[2]))]
  }

  predicate MemberRow(row: Row, members: set<string>) {
    StarRow(row) && row[0] in members
  }

  /** Every row of a section is a member constellation with coordinates. */
  predicate MemberRows(section: seq<Row>, members: set<string>) {
    forall i :: 0 <= i < |section| ==> IsData(section[i]) && |section[i]| >= 3 && section[i][0] in members
  }

  lemma ConstellationRowStep(p: Parser, row: Row, index: nat, members: set<string>)
    requires p.state == 0 && MemberRow(row, members)
    ensures Step(p, row, index, members) ==
      Success(p.(constellations := p.constellations + ConstellationsOf([row])))
  {
    assert ConstellationsOf([row]) ==
      [Constellation(row[0], Mul(Finite(15.0), FromBase60(row[1])), FromBase60(row[2]))];
  }

  /** A section of member constellations with coordinates appends one
      constellation per row and changes nothing else. */
  lemma {:induction false} ConstellationSection(rows: seq<Row>, section: seq<Row>, members: set<string>)
    requires Run(rows, members).Success? && Run(rows, members).value.state == 0
    requires MemberRows(section, members)
    ensures Run(rows + section, members) == Success(Run(rows, members).value.(
      constellations := Run(rows, members).value.constellations + ConstellationsOf(section)))
  {
    var cs := Run(rows, members).value.constellations;
    if |section| == 0 {
      assert rows + section == rows;
      assert cs + ConstellationsOf(section) == cs;
    } else {
      var front := section[..|section| - 1];
      var last := section[|section| - 1];
      MemberRowsSnoc(section, members);
      ConstellationSection(rows, front, members);
      var q := Run(rows + front, members).value;
      SnocSplit(rows, section);
      RunSnoc(rows + front, last, members);
      ConstellationRowStep(q, last, |rows + front|, members);
      ConstellationsSnoc(cs, front, last);
    }
  }

  lemma MemberRowsSnoc(section: seq<Row>, members: set<string>)
    requires |section| > 0 && MemberRows(section, members)
    ensures MemberRows(section[..|section| - 1], members)
    ensures MemberRow(section[|section| - 1], members)
    ensures section[..|section| - 1] + [section[|section| - 1]] == section
  {
    assert forall i :: 0 <= i < |section| - 1 ==> section[..|section| - 1][i] == section[i];
  }

  lemma ConstellationsSnoc(cs: seq<Constellation>, front: seq<Row>, last: Row)
    requires StarRows(front) && StarRow(last)
    ensures StarRows(front + [last]) && StarRows([last])
    ensures (cs + ConstellationsOf(front)) + ConstellationsOf([last]) ==
      cs + ConstellationsOf(front + [last])
  {
    assert (front + [last])[..|front|] == front;
    assert [last][..0] == [];
  }

  /** The rows read so far followed by a section are the rows up to the
      section's last row, then that row. */
  lemma SnocSplit(rows: seq<Row>, section: seq<Row>)
    requires |section| > 0
    ensures rows + section == (rows + section[..|section| - 1]) + [section[|section| - 1]]
  {
  }

  /** Every row of a section is a link row: neither blank nor a separator. */
  predicate LinkRows(section: seq<Row>) {
    forall i :: 0 <= i < |section| ==> IsData(section[i])
  }

  /** The polylines of a link section, resolved against `starMap`. */
  function LinksOf(section: seq<Row>, starMap: map<string, Star>): (links: seq<Link>)
    ensures |links| == |section|
    ensures forall i :: 0 <= i < |section| ==> links[i] == Resolve(section[i], starMap)
  {
    if |section| == 0 then []
    else
      var front := section[..|section| - 1];
      assert forall i :: 0 <= i < |front| ==> front[i] == section[i];
      LinksOf(front, starMap) + [Resolve(section[|section| - 1], starMap)]
  }

  /** A section of link rows appends one polyline per row, resolved
      against the star map, and changes nothing else. */
  lemma {:induction false} LinkSection(rows: seq<Row>, section: seq<Row>, members: set<string>)
    requires Run(rows, members).Success? && Run(rows, members).value.state == 2
    requires LinkRows(section)
    ensures Run(rows + section, members) == Success(Run(rows, members).value.(
      links := Run(rows, members).value.links + LinksOf(section, Run(rows, members).value.starMap)))
  {
    var p := Run(rows, members).value;
    if |section| == 0 {
      assert rows + section == rows;
      assert p.links + LinksOf(section, p.starMap) == p.links;
    } else {
      var front := section[..|section| - 1];
      var last := section[|section| - 1];
      assert LinkRows(front) by {
        assert forall i :: 0 <= i < |front| ==> front[i] == section[i];
      }
      LinkSection(rows, front, members);
      SnocSplit(rows, section);
      RunSnoc(rows + front, last, members);
      assert p.links + LinksOf(section, p.starMap) ==
        (p.links + LinksOf(front, p.starMap)) + [Resolve(last, p.starMap)];
    }
  }

  /** The separator row that ends a section. */
  const Separator: Row := ["---"]

  /** A whole file: member constellations, a separator, star rows, a
      separator and link rows. It parses to those constellations, the
      non-'#' stars in row order, and one polyline per link row whose
      endpoints are the stars of the last star rows with those names, or
      undefined where no star row records the name. */
  lemma CatalogOfFile(cons: seq<Row>, stars: seq<Row>, links: seq<Row>, members: set<string>)
    requires MemberRows(cons, members) && StarRows(stars) && LinkRows(links)
    ensures ParseStars(cons + [Separator] + stars + [Separator] + links, members).Success?
    ensures var c := ParseStars(cons + [Separator] + stars + [Separator] + links, members).value;
      && c.constellations == ConstellationsOf(cons)
      && c.stars == KeptStars(stars)
      && |c.links| == |links|
      && forall i, j :: 0 <= i < |links| && 0 <= j < |links[i]| ==>
           |c.links[i]| == |links[i]| && c.links[i][j] == LastNamed(stars, links[i][j])
  {
    var head := cons + [Separator] + stars + [Separator];
    HeadOfFile(cons, stars, members);
    LinkSection(head, links, members);
    ParseStarsOfRun(head + links, members);
    LinksByLastName(links, Run(head, members).value.starMap, stars);
  }

  /** Against a map that looks each name up as the star rows do, a link
      section resolves every name to the star of its last recorded row. */
  lemma LinksByLastName(links: seq<Row>, starMap: map<string, Star>, stars: seq<Row>)
    requires StarRows(stars)
    requires forall k :: Find(starMap, k) == LastNamed(stars, k)
    ensures forall i, j :: 0 <= i < |links| && 0 <= j < |links[i]| ==>
      |LinksOf(links, starMap)[i]| == |links[i]| &&
      LinksOf(links, starMap)[i][j] == LastNamed(stars, links[i][j])
  {
    var resolved := LinksOf(links, starMap);
    forall i, j | 0 <= i < |links| && 0 <= j < |links[i]|
      ensures |resolved[i]| == |links[i]| && resolved[i][j] == LastNamed(stars, links[i][j])
    {
      assert resolved[i] == Resolve(links[i], starMap);
      assert Find(starMap, links[i][j]) == LastNamed(stars, links[i][j]);
    }
  }

  /** Before the links of such a file, the parser holds the constellations
      and the kept stars, and each name looks up the star of its last
      recorded row. */
  lemma HeadOfFile(cons: seq<Row>, stars: seq<Row>, members: set<string>)
    requires MemberRows(cons, members) && StarRows(stars)
    ensures var r := Run(cons + [Separator] + stars + [Separator], members);
      && r.Success? && r.value.state == 2
      && r.value.constellations == ConstellationsOf(cons)
      && r.value.stars == KeptStars(stars) && r.value.links == []
      && forall k :: Find(r.value.starMap, k) == LastNamed(stars, k)
  {
    var head := cons + [Separator] + stars;
    assert [] + cons == cons;
    ConstellationSection([], cons, members);
    RunSnoc(cons, Separator, members);
    StarSection(cons + [Separator], stars, members);
    RunSnoc(head, Separator, members);
  }

  /** A parse that does not throw returns the parser's three lists. */
  lemma ParseStarsOfRun(rows: seq<Row>, members: set<string>)
    requires Run(rows, members).Success?
    ensures var p := Run(rows, members).value;
      ParseStars(rows, members) == Success(Catalog(p.stars, p.links, p.constellations))
  {
  }
}
