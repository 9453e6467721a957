/**
 * `addTableDataLabels`: for phones, every table whose first `<thead>` has
 * `<th>` cells gets each body cell labelled with its column's header, so
 * that a style sheet can show the header beside the value once the table
 * is stacked. `addTableDataLabels` does this with five regular expressions nested in
 * one another: tables, then their `<tbody>`, its rows and their cells, and
 * the header cells of the `<thead>`.
 *
 * Besides the definitions as `addTableDataLabels` writes them, the module gives a
 * reference rendering: a table built from header texts, rows and cells,
 * with any white space between the tags, and the same table with its cells
 * labelled. The layout theorem says the regular-expression pipeline turns
 * the one into the other.
 */
module Tables {
  import opened Optional
  import opened Text
  import opened Pattern
  import opened Markup
  import opened Segments

  // ------------------------------------------------------------ patterns

  /** `(?s)<table[^>]*>(.*?)</table>`. */
  const TablePattern := Element("<table", AnyRune, "</table>")

  /** `(?s)<thead[^>]*>(.*?)</thead>`. */
  const HeadPattern := Element("<thead", AnyRune, "</thead>")

  /** `(?s)<tbody[^>]*>(.*?)</tbody>`. */
  const BodyPattern := Element("<tbody", AnyRune, "</tbody>")

  /** `(?s)<tr[^>]*>(.*?)</tr>`. */
  const RowPattern := Element("<tr", AnyRune, "</tr>")

  /** `<th[^>]*>(.*?)</th>`, whose `.` stops at a line break. */
  const HeaderPattern := Element("<th", NotNewline, "</th>")

  /** `<[^>]*>`, a tag. */
  const TagPattern := Regex(false, [Lit("<")] + ([Star(NoneOf(">"), false)] + [Lit(">")]))

  // ------------------------------------------------ as the program writes it

  /** The `i`th entry of a match list, as Go indexes it (`match[i]`). */
  function Group(m: seq<string>, i: nat): string {
    if i < |m| then m[i] else ""
  }

  /** A header's label: the text of its cell with the tags removed and the white space trimmed. */
  function HeaderLabel(cell: string): string {
    TrimSpace(ReplaceAllString(TagPattern, cell, ""))
  }

  /** The labels of the header cells found, in order. */
  function Labels(found: seq<seq<string>>): seq<string>
    decreases |found|
  {
    if |found| == 0 then [] else [HeaderLabel(Group(found[0], 1))] + Labels(found[1..])
  }

  /** The labels of a table: one per `<th>` of its first `<thead>`, none when it has no `<thead>`. */
  function Headers(table: string): seq<string> {
    var thead := FindStringSubmatch(HeadPattern, table);
    if |thead| > 1 then Labels(FindAllFrom(HeaderPattern, thead[1], 0)) else []
  }

  /** The data label attribute. */
  function DataLabel(name: string): string {
    " data-label=\"" + name + "\""
  }

  /**
   * The `k`th cell of a row: re-read with the cell pattern and written
   * back with the `k`th label after its attributes, or left alone when
   * there is no `k`th label.
   */
  function LabelCell(hs: seq<string>, k: nat, td: string): string {
    if k < |hs| then
      var m := FindStringSubmatch(CellPattern, td);
      if |m| > 2 then "<td" + m[1] + DataLabel(hs[k]) + ">" + m[2] + "</td>" else td
    else td
  }

  function CellLabeller(hs: seq<string>): Replacer {
    (k: nat, td: string, g: seq<string>) => LabelCell(hs, k, td)
  }

  /** The cells of `s` labelled, the first of them numbered `k`. */
  function LabelCells(hs: seq<string>, s: string, k: nat): string {
    ReplaceFrom(CellPattern, s, 0, k, CellLabeller(hs))
  }

  /** One row: its cells numbered from 0, so that the count starts again in every row. */
  function LabelRow(hs: seq<string>, tr: string): string {
    LabelCells(hs, tr, 0)
  }

  function RowLabeller(hs: seq<string>): Replacer {
    (k: nat, tr: string, g: seq<string>) => LabelRow(hs, tr)
  }

  function LabelBody(hs: seq<string>, tbody: string): string {
    ReplaceFrom(RowPattern, tbody, 0, 0, RowLabeller(hs))
  }

  function BodyLabeller(hs: seq<string>): Replacer {
    (k: nat, tbody: string, g: seq<string>) => LabelBody(hs, tbody)
  }

  /** One table: its bodies are labelled when its header row gave at least one label. */
  function LabelTable(table: string): string {
    var hs := Headers(table);
    if |hs| > 0 then ReplaceFrom(BodyPattern, table, 0, 0, BodyLabeller(hs)) else table
  }

  const TableLabeller: Replacer := (k: nat, table: string, g: seq<string>) => LabelTable(table)

  /** `addTableDataLabels`. */
  function AddTableDataLabels(html: string): string {
    ReplaceFrom(TablePattern, html, 0, 0, TableLabeller)
  }

  // --------------------------------------------------- reference layout

  /** A body cell: the text before it, its attributes and its text. */
  datatype Cell = Cell(gap: string, attrs: string, text: string)

  /** A body row: the text before it, its cells, and the text before `</tr>`. */
  datatype Row = Row(gap: string, cells: seq<Cell>, end: string)

  /** A header cell `<th>` + text + `</th>` and the text before it. */
  datatype Head = Head(gap: string, text: string)

  /**
   * A table with one header row and one body; the string fields are what
   * stands between the tags, in document order.
   */
  datatype Table = Table(
    open: string,       // between <table> and <thead>
    headOpen: string,   // between <thead> and <tr>
    heads: seq<Head>,
    headEnd: string,    // before the header row's </tr>
    headClose: string,  // between </tr> and </thead>
    between: string,    // between </thead> and <tbody>
    rows: seq<Row>,
    bodyEnd: string,    // before </tbody>
    close: string)      // between </tbody> and </table>

  /** Text without markup. */
  predicate Plain(s: string) {
    '<' !in s
  }

  /** Text without markup on one line. */
  predicate Line(s: string) {
    '<' !in s && '\n' !in s
  }

  predicate CellShaped(c: Cell) {
    Plain(c.gap) && Plain(c.attrs) && '>' !in c.attrs && Line(c.text)
  }

  predicate RowShaped(r: Row) {
    Plain(r.gap) && Plain(r.end) && forall i :: 0 <= i < |r.cells| ==> CellShaped(r.cells[i])
  }

  predicate HeadShaped(h: Head) {
    Plain(h.gap) && Line(h.text)
  }

  /**
   * The tables the layout theorem covers: nothing but the table's own tags
   * between `<table>` and `</table>`, and no line break inside a cell.
   */
  predicate Shaped(t: Table) {
    && Plain(t.open) && Plain(t.headOpen) && Plain(t.headEnd) && Plain(t.headClose)
    && Plain(t.between) && Plain(t.bodyEnd) && Plain(t.close)
    && (forall i :: 0 <= i < |t.heads| ==> HeadShaped(t.heads[i]))
    && (forall i :: 0 <= i < |t.rows| ==> RowShaped(t.rows[i]))
  }

  function CellText(c: Cell): string {
    "<td" + c.attrs + ">" + c.text + "</td>"
  }

  function Cells(cs: seq<Cell>): string
    decreases |cs|
  {
    if |cs| == 0 then "" else cs[0].gap + (CellText(cs[0]) + Cells(cs[1..]))
  }

  /** What stands between `<tr>` and `</tr>`. */
  function RowInner(r: Row): string {
    Cells(r.cells) + r.end
  }

  function RowText(r: Row): string {
    "<tr>" + (RowInner(r) + "</tr>")
  }

  function Rows(rs: seq<Row>): string
    decreases |rs|
  {
    if |rs| == 0 then "" else rs[0].gap + (RowText(rs[0]) + Rows(rs[1..]))
  }

  function HeadText(h: Head): string {
    "<th>" + (h.text + "</th>")
  }

  function HeadCells(hs: seq<Head>): string
    decreases |hs|
  {
    if |hs| == 0 then "" else hs[0].gap + (HeadText(hs[0]) + HeadCells(hs[1..]))
  }

  /** What stands between `<thead>` and `</thead>`. */
  function HeadInner(t: Table): string {
    t.headOpen + ("<tr>" + (HeadCells(t.heads) + (t.headEnd + ("</tr>" + t.headClose))))
  }

  function HeadBlock(t: Table): string {
    "<thead>" + (HeadInner(t) + "</thead>")
  }

  /** What stands between `<tbody>` and `</tbody>`. */
  function BodyInner(t: Table): string {
    Rows(t.rows) + t.bodyEnd
  }

  function BodyText(t: Table): string {
    "<tbody>" + (BodyInner(t) + "</tbody>")
  }

  /** What stands between `<table>` and `</table>`. */
  function TableInner(t: Table): string {
    t.open + (HeadBlock(t) + (t.between + (BodyText(t) + t.close)))
  }

  function TableText(t: Table): string {
    "<table>" + (TableInner(t) + "</table>")
  }

  /** A table up to its `<tbody>`, ... */
  function TableFront(t: Table): string {
    "<table>" + (t.open + (HeadBlock(t) + t.between))
  }

  /** ... and after its `</tbody>`. */
  function TableBack(t: Table): string {
    t.close + "</table>"
  }

  /** The labels the header cells give: their texts, trimmed. */
  function HeadLabels(hs: seq<Head>): (labels: seq<string>)
    ensures |labels| == |hs|
    decreases |hs|
  {
    if |hs| == 0 then [] else [TrimSpace(hs[0].text)] + HeadLabels(hs[1..])
  }

  /** A cell numbered `k`: with the `k`th label when there is one, as it was otherwise. */
  function LabelledCell(hs: seq<string>, k: nat, c: Cell): string {
    if k < |hs| then "<td" + c.attrs + DataLabel(hs[k]) + ">" + c.text + "</td>" else CellText(c)
  }

  function LabelledCells(hs: seq<string>, cs: seq<Cell>, k: nat): string
    decreases |cs|
  {
    if |cs| == 0 then "" else cs[0].gap + (LabelledCell(hs, k, cs[0]) + LabelledCells(hs, cs[1..], k + 1))
  }

  function LabelledRow(hs: seq<string>, r: Row): string {
    "<tr>" + (LabelledCells(hs, r.cells, 0) + (r.end + "</tr>"))
  }

  function LabelledRows(hs: seq<string>, rs: seq<Row>): string
    decreases |rs|
  {
    if |rs| == 0 then "" else rs[0].gap + (LabelledRow(hs, rs[0]) + LabelledRows(hs, rs[1..]))
  }

  function LabelledBody(hs: seq<string>, t: Table): string {
    "<tbody>" + (LabelledRows(hs, t.rows) + (t.bodyEnd + "</tbody>"))
  }

  /** The table with every body row's `k`th cell labelled with the `k`th header label. */
  function LabelledTableText(t: Table): string {
    TableFront(t) + (LabelledBody(HeadLabels(t.heads), t) + TableBack(t))
  }

  // ------------------------------------------------------------- cells

  /** Where `<` cannot stand, `Same` with the patterns' lead fails. */
  lemma PlainGap(re: Regex, g: string, u: string)
    requires WellFormed(re) && !re.fold && Lead(re) == '<' && Plain(g)
    ensures forall j :: 0 <= j < |g| ==> Match(re.fold, re.pieces, g + u, j).None?
  {
    assert forall j :: 0 <= j < |g| ==> g[j] in g;
    GapNoMatch(re, g, u);
  }

  /** The runes of `a` stand `|p|` runes into `p + (a + r)`. */
  lemma Within(p: string, a: string, r: string, j: nat)
    requires |p| <= j < |p| + |a|
    ensures (p + (a + r))[j] in a
  {
    assert (p + (a + r))[j] == a[j - |p|];
  }

  /** The attributes of a cell: no `>` until the one that closes the opening tag. */
  lemma CellOpening(a: string, r: string)
    requires '>' !in a
    ensures var s := "<td" + (a + (">" + r));
      && "<td" <= s[0..] && s[3 + |a|] == '>'
      && forall j :: 3 <= j < 3 + |a| ==> s[j] != '>'
  {
    var s := "<td" + (a + (">" + r));
    forall j | 3 <= j < 3 + |a| ensures s[j] != '>' {
      Within("<td", a, ">" + r, j);
    }
  }

  /** The text of a cell: no line break and no `</td>` until the one that closes it. */
  lemma CellContent(p: string, x: string, w: string)
    requires Line(x)
    ensures var s := p + (x + ("</td>" + w));
      && (forall j :: |p| <= j < |p| + |x| ==> s[j] != '\n')
      && (forall j :: |p| <= j < |p| + |x| ==> !LitAt(false, "</td>", s, j))
      && LitAt(false, "</td>", s, |p| + |x|)
  {
    var s := p + (x + ("</td>" + w));
    forall j | |p| <= j < |p| + |x| ensures s[j] != '\n' && !LitAt(false, "</td>", s, j) {
      Within(p, x, "</td>" + w, j);
      assert !Same(false, "</td>"[0], s[j]);
    }
    assert s[|p| + |x|..] == "</td>" + w;
    LitAtExact("</td>", s, |p| + |x|);
  }

  /** The cell pattern reads a cell of the layout whole, with its attributes and text as groups. */
  lemma CellMatch(c: Cell, w: string)
    requires CellShaped(c)
    ensures var a, m := |c.attrs|, |c.text|;
      Match(false, CellPattern.pieces, CellText(c) + w, 0) == Some(Hit(|CellText(c)|, [3, 3 + a, 4 + a, 4 + a + m]))
  {
    var a, x := c.attrs, c.text;
    var p := "<td" + (a + ">");
    var s := "<td" + (a + (">" + (x + ("</td>" + w))));
    assert CellText(c) + w == s;
    CellOpening(a, x + ("</td>" + w));
    assert s == p + (x + ("</td>" + w));
    CellContent(p, x, w);
    CellAt(s, 0, |a|, |x|);
  }

  /** Re-reading a cell of the layout gives back its attributes and text. */
  lemma CellSubmatch(c: Cell)
    requires CellShaped(c)
    ensures FindStringSubmatch(CellPattern, CellText(c)) == [CellText(c), c.attrs, c.text]
  {
    var s := CellText(c);
    CellMatch(c, "");
    assert s + "" == s;
    var marks := [3, 3 + |c.attrs|, 4 + |c.attrs|, 4 + |c.attrs| + |c.text|];
    assert FindFrom(CellPattern, s, 0) == Some(Found(0, Hit(|s|, marks)));
    assert s[3..3 + |c.attrs|] == c.attrs;
    assert s[4 + |c.attrs|..4 + |c.attrs| + |c.text|] == c.text;
    assert Groups(s, marks) == [c.attrs, c.text];
    assert s[0..|s|] == s;
  }

  /** The program's cell labelling agrees with the reference on a cell of the layout. */
  lemma LabelCellOf(hs: seq<string>, k: nat, c: Cell)
    requires CellShaped(c)
    ensures LabelCell(hs, k, CellText(c)) == LabelledCell(hs, k, c)
  {
    CellSubmatch(c);
  }

  function CellMarks(c: Cell): seq<nat> {
    [3, 3 + |c.attrs|, 4 + |c.attrs|, 4 + |c.attrs| + |c.text|]
  }

  /** The cells of a row as the cell pattern cuts them. */
  function CellSegments(cs: seq<Cell>): (segs: seq<Segment>)
    ensures |segs| == |cs|
    decreases |cs|
  {
    if |cs| == 0 then [] else [Segment(cs[0].gap, CellText(cs[0]), CellMarks(cs[0]))] + CellSegments(cs[1..])
  }

  lemma {:induction false} CellsJoin(cs: seq<Cell>, u: string)
    ensures JoinThen(CellSegments(cs), u) == Cells(cs) + u
    decreases |cs|
  {
    if |cs| > 0 {
      var segs := CellSegments(cs);
      assert segs[0].gap == cs[0].gap && segs[0].text == CellText(cs[0]) && segs[1..] == CellSegments(cs[1..]);
      CellsJoin(cs[1..], u);
      Assoc(CellText(cs[0]), Cells(cs[1..]), u);
      Assoc(cs[0].gap, CellText(cs[0]) + Cells(cs[1..]), u);
    }
  }

  lemma {:induction false} CellsTile(cs: seq<Cell>, u: string)
    requires forall i :: 0 <= i < |cs| ==> CellShaped(cs[i])
    ensures Tiles(CellPattern, CellSegments(cs), u)
    decreases |cs|
  {
    if |cs| > 0 {
      var c, more := cs[0], CellSegments(cs[1..]);
      var rest := JoinThen(more, u);
      PlainGap(CellPattern, c.gap, CellText(c) + rest);
      CellMatch(c, rest);
      CellsTile(cs[1..], u);
      TilesCons(CellPattern, Segment(c.gap, CellText(c), CellMarks(c)), more, u);
    }
  }

  lemma {:induction false} CellsReplaced(hs: seq<string>, cs: seq<Cell>, k: nat)
    requires forall i :: 0 <= i < |cs| ==> CellShaped(cs[i])
    ensures Replaced(CellSegments(cs), k, CellLabeller(hs)) == LabelledCells(hs, cs, k)
    decreases |cs|
  {
    if |cs| > 0 {
      var segs := CellSegments(cs);
      assert segs[0] == Segment(cs[0].gap, CellText(cs[0]), CellMarks(cs[0])) && segs[1..] == CellSegments(cs[1..]);
      LabelCellOf(hs, k, cs[0]);
      CellsReplaced(hs, cs[1..], k + 1);
    }
  }

  /** The cell pattern reads the cells of a row one by one, and nothing in what follows them. */
  lemma CellsReplace(hs: seq<string>, cs: seq<Cell>, k: nat, u: string)
    requires forall i :: 0 <= i < |cs| ==> CellShaped(cs[i])
    requires forall j :: 0 <= j < |u| ==> Match(false, CellPattern.pieces, u, j).None?
    ensures ReplaceFrom(CellPattern, JoinThen(CellSegments(cs), u), 0, k, CellLabeller(hs))
      == Replaced(CellSegments(cs), k, CellLabeller(hs)) + u
  {
    CellsTile(cs, u);
    ReplaceSegmentsThen(CellPattern, CellSegments(cs), u, k, CellLabeller(hs));
  }

  /** The cells of a row, numbered on from `k`, are labelled as the reference says. */
  lemma CellsLabelled(hs: seq<string>, cs: seq<Cell>, k: nat, u: string)
    requires forall i :: 0 <= i < |cs| ==> CellShaped(cs[i])
    requires forall j :: 0 <= j < |u| ==> Match(false, CellPattern.pieces, u, j).None?
    ensures ReplaceFrom(CellPattern, Cells(cs) + u, 0, k, CellLabeller(hs)) == LabelledCells(hs, cs, k) + u
  {
    CellsJoin(cs, u);
    CellsReplaced(hs, cs, k);
    CellsReplace(hs, cs, k, u);
  }

  // -------------------------------------------------------------- rows

  /** `<tr>` and the cell pattern: the one cannot be read as the other. */
  lemma RowOpenSkipped(hs: seq<string>, x: string)
    ensures ReplaceFrom(CellPattern, "<tr>" + x, 0, 0, CellLabeller(hs)) == "<tr>" + ReplaceFrom(CellPattern, x, 0, 0, CellLabeller(hs))
  {
    var tags := {"<tr>"};
    TaggedTag("<tr>", tags);
    HeadDiffers("<tr>", "<td", 2);
    TaggedSkip(CellPattern, "<tr>", x, tags, 0, CellLabeller(hs));
  }

  /** What follows the last cell of a row holds no cell. */
  lemma RowCloseFree(e: string)
    requires Plain(e)
    ensures forall j :: 0 <= j < |e + "</tr>"| ==> Match(false, CellPattern.pieces, e + "</tr>", j).None?
  {
    var tags := {"</tr>"};
    TaggedText(e, tags);
    TaggedTag("</tr>", tags);
    TaggedAppend(e, "</tr>", tags);
    HeadDiffers("</tr>", "<td", 1);
    assert e + "</tr>" + "" == e + "</tr>";
    TaggedNoMatch(CellPattern, e + "</tr>", "", tags);
  }

  /** The cells of a row and what follows them up to `</tr>`. */
  lemma RowInnerLabelled(hs: seq<string>, r: Row)
    requires RowShaped(r)
    ensures ReplaceFrom(CellPattern, Cells(r.cells) + (r.end + "</tr>"), 0, 0, CellLabeller(hs))
      == LabelledCells(hs, r.cells, 0) + (r.end + "</tr>")
  {
    RowCloseFree(r.end);
    CellsLabelled(hs, r.cells, 0, r.end + "</tr>");
  }

  /** The program's row labelling agrees with the reference on a row of the layout. */
  lemma RowLabelled(hs: seq<string>, r: Row)
    requires RowShaped(r)
    ensures LabelRow(hs, RowText(r)) == LabelledRow(hs, r)
  {
    var x, u := Cells(r.cells), r.end + "</tr>";
    assert RowText(r) == "<tr>" + (x + u) by {
      Assoc(x, r.end, "</tr>");
    }
    RowOpenSkipped(hs, x + u);
    RowInnerLabelled(hs, r);
  }

  // -------------------------------------------------------------- tags

  /** The tags that stand inside a row, ... */
  const CellTags: set<string> := {"<td", "</td>"}

  /** ... inside a body, ... */
  const BodyTags: set<string> := {"<tr>", "</tr>", "<td", "</td>"}

  /** ... inside a header, ... */
  const HeadTags: set<string> := {"<tr>", "</tr>", "<th>", "</th>"}

  /** ... in a table before its body, ... */
  const FrontTags: set<string> := {"<table>", "<thead>", "</thead>", "<tr>", "</tr>", "<th>", "</th>"}

  /** ... and inside a table. */
  const InnerTags: set<string> := {"<thead>", "</thead>", "<tbody>", "</tbody>", "<tr>", "</tr>", "<th>", "</th>", "<td", "</td>"}

  lemma CellTagged(c: Cell)
    requires CellShaped(c)
    ensures Tagged(CellText(c), CellTags)
  {
    TaggedTag("<td", CellTags);
    TaggedText(c.attrs, CellTags);
    TaggedText(">", CellTags);
    TaggedText(c.text, CellTags);
    TaggedTag("</td>", CellTags);
    TaggedAppend("<td", c.attrs, CellTags);
    TaggedAppend("<td" + c.attrs, ">", CellTags);
    TaggedAppend("<td" + c.attrs + ">", c.text, CellTags);
    TaggedAppend("<td" + c.attrs + ">" + c.text, "</td>", CellTags);
  }

  lemma {:induction false} CellsTagged(cs: seq<Cell>)
    requires forall i :: 0 <= i < |cs| ==> CellShaped(cs[i])
    ensures Tagged(Cells(cs), CellTags)
    decreases |cs|
  {
    if |cs| == 0 {
      TaggedText("", CellTags);
    } else {
      CellTagged(cs[0]);
      CellsTagged(cs[1..]);
      TaggedText(cs[0].gap, CellTags);
      TaggedAppend(CellText(cs[0]), Cells(cs[1..]), CellTags);
      TaggedAppend(cs[0].gap, CellText(cs[0]) + Cells(cs[1..]), CellTags);
    }
  }

  lemma RowTagged(r: Row)
    requires RowShaped(r)
    ensures Tagged(RowInner(r), CellTags) && Tagged(RowText(r), BodyTags)
  {
    CellsTagged(r.cells);
    TaggedText(r.end, CellTags);
    TaggedAppend(Cells(r.cells), r.end, CellTags);
    TaggedWider(RowInner(r), CellTags, BodyTags);
    TaggedTag("<tr>", BodyTags);
    TaggedTag("</tr>", BodyTags);
    TaggedAppend(RowInner(r), "</tr>", BodyTags);
    TaggedAppend("<tr>", RowInner(r) + "</tr>", BodyTags);
  }

  lemma {:induction false} RowsTagged(rs: seq<Row>)
    requires forall i :: 0 <= i < |rs| ==> RowShaped(rs[i])
    ensures Tagged(Rows(rs), BodyTags)
    decreases |rs|
  {
    if |rs| == 0 {
      TaggedText("", BodyTags);
    } else {
      RowTagged(rs[0]);
      RowsTagged(rs[1..]);
      TaggedText(rs[0].gap, BodyTags);
      TaggedAppend(RowText(rs[0]), Rows(rs[1..]), BodyTags);
      TaggedAppend(rs[0].gap, RowText(rs[0]) + Rows(rs[1..]), BodyTags);
    }
  }

  lemma CellTagsForeign()
    ensures Foreign(CellTags, "</tr>")
  {
    HeadDiffers("<td", "</tr>", 1);
    HeadDiffers("</td>", "</tr>", 3);
  }

  lemma BodyTagsForeign()
    ensures Foreign(BodyTags, "</tbody>")
  {
    HeadDiffers("<tr>", "</tbody>", 1);
    HeadDiffers("</tr>", "</tbody>", 3);
    HeadDiffers("<td", "</tbody>", 1);
    HeadDiffers("</td>", "</tbody>", 3);
  }

  // -------------------------------------------------------------- rows

  function RowMarks(r: Row): seq<nat> {
    [4, 4 + |RowInner(r)|]
  }

  /** The row pattern reads a row of the layout whole, with its inner text as the group. */
  lemma RowMatch(r: Row, w: string)
    requires RowShaped(r)
    ensures Match(false, RowPattern.pieces, RowText(r) + w, 0) == Some(Hit(|RowText(r)|, RowMarks(r)))
  {
    var x := RowInner(r);
    RowTagged(r);
    CellTagsForeign();
    ElementWhole("<tr", "<tr>", AnyRune, "</tr>", x, w, CellTags);
  }

  /** The rows of a body as the row pattern cuts them. */
  function RowSegments(rs: seq<Row>): (segs: seq<Segment>)
    ensures |segs| == |rs|
    decreases |rs|
  {
    if |rs| == 0 then [] else [Segment(rs[0].gap, RowText(rs[0]), RowMarks(rs[0]))] + RowSegments(rs[1..])
  }

  lemma {:induction false} RowsJoin(rs: seq<Row>, u: string)
    ensures JoinThen(RowSegments(rs), u) == Rows(rs) + u
    decreases |rs|
  {
    if |rs| > 0 {
      var segs := RowSegments(rs);
      assert segs[0].gap == rs[0].gap && segs[0].text == RowText(rs[0]) && segs[1..] == RowSegments(rs[1..]);
      RowsJoin(rs[1..], u);
      Assoc(RowText(rs[0]), Rows(rs[1..]), u);
      Assoc(rs[0].gap, RowText(rs[0]) + Rows(rs[1..]), u);
    }
  }

  lemma {:induction false} RowsTile(rs: seq<Row>, u: string)
    requires forall i :: 0 <= i < |rs| ==> RowShaped(rs[i])
    ensures Tiles(RowPattern, RowSegments(rs), u)
    decreases |rs|
  {
    if |rs| > 0 {
      var r, more := rs[0], RowSegments(rs[1..]);
      var rest := JoinThen(more, u);
      PlainGap(RowPattern, r.gap, RowText(r) + rest);
      RowMatch(r, rest);
      RowsTile(rs[1..], u);
      TilesCons(RowPattern, Segment(r.gap, RowText(r), RowMarks(r)), more, u);
    }
  }

  lemma {:induction false} RowsReplaced(hs: seq<string>, rs: seq<Row>, k: nat)
    requires forall i :: 0 <= i < |rs| ==> RowShaped(rs[i])
    ensures Replaced(RowSegments(rs), k, RowLabeller(hs)) == LabelledRows(hs, rs)
    decreases |rs|
  {
    if |rs| > 0 {
      var segs := RowSegments(rs);
      assert segs[0] == Segment(rs[0].gap, RowText(rs[0]), RowMarks(rs[0])) && segs[1..] == RowSegments(rs[1..]);
      RowLabelled(hs, rs[0]);
      RowsReplaced(hs, rs[1..], k + 1);
    }
  }

  /** The row pattern reads the rows of a body one by one, and nothing in what follows them. */
  lemma RowsReplace(hs: seq<string>, rs: seq<Row>, u: string)
    requires forall i :: 0 <= i < |rs| ==> RowShaped(rs[i])
    requires forall j :: 0 <= j < |u| ==> Match(false, RowPattern.pieces, u, j).None?
    ensures ReplaceFrom(RowPattern, JoinThen(RowSegments(rs), u), 0, 0, RowLabeller(hs))
      == Replaced(RowSegments(rs), 0, RowLabeller(hs)) + u
  {
    RowsTile(rs, u);
    ReplaceSegmentsThen(RowPattern, RowSegments(rs), u, 0, RowLabeller(hs));
  }

  /** The rows of a body are labelled as the reference says, each counting its cells from 0. */
  lemma RowsLabelled(hs: seq<string>, rs: seq<Row>, u: string)
    requires forall i :: 0 <= i < |rs| ==> RowShaped(rs[i])
    requires forall j :: 0 <= j < |u| ==> Match(false, RowPattern.pieces, u, j).None?
    ensures ReplaceFrom(RowPattern, Rows(rs) + u, 0, 0, RowLabeller(hs)) == LabelledRows(hs, rs) + u
  {
    RowsJoin(rs, u);
    RowsReplaced(hs, rs, 0);
    RowsReplace(hs, rs, u);
  }

  /** What follows the last row of a body holds no row. */
  lemma BodyCloseFree(e: string)
    requires Plain(e)
    ensures forall j :: 0 <= j < |e + "</tbody>"| ==> Match(false, RowPattern.pieces, e + "</tbody>", j).None?
  {
    var tags := {"</tbody>"};
    TaggedText(e, tags);
    TaggedTag("</tbody>", tags);
    TaggedAppend(e, "</tbody>", tags);
    HeadDiffers("</tbody>", "<tr", 1);
    assert e + "</tbody>" + "" == e + "</tbody>";
    TaggedNoMatch(RowPattern, e + "</tbody>", "", tags);
  }

  /** The program's body labelling agrees with the reference on the body of a table of the layout. */
  lemma BodyLabelled(hs: seq<string>, t: Table)
    requires Shaped(t)
    ensures LabelBody(hs, BodyText(t)) == LabelledBody(hs, t)
  {
    var x, u := Rows(t.rows), t.bodyEnd + "</tbody>";
    assert BodyText(t) == "<tbody>" + (x + u) by {
      Assoc(x, t.bodyEnd, "</tbody>");
    }
    var tags := {"<tbody>"};
    TaggedTag("<tbody>", tags);
    HeadDiffers("<tbody>", "<tr", 2);
    TaggedSkip(RowPattern, "<tbody>", x + u, tags, 0, RowLabeller(hs));
    BodyCloseFree(t.bodyEnd);
    RowsLabelled(hs, t.rows, u);
  }

  // ------------------------------------------------------------ header

  lemma {:induction false} HeadCellsTagged(hs: seq<Head>)
    requires forall i :: 0 <= i < |hs| ==> HeadShaped(hs[i])
    ensures Tagged(HeadCells(hs), HeadTags)
    decreases |hs|
  {
    if |hs| == 0 {
      TaggedText("", HeadTags);
    } else {
      var h := hs[0];
      TaggedTag("<th>", HeadTags);
      TaggedText(h.text, HeadTags);
      TaggedTag("</th>", HeadTags);
      TaggedAppend(h.text, "</th>", HeadTags);
      TaggedAppend("<th>", h.text + "</th>", HeadTags);
      HeadCellsTagged(hs[1..]);
      TaggedText(h.gap, HeadTags);
      TaggedAppend(HeadText(h), HeadCells(hs[1..]), HeadTags);
      TaggedAppend(h.gap, HeadText(h) + HeadCells(hs[1..]), HeadTags);
    }
  }

  lemma HeadInnerTagged(t: Table)
    requires Shaped(t)
    ensures Tagged(HeadInner(t), HeadTags)
  {
    var tail := t.headEnd + ("</tr>" + t.headClose);
    TaggedText(t.headEnd, HeadTags);
    TaggedTag("</tr>", HeadTags);
    TaggedText(t.headClose, HeadTags);
    TaggedAppend("</tr>", t.headClose, HeadTags);
    TaggedAppend(t.headEnd, "</tr>" + t.headClose, HeadTags);
    HeadCellsTagged(t.heads);
    TaggedAppend(HeadCells(t.heads), tail, HeadTags);
    TaggedTag("<tr>", HeadTags);
    TaggedAppend("<tr>", HeadCells(t.heads) + tail, HeadTags);
    TaggedText(t.headOpen, HeadTags);
    TaggedAppend(t.headOpen, "<tr>" + (HeadCells(t.heads) + tail), HeadTags);
  }

  lemma HeadTagsForeign()
    ensures Foreign(HeadTags, "</thead>")
  {
    HeadDiffers("<tr>", "</thead>", 1);
    HeadDiffers("</tr>", "</thead>", 3);
    HeadDiffers("<th>", "</thead>", 1);
    HeadDiffers("</th>", "</thead>", 4);
  }

  function HeadMarks(h: Head): seq<nat> {
    [4, 4 + |h.text|]
  }

  /** Text on one line is read by `.` and holds no tag. */
  lemma LineRead(x: string)
    requires Line(x)
    ensures Tagged(x, {}) && forall j :: 0 <= j < |x| ==> In(NotNewline, x[j])
  {
    TaggedText(x, {});
    assert forall j :: 0 <= j < |x| ==> x[j] in x;
  }

  /** The header cell pattern reads a header cell of the layout whole, with its text as the group. */
  lemma HeadMatch(h: Head, w: string)
    requires HeadShaped(h)
    ensures Match(false, HeaderPattern.pieces, HeadText(h) + w, 0) == Some(Hit(|HeadText(h)|, HeadMarks(h)))
  {
    var x := h.text;
    LineRead(x);
    ElementWhole("<th", "<th>", NotNewline, "</th>", x, w, {});
  }

  /** The header cells as the header cell pattern cuts them. */
  function HeadSegments(hs: seq<Head>): (segs: seq<Segment>)
    ensures |segs| == |hs|
    decreases |hs|
  {
    if |hs| == 0 then [] else [Segment(hs[0].gap, HeadText(hs[0]), HeadMarks(hs[0]))] + HeadSegments(hs[1..])
  }

  lemma {:induction false} HeadsJoin(hs: seq<Head>, u: string)
    ensures JoinThen(HeadSegments(hs), u) == HeadCells(hs) + u
    decreases |hs|
  {
    if |hs| > 0 {
      var segs := HeadSegments(hs);
      assert segs[0].gap == hs[0].gap && segs[0].text == HeadText(hs[0]) && segs[1..] == HeadSegments(hs[1..]);
      HeadsJoin(hs[1..], u);
      Assoc(HeadText(hs[0]), HeadCells(hs[1..]), u);
      Assoc(hs[0].gap, HeadText(hs[0]) + HeadCells(hs[1..]), u);
    }
  }

  lemma {:induction false} HeadsTile(hs: seq<Head>, u: string)
    requires forall i :: 0 <= i < |hs| ==> HeadShaped(hs[i])
    ensures Tiles(HeaderPattern, HeadSegments(hs), u)
    decreases |hs|
  {
    if |hs| > 0 {
      var h, more := hs[0], HeadSegments(hs[1..]);
      var rest := JoinThen(more, u);
      PlainGap(HeaderPattern, h.gap, HeadText(h) + rest);
      HeadMatch(h, rest);
      HeadsTile(hs[1..], u);
      TilesCons(HeaderPattern, Segment(h.gap, HeadText(h), HeadMarks(h)), more, u);
    }
  }

  /** The header cell pattern finds the header cells one by one. */
  lemma HeadsFound(hs: seq<Head>, u: string)
    requires forall i :: 0 <= i < |hs| ==> HeadShaped(hs[i])
    ensures FindAllFrom(HeaderPattern, HeadCells(hs) + u, 0) == FoundIn(HeadSegments(hs)) + FindAllFrom(HeaderPattern, u, 0)
  {
    HeadsJoin(hs, u);
    HeadsTile(hs, u);
    FindSegments(HeaderPattern, HeadSegments(hs), u);
  }

  /** A header text without markup is its own label, trimmed. */
  lemma PlainLabel(x: string)
    requires Plain(x)
    ensures HeaderLabel(x) == TrimSpace(x)
  {
    MissingRune(x, "<", 0);
    AbsentLiteralNoMatch(TagPattern, x, 0);
    NoMatchReplaceAll(TagPattern, x, "");
  }

  lemma {:induction false} HeadsLabels(hs: seq<Head>)
    requires forall i :: 0 <= i < |hs| ==> HeadShaped(hs[i])
    ensures Labels(FoundIn(HeadSegments(hs))) == HeadLabels(hs)
    decreases |hs|
  {
    if |hs| > 0 {
      var segs, h := HeadSegments(hs), hs[0];
      assert segs[0] == Segment(h.gap, HeadText(h), HeadMarks(h)) && segs[1..] == HeadSegments(hs[1..]);
      var found := FoundIn(segs);
      assert HeadText(h)[4..4 + |h.text|] == h.text;
      assert Groups(HeadText(h), HeadMarks(h)) == [h.text];
      assert found[0] == [HeadText(h), h.text];
      assert found[1..] == FoundIn(segs[1..]);
      PlainLabel(h.text);
      HeadsLabels(hs[1..]);
    }
  }

  /** Inside the `<thead>` of a table of the layout, the header cell pattern finds exactly its header cells. */
  lemma HeadInnerFound(t: Table)
    requires Shaped(t)
    ensures FindAllFrom(HeaderPattern, HeadInner(t), 0) == FoundIn(HeadSegments(t.heads))
  {
    var x, tail := HeadCells(t.heads), t.headEnd + ("</tr>" + t.headClose);
    var a := t.headOpen + "<tr>";
    Assoc(t.headOpen, "<tr>", x + tail);
    var open, close := {"<tr>"}, {"</tr>"};
    TaggedText(t.headOpen, open);
    TaggedTag("<tr>", open);
    TaggedAppend(t.headOpen, "<tr>", open);
    HeadDiffers("<tr>", "<th", 2);
    TaggedFindSkip(HeaderPattern, a, x + tail, open);
    HeadsFound(t.heads, tail);
    TaggedText(t.headEnd, close);
    TaggedTag("</tr>", close);
    TaggedText(t.headClose, close);
    TaggedAppend("</tr>", t.headClose, close);
    TaggedAppend(t.headEnd, "</tr>" + t.headClose, close);
    HeadDiffers("</tr>", "<th", 1);
    TaggedFindNone(HeaderPattern, tail, close);
    assert FoundIn(HeadSegments(t.heads)) + [] == FoundIn(HeadSegments(t.heads));
  }

  /** The `<thead>` pattern reads a header block whole, with what it holds as the group. */
  lemma HeadBlockMatch(x: string, w: string)
    requires Tagged(x, HeadTags)
    ensures var hb := "<thead>" + (x + "</thead>");
      Match(false, HeadPattern.pieces, hb + w, 0) == Some(Hit(|hb|, [7, 7 + |x|]))
  {
    HeadTagsForeign();
    ElementWhole("<thead", "<thead>", AnyRune, "</thead>", x, w, HeadTags);
  }

  /** After a front part with no `<thead`, the first header block is found, with what it holds. */
  lemma FirstThead(a: string, x: string, w: string)
    requires Tagged(a, {"<table>"}) && Tagged(x, HeadTags)
    ensures var hb := "<thead>" + (x + "</thead>");
      FindStringSubmatch(HeadPattern, a + (hb + w)) == [hb, x]
  {
    var hb := "<thead>" + (x + "</thead>");
    FrontNoHead(a, hb + w);
    HeadBlockMatch(x, w);
    SubmatchAfter(HeadPattern, a, hb, w, [7, 7 + |x|]);
    HeadGroup(x);
  }

  /** No header block starts inside a front part tagged only with `<table>`. */
  lemma FrontNoHead(a: string, v: string)
    requires Tagged(a, {"<table>"})
    ensures forall j :: 0 <= j < |a| ==> Match(HeadPattern.fold, HeadPattern.pieces, a + v, j).None?
  {
    HeadDiffers("<table>", "<thead", 2);
    TaggedNoMatch(HeadPattern, a, v, {"<table>"});
  }

  lemma HeadGroup(x: string)
    ensures Groups("<thead>" + (x + "</thead>"), [7, 7 + |x|]) == [x]
  {
    var hb := "<thead>" + (x + "</thead>");
    assert hb[7..7 + |x|] == x;
  }

  /** The first `<thead>` of a table of the layout is its header block, with what it holds as the group. */
  lemma TheadOf(t: Table)
    requires Shaped(t)
    ensures FindStringSubmatch(HeadPattern, TableText(t)) == [HeadBlock(t), HeadInner(t)]
  {
    var hb, rest := HeadBlock(t), t.between + (BodyText(t) + t.close);
    var a, w := "<table>" + t.open, rest + "</table>";
    calc {
      TableText(t);
      "<table>" + ((t.open + (hb + rest)) + "</table>");
      { Assoc(t.open, hb + rest, "</table>"); Assoc(hb, rest, "</table>"); }
      "<table>" + (t.open + (hb + w));
      { Assoc("<table>", t.open, hb + w); }
      a + (hb + w);
    }
    var tags := {"<table>"};
    TaggedTag("<table>", tags);
    TaggedText(t.open, tags);
    TaggedAppend("<table>", t.open, tags);
    HeadInnerTagged(t);
    FirstThead(a, HeadInner(t), w);
  }

  /** The labels `addTableDataLabels` reads from a table of the layout are its header texts, trimmed. */
  lemma HeadersOf(t: Table)
    requires Shaped(t)
    ensures Headers(TableText(t)) == HeadLabels(t.heads)
  {
    TheadOf(t);
    HeadInnerFound(t);
    HeadsLabels(t.heads);
  }

  // ------------------------------------------------------------- table

  lemma BodyInnerTagged(t: Table)
    requires Shaped(t)
    ensures Tagged(BodyInner(t), BodyTags)
  {
    RowsTagged(t.rows);
    TaggedText(t.bodyEnd, BodyTags);
    TaggedAppend(Rows(t.rows), t.bodyEnd, BodyTags);
  }

  lemma FrontTagged(t: Table)
    requires Shaped(t)
    ensures Tagged(TableFront(t), FrontTags)
  {
    HeadInnerTagged(t);
    TaggedWider(HeadInner(t), HeadTags, FrontTags);
    TaggedTag("<thead>", FrontTags);
    TaggedTag("</thead>", FrontTags);
    TaggedAppend(HeadInner(t), "</thead>", FrontTags);
    TaggedAppend("<thead>", HeadInner(t) + "</thead>", FrontTags);
    TaggedText(t.between, FrontTags);
    TaggedAppend(HeadBlock(t), t.between, FrontTags);
    TaggedText(t.open, FrontTags);
    TaggedAppend(t.open, HeadBlock(t) + t.between, FrontTags);
    TaggedTag("<table>", FrontTags);
    TaggedAppend("<table>", t.open + (HeadBlock(t) + t.between), FrontTags);
  }

  lemma FrontTagsForeign()
    ensures Foreign(FrontTags, "<tbody")
  {
    HeadDiffers("<table>", "<tbody", 2);
    HeadDiffers("<thead>", "<tbody", 2);
    HeadDiffers("</thead>", "<tbody", 1);
    HeadDiffers("<tr>", "<tbody", 2);
    HeadDiffers("</tr>", "<tbody", 1);
    HeadDiffers("<th>", "<tbody", 2);
    HeadDiffers("</th>", "<tbody", 1);
  }

  /** A table of the layout cut before and after its body. */
  lemma TableSplit(t: Table)
    ensures TableText(t) == TableFront(t) + (BodyText(t) + TableBack(t))
  {
    var hb, bt, y := HeadBlock(t), BodyText(t), BodyText(t) + TableBack(t);
    calc {
      TableText(t);
      "<table>" + ((t.open + (hb + (t.between + (bt + t.close)))) + "</table>");
      { Assoc(t.open, hb + (t.between + (bt + t.close)), "</table>");
        Assoc(hb, t.between + (bt + t.close), "</table>");
        Assoc(t.between, bt + t.close, "</table>");
        Assoc(bt, t.close, "</table>"); }
      "<table>" + (t.open + (hb + (t.between + y)));
      { Assoc(hb, t.between, y); Assoc(t.open, hb + t.between, y); }
      "<table>" + ((t.open + (hb + t.between)) + y);
      { Assoc("<table>", t.open + (hb + t.between), y); }
      TableFront(t) + y;
    }
  }

  /** The body pattern reads a body whole, with what it holds as the group. */
  lemma BodyBlockMatch(x: string, w: string)
    requires Tagged(x, BodyTags)
    ensures var bt := "<tbody>" + (x + "</tbody>");
      Match(false, BodyPattern.pieces, bt + w, 0) == Some(Hit(|bt|, [7, 7 + |x|]))
  {
    BodyTagsForeign();
    ElementWhole("<tbody", "<tbody>", AnyRune, "</tbody>", x, w, BodyTags);
  }

  /** What follows the body of a table holds no body. */
  lemma TableCloseFree(e: string)
    requires Plain(e)
    ensures forall j :: 0 <= j < |e + "</table>"| ==> Match(false, BodyPattern.pieces, e + "</table>", j).None?
  {
    var tags := {"</table>"};
    TaggedText(e, tags);
    TaggedTag("</table>", tags);
    TaggedAppend(e, "</table>", tags);
    HeadDiffers("</table>", "<tbody", 1);
    assert e + "</table>" + "" == e + "</table>";
    TaggedNoMatch(BodyPattern, e + "</table>", "", tags);
  }

  /** A body and the end of its table: the body is labelled, the end kept. */
  lemma BodyThenBack(hs: seq<string>, x: string, e: string)
    requires Tagged(x, BodyTags) && Plain(e)
    ensures var bt := "<tbody>" + (x + "</tbody>");
      ReplaceFrom(BodyPattern, bt + (e + "</table>"), 0, 0, BodyLabeller(hs)) == LabelBody(hs, bt) + (e + "</table>")
  {
    var bt, back := "<tbody>" + (x + "</tbody>"), e + "</table>";
    BodyBlockMatch(x, back);
    TableCloseFree(e);
    ReplaceHeadThen(BodyPattern, bt, back, 0, BodyLabeller(hs), [7, 7 + |x|]);
  }

  /** In a table of the layout, the body pattern finds its one body. */
  lemma BodyReplace(hs: seq<string>, t: Table)
    requires Shaped(t)
    ensures ReplaceFrom(BodyPattern, TableText(t), 0, 0, BodyLabeller(hs))
      == TableFront(t) + (LabelBody(hs, BodyText(t)) + TableBack(t))
  {
    TableSplit(t);
    FrontTagged(t);
    FrontTagsForeign();
    TaggedSkip(BodyPattern, TableFront(t), BodyText(t) + TableBack(t), FrontTags, 0, BodyLabeller(hs));
    BodyInnerTagged(t);
    BodyThenBack(hs, BodyInner(t), t.close);
  }

  lemma {:induction false} UnlabelledCells(cs: seq<Cell>, k: nat)
    ensures LabelledCells([], cs, k) == Cells(cs)
    decreases |cs|
  {
    if |cs| > 0 {
      UnlabelledCells(cs[1..], k + 1);
    }
  }

  lemma {:induction false} UnlabelledRows(rs: seq<Row>)
    ensures LabelledRows([], rs) == Rows(rs)
    decreases |rs|
  {
    if |rs| > 0 {
      UnlabelledCells(rs[0].cells, 0);
      Assoc(Cells(rs[0].cells), rs[0].end, "</tr>");
      UnlabelledRows(rs[1..]);
    }
  }

  /** A table whose header row has no cells is its own labelling: `addTableDataLabels` then leaves it alone. */
  lemma Unlabelled(t: Table)
    requires |t.heads| == 0
    ensures LabelledTableText(t) == TableText(t)
  {
    UnlabelledRows(t.rows);
    Assoc(Rows(t.rows), t.bodyEnd, "</tbody>");
    TableSplit(t);
  }

  /** The program's table labelling agrees with the reference on a table of the layout. */
  lemma TableLabelled(t: Table)
    requires Shaped(t)
    ensures LabelTable(TableText(t)) == LabelledTableText(t)
  {
    HeadersOf(t);
    var hs := HeadLabels(t.heads);
    if |t.heads| > 0 {
      BodyReplace(hs, t);
      BodyLabelled(hs, t);
    } else {
      Unlabelled(t);
    }
  }

  // ---------------------------------------------------------- document

  lemma InnerTagged(t: Table)
    requires Shaped(t)
    ensures Tagged(TableInner(t), InnerTags)
  {
    HeadInnerTagged(t);
    TaggedWider(HeadInner(t), HeadTags, InnerTags);
    TaggedTag("<thead>", InnerTags);
    TaggedTag("</thead>", InnerTags);
    TaggedAppend(HeadInner(t), "</thead>", InnerTags);
    TaggedAppend("<thead>", HeadInner(t) + "</thead>", InnerTags);
    BodyInnerTagged(t);
    TaggedWider(BodyInner(t), BodyTags, InnerTags);
    TaggedTag("<tbody>", InnerTags);
    TaggedTag("</tbody>", InnerTags);
    TaggedAppend(BodyInner(t), "</tbody>", InnerTags);
    TaggedAppend("<tbody>", BodyInner(t) + "</tbody>", InnerTags);
    TaggedText(t.close, InnerTags);
    TaggedAppend(BodyText(t), t.close, InnerTags);
    TaggedText(t.between, InnerTags);
    TaggedAppend(t.between, BodyText(t) + t.close, InnerTags);
    TaggedAppend(HeadBlock(t), t.between + (BodyText(t) + t.close), InnerTags);
    TaggedText(t.open, InnerTags);
    TaggedAppend(t.open, HeadBlock(t) + (t.between + (BodyText(t) + t.close)), InnerTags);
  }

  lemma InnerTagsForeign()
    ensures Foreign(InnerTags, "</table>")
  {
    HeadDiffers("<thead>", "</table>", 1);
    HeadDiffers("</thead>", "</table>", 3);
    HeadDiffers("<tbody>", "</table>", 1);
    HeadDiffers("</tbody>", "</table>", 3);
    HeadDiffers("<tr>", "</table>", 1);
    HeadDiffers("</tr>", "</table>", 3);
    HeadDiffers("<th>", "</table>", 1);
    HeadDiffers("</th>", "</table>", 3);
    HeadDiffers("<td", "</table>", 1);
    HeadDiffers("</td>", "</table>", 3);
  }

  /** The table pattern reads a table whole, with what it holds as the group. */
  lemma TableBlockMatch(x: string, w: string)
    requires Tagged(x, InnerTags)
    ensures var tt := "<table>" + (x + "</table>");
      Match(false, TablePattern.pieces, tt + w, 0) == Some(Hit(|tt|, [7, 7 + |x|]))
  {
    InnerTagsForeign();
    ElementWhole("<table", "<table>", AnyRune, "</table>", x, w, InnerTags);
  }

  /** A table of a document and the text before it. */
  datatype Part = Part(gap: string, table: Table)

  /** A document: tables of the layout, each after its gap, then a tail. */
  function Document(ps: seq<Part>, tail: string): string
    decreases |ps|
  {
    if |ps| == 0 then tail else ps[0].gap + (TableText(ps[0].table) + Document(ps[1..], tail))
  }

  /** The document with each of its tables labelled. */
  function LabelledDocument(ps: seq<Part>, tail: string): string
    decreases |ps|
  {
    if |ps| == 0 then tail else ps[0].gap + (LabelledTableText(ps[0].table) + LabelledDocument(ps[1..], tail))
  }

  function TableMarks(t: Table): seq<nat> {
    [7, 7 + |TableInner(t)|]
  }

  /** The tables of a document as the table pattern cuts them. */
  function TableSegments(ps: seq<Part>): (segs: seq<Segment>)
    ensures |segs| == |ps|
    decreases |ps|
  {
    if |ps| == 0 then [] else [Segment(ps[0].gap, TableText(ps[0].table), TableMarks(ps[0].table))] + TableSegments(ps[1..])
  }

  /**
   * The documents the layout theorem covers: tables of the layout, and
   * gaps and a tail whose every tag is one of `tags`, none of which can be
   * read as `<table`.
   */
  ghost predicate Laid(ps: seq<Part>, tail: string, tags: set<string>) {
    && Foreign(tags, "<table") && Tagged(tail, tags)
    && forall i :: 0 <= i < |ps| ==> Shaped(ps[i].table) && Tagged(ps[i].gap, tags)
  }

  lemma {:induction false} DocJoin(ps: seq<Part>, u: string)
    ensures JoinThen(TableSegments(ps), u) == Document(ps, u)
    decreases |ps|
  {
    if |ps| > 0 {
      var segs := TableSegments(ps);
      assert segs[0].gap == ps[0].gap && segs[0].text == TableText(ps[0].table) && segs[1..] == TableSegments(ps[1..]);
      DocJoin(ps[1..], u);
    }
  }

  /** A table of the layout after a gap tagged with tags foreign to `<table`. */
  lemma TablePart(p: Part, rest: string, tags: set<string>)
    requires Shaped(p.table) && Tagged(p.gap, tags) && Foreign(tags, "<table")
    ensures forall j :: 0 <= j < |p.gap| ==> Match(false, TablePattern.pieces, p.gap + (TableText(p.table) + rest), j).None?
    ensures Match(false, TablePattern.pieces, TableText(p.table) + rest, 0) == Some(Hit(|TableText(p.table)|, TableMarks(p.table)))
    ensures forall i :: 0 <= i < |TableMarks(p.table)| ==> TableMarks(p.table)[i] <= |TableText(p.table)|
  {
    TaggedNoMatch(TablePattern, p.gap, TableText(p.table) + rest, tags);
    TableWhole(p.table, rest);
    MarksWithin(p.table);
  }

  lemma TableWhole(t: Table, rest: string)
    requires Shaped(t)
    ensures Match(false, TablePattern.pieces, TableText(t) + rest, 0) == Some(Hit(|TableText(t)|, TableMarks(t)))
  {
    InnerTagged(t);
    TableBlockMatch(TableInner(t), rest);
  }

  lemma MarksWithin(t: Table)
    ensures forall i :: 0 <= i < |TableMarks(t)| ==> TableMarks(t)[i] <= |TableText(t)|
  {
  }

  lemma LaidRest(ps: seq<Part>, u: string, tags: set<string>)
    requires Laid(ps, u, tags) && |ps| > 0
    ensures Shaped(ps[0].table) && Tagged(ps[0].gap, tags) && Laid(ps[1..], u, tags)
  {
    assert forall i :: 0 <= i < |ps[1..]| ==> ps[1..][i] == ps[i + 1];
  }

  lemma {:induction false} DocTile(ps: seq<Part>, u: string, tags: set<string>)
    requires Laid(ps, u, tags)
    ensures Tiles(TablePattern, TableSegments(ps), u)
    decreases |ps|
  {
    if |ps| > 0 {
      var t, more := ps[0].table, TableSegments(ps[1..]);
      LaidRest(ps, u, tags);
      TablePart(ps[0], JoinThen(more, u), tags);
      DocTile(ps[1..], u, tags);
      TilesCons(TablePattern, Segment(ps[0].gap, TableText(t), TableMarks(t)), more, u);
    }
  }

  lemma {:induction false} DocReplaced(ps: seq<Part>, k: nat, u: string, tags: set<string>)
    requires Laid(ps, u, tags)
    ensures Replaced(TableSegments(ps), k, TableLabeller) + u == LabelledDocument(ps, u)
    decreases |ps|
  {
    if |ps| > 0 {
      var segs, t := TableSegments(ps), ps[0].table;
      assert segs[0] == Segment(ps[0].gap, TableText(t), TableMarks(t)) && segs[1..] == TableSegments(ps[1..]);
      LaidRest(ps, u, tags);
      TableLabelled(t);
      var r := Replaced(segs[1..], k + 1, TableLabeller);
      DocReplaced(ps[1..], k + 1, u, tags);
      Assoc(LabelledTableText(t), r, u);
      Assoc(ps[0].gap, LabelledTableText(t) + r, u);
    }
  }

  lemma DocReplace(ps: seq<Part>, u: string, tags: set<string>)
    requires Laid(ps, u, tags)
    ensures ReplaceFrom(TablePattern, JoinThen(TableSegments(ps), u), 0, 0, TableLabeller)
      == Replaced(TableSegments(ps), 0, TableLabeller) + u
  {
    DocTile(ps, u, tags);
    assert u + "" == u;
    TaggedNoMatch(TablePattern, u, "", tags);
    ReplaceSegmentsThen(TablePattern, TableSegments(ps), u, 0, TableLabeller);
  }

  /**
   * `addTableDataLabels` on a document of the layout: every table is
   * labelled as the reference says (the `k`th cell of every body row gets
   * the `k`th header text, trimmed; cells past the last header, and tables
   * without header cells, are left alone), and the text between the tables
   * is kept.
   */
  lemma AddTableDataLabelsLayout(ps: seq<Part>, tail: string, tags: set<string>)
    requires Laid(ps, tail, tags)
    ensures AddTableDataLabels(Document(ps, tail)) == LabelledDocument(ps, tail)
  {
    DocJoin(ps, tail);
    DocReplace(ps, tail, tags);
    DocReplaced(ps, 0, tail, tags);
  }

  // ------------------------------------------------------ other inputs

  /** A table without `<thead` gives no labels and is left as it is. */
  lemma NoTheadUnchanged(table: string)
    requires !Contains(table, "<thead")
    ensures Headers(table) == [] && LabelTable(table) == table
  {
    AbsentLiteralNoMatch(HeadPattern, table, 0);
  }

  /** A text without `<table` is left as it is. */
  lemma NoTableUnchanged(html: string)
    requires !Contains(html, "<table")
    ensures AddTableDataLabels(html) == html
  {
    AbsentLiteralNoMatch(TablePattern, html, 0);
    NoMatchIdentity(TablePattern, html, TableLabeller);
  }

  // ------------------------------------------------------------ labels

  /** The attribute text a labelled cell carries, as `TestAddTableDataLabels` looks for it. */
  function LabelText(name: string): string {
    "data-label=\"" + name + "\""
  }

  /** `p` inside the middle part of a text is inside the text. */
  lemma Inside(u: string, x: string, v: string, p: string)
    requires Contains(x, p)
    ensures Contains(u + (x + v), p)
  {
    Assoc(u, x, v);
    ContainsInFactor(u, x, v, p);
  }

  /** `p` inside the last part of a text is inside the text. */
  lemma After(u: string, x: string, v: string, p: string)
    requires Contains(v, p)
    ensures Contains(u + (x + v), p)
  {
    Assoc(u, x, v);
    ContainsInFactor(u + x, v, "", p);
    assert u + x + v + "" == u + x + v;
  }

  lemma CellShows(hs: seq<string>, k: nat, c: Cell)
    requires k < |hs|
    ensures Contains(LabelledCell(hs, k, c), LabelText(hs[k]))
  {
    var d, p := DataLabel(hs[k]), LabelText(hs[k]);
    assert d[1..] == p;
    ContainsAt(d, p, 1);
    var u, v := "<td" + c.attrs, ">" + c.text + "</td>";
    assert LabelledCell(hs, k, c) == u + d + v;
    ContainsInFactor(u, d, v, p);
  }

  lemma {:induction false} CellsShow(hs: seq<string>, cs: seq<Cell>, k: nat, i: nat)
    requires i < |cs| && k + i < |hs|
    ensures Contains(LabelledCells(hs, cs, k), LabelText(hs[k + i]))
    decreases i
  {
    var c, rest := LabelledCell(hs, k, cs[0]), LabelledCells(hs, cs[1..], k + 1);
    assert LabelledCells(hs, cs, k) == cs[0].gap + (c + rest);
    if i == 0 {
      CellShows(hs, k, cs[0]);
      Inside(cs[0].gap, c, rest, LabelText(hs[k]));
    } else {
      CellsShow(hs, cs[1..], k + 1, i - 1);
      After(cs[0].gap, c, rest, LabelText(hs[k + i]));
    }
  }

  /**
   * The `i`th header label shows in a labelled table whose first body row
   * has at least `i + 1` cells: the label `TestAddTableDataLabels` looks for.
   */
  lemma TableShows(t: Table, i: nat)
    requires |t.rows| > 0 && i < |t.heads| && i < |t.rows[0].cells|
    ensures Contains(LabelledTableText(t), LabelText(HeadLabels(t.heads)[i]))
  {
    var hs, r := HeadLabels(t.heads), t.rows[0];
    var p := LabelText(hs[i]);
    CellsShow(hs, r.cells, 0, i);
    Inside("<tr>", LabelledCells(hs, r.cells, 0), r.end + "</tr>", p);
    Inside(r.gap, LabelledRow(hs, r), LabelledRows(hs, t.rows[1..]), p);
    Inside("<tbody>", LabelledRows(hs, t.rows), t.bodyEnd + "</tbody>", p);
    Inside(TableFront(t), LabelledBody(hs, t), TableBack(t), p);
  }

  // ------------------------------------------------------------ sample

  /** The table of `TestAddTableDataLabels`, with its indentation. */
  const SampleTable := Table("\n    ", "\n        ",
    [Head("\n            ", "姓名"), Head("\n            ", "學號")],
    "\n        ", "\n    ", "\n    ",
    [Row("\n        ", [Cell("\n            ", "", "張三"), Cell("\n            ", "", "123456")], "\n        ")],
    "\n    ", "\n")

  /** The labels the sample's header row gives. */
  lemma SampleHeaders()
    ensures HeadLabels(SampleTable.heads) == ["姓名", "學號"]
  {
    assert TrimSpace("姓名") == "姓名" by {
      TrimSpaceSpec("姓名");
    }
    assert TrimSpace("學號") == "學號" by {
      TrimSpaceSpec("學號");
    }
  }
  lemma SampleShaped()
    ensures Shaped(SampleTable)
  {
    var t := SampleTable;
    SampleGaps();
    SampleHeads();
    SampleRow();
    assert forall i :: 0 <= i < |t.rows| ==> RowShaped(t.rows[i]);
  }

  lemma SampleGaps()
    ensures Plain("\n") && Plain("\n    ") && Plain("\n        ")
  {
  }

  lemma SampleHeads()
    ensures forall i :: 0 <= i < |SampleTable.heads| ==> HeadShaped(SampleTable.heads[i])
  {
    assert Plain("\n            ") && Line("姓名") && Line("學號");
  }

  lemma SampleRow()
    ensures RowShaped(SampleTable.rows[0])
  {
    var cs := SampleTable.rows[0].cells;
    SampleGaps();
    assert Plain("\n            ") && Plain("") && Line("張三") && Line("123456");
    assert CellShaped(cs[0]) && CellShaped(cs[1]);
  }

  /**
   * `TestAddTableDataLabels`: the table, after a line
   * break, comes back with its cells labelled, and the result holds
   * `data-label="姓名"` and `data-label="學號"`.
   */
  lemma SampleLabelled()
    ensures var ps := [Part("\n", SampleTable)];
      && AddTableDataLabels(Document(ps, "")) == LabelledDocument(ps, "")
      && Contains(AddTableDataLabels(Document(ps, "")), LabelText("姓名"))
      && Contains(AddTableDataLabels(Document(ps, "")), LabelText("學號"))
  {
    SampleLaid();
    SampleBoth();
  }

  lemma SampleBoth()
    ensures var d := LabelledDocument([Part("\n", SampleTable)], "");
      Contains(d, LabelText("姓名")) && Contains(d, LabelText("學號"))
  {
    SampleShows(0);
    SampleShows(1);
  }

  lemma SampleLaid()
    ensures var ps := [Part("\n", SampleTable)];
      AddTableDataLabels(Document(ps, "")) == LabelledDocument(ps, "")
  {
    var ps := [Part("\n", SampleTable)];
    SampleShaped();
    TaggedText("", {});
    TaggedText("\n", {});
    assert Laid(ps, "", {});
    AddTableDataLabelsLayout(ps, "", {});
  }

  /** The sample's labelled text holds the label of header `i`. */
  lemma SampleShows(i: nat)
    requires i < 2
    ensures Contains(LabelledDocument([Part("\n", SampleTable)], ""), LabelText(["姓名", "學號"][i]))
  {
    SampleHeaders();
    TableShows(SampleTable, i);
    Inside("\n", LabelledTableText(SampleTable), "", LabelText(["姓名", "學號"][i]));
    SampleDocument();
  }

  lemma SampleDocument()
    ensures LabelledDocument([Part("\n", SampleTable)], "") == "\n" + (LabelledTableText(SampleTable) + "")
  {
    assert [Part("\n", SampleTable)][1..] == [];
  }
}
