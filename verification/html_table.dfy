/**
 * The `<tr>` rows of the HTML body's table (`html_table_rows`), and how they
 * line up with the fixed-width table's data lines.
 */
module HtmlTable {
  import opened Text
  import opened Numerals
  import opened Aggregation
  import opened CellText
  import opened TextTable

  /** The five cells in column order: the full product name, then the value texts. */
  function HtmlCells(g: Group): seq<string> {
    [g.product, BoxesText(g), RmText(g), ScrapText(g), RatioText(g.boxesPerKg)]
  }

  /** One row exactly as the f-string lays it out, indentation and newlines included. */
  function HtmlRow(g: Group): string {
    var c := HtmlCells(g);
    "\n    <tr>\n        <td>" + c[0]
    + "</td>\n        <td align='right'>" + c[1]
    + "</td>\n        <td align='right'>" + c[2]
    + "</td>\n        <td align='right'>" + c[3]
    + "</td>\n        <td align='right'>" + c[4]
    + "</td>\n    </tr>\n    "
  }

  /** The rows of the groups, in table order. */
  function HtmlRowSeq(gs: seq<Group>): seq<string> {
    MapLines(gs, HtmlRow)
  }

  /** `html_table_rows`: the rows of the groups, concatenated in table order. */
  function HtmlRows(gs: seq<Group>): string {
    Concat(HtmlRowSeq(gs))
  }

  /** Accumulates `html_table_rows` one group at a time. */
  method BuildHtmlRows(grouped: seq<Group>) returns (rows: string)
    ensures rows == HtmlRows(grouped)
  {
    rows := "";
    for i := 0 to |grouped|
      invariant rows == HtmlRows(grouped[..i])
    {
      MapLinesStep(grouped, HtmlRow, i);
      ConcatAppend(HtmlRowSeq(grouped[..i]), [HtmlRow(grouped[i])]);
      assert Concat([HtmlRow(grouped[i])]) == HtmlRow(grouped[i]);
      rows := rows + HtmlRow(grouped[i]);
    }
    assert grouped[..|grouped|] == grouped;
  }

  /** Row `i` of the HTML is group `i`'s row: before it stand exactly the rows of the groups before it. */
  lemma HtmlRowAt(gs: seq<Group>, i: nat)
    requires i < |gs|
    ensures HtmlRows(gs) == HtmlRows(gs[..i]) + HtmlRow(gs[i]) + HtmlRows(gs[i + 1..])
  {
    var before, row, after := HtmlRowSeq(gs[..i]), HtmlRow(gs[i]), HtmlRowSeq(gs[i + 1..]);
    MapLinesSplit(gs, HtmlRow, i);
    ConcatAppend(before + [row], after);
    ConcatAppend(before, [row]);
    assert [row][..0] == [];
  }

  /**
   * The two renderings show the same cells: each padded text cell, with its
   * padding removed, is the HTML cell; the text product cell is the first 33
   * characters of the HTML one, padded to 33.
   */
  lemma CellsAgree(g: Group)
    ensures TextCells(g)[0] == LJust(Take(HtmlCells(g)[0], ProductWidth), ProductWidth)
    ensures forall j :: 1 <= j < 5 ==> TrimLeadingBlanks(TextCells(g)[j]) == HtmlCells(g)[j]
  {
    CellsSolid(g);
    TrimRJust(BoxesText(g), NumberWidth - 1);
    TrimRJust(RmText(g), NumberWidth - 1);
    TrimRJust(ScrapText(g), NumberWidth - 1);
    TrimRJust(RatioText(g.boxesPerKg), NumberWidth - 1);
  }

  /**
   * Both tables iterate the same grouped rows once each: the text table has a
   * data line for each group and the HTML a row for each group, in the same
   * order, built from the same cells.
   */
  lemma SameRowsSameOrder(gs: seq<Group>)
    ensures |TableLines(gs)| == |gs| + 5
    ensures forall i :: 0 <= i < |gs| ==>
              && TableLines(gs)[4 + i] == DataRow(gs[i])
              && HtmlRows(gs) == HtmlRows(gs[..i]) + HtmlRow(gs[i]) + HtmlRows(gs[i + 1..])
              && TextCells(gs[i])[0] == LJust(Take(HtmlCells(gs[i])[0], ProductWidth), ProductWidth)
              && TrimLeadingBlanks(TextCells(gs[i])[1]) == HtmlCells(gs[i])[1] == WithCommas(gs[i].boxes)
  {
    TableShape(gs);
    forall i | 0 <= i < |gs|
      ensures HtmlRows(gs) == HtmlRows(gs[..i]) + HtmlRow(gs[i]) + HtmlRows(gs[i + 1..])
      ensures TextCells(gs[i])[0] == LJust(Take(HtmlCells(gs[i])[0], ProductWidth), ProductWidth)
      ensures TrimLeadingBlanks(TextCells(gs[i])[1]) == HtmlCells(gs[i])[1]
    {
      HtmlRowAt(gs, i);
      CellsAgree(gs[i]);
    }
  }
}
