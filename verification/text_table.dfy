/** The fixed-width "Product-wise Performance" table of the plain-text body. */
module TextTable {
  import opened Text
  import opened Aggregation
  import opened CellText

  const ProductWidth: nat := 33
  /** The width given to the Boxes, RM Used, Scrap and Boxes/kg columns. */
  const NumberWidth: nat := 10

  const Title: string := "\U{1F4CA} Product-wise Performance:"

  function Dashes(n: nat): (r: string)
    ensures |r| == n && forall k :: 0 <= k < n ==> r[k] == '-'
  {
    seq(n, _ => '-')
  }

  /** The `+---+` rule drawn above the header, under it, and at the bottom. */
  const Border: string :=
    "+" + Dashes(ProductWidth) + "+" + Dashes(NumberWidth) + "+" + Dashes(NumberWidth)
    + "+" + Dashes(NumberWidth) + "+" + Dashes(NumberWidth) + "+"

  /** The header uses the full column widths. */
  const HeaderRow: string :=
    "| " + LJust("Product", ProductWidth) + " | " + RJust("Boxes", NumberWidth)
    + " | " + RJust("RM Used", NumberWidth) + " | " + RJust("Scrap", NumberWidth)
    + " | " + RJust("Boxes/kg", NumberWidth) + " |"

  /** `row["Product"][:33]`, left-aligned in 33 characters. */
  function ProductCell(name: string): string {
    LJust(Take(name, ProductWidth), ProductWidth)
  }

  /** The five padded cells of a data row; numbers are right-aligned in `NumberWidth - 1`. */
  function TextCells(g: Group): seq<string> {
    [ ProductCell(g.product),
      RJust(BoxesText(g), NumberWidth - 1),
      RJust(RmText(g), NumberWidth - 1),
      RJust(ScrapText(g), NumberWidth - 1),
      RJust(RatioText(g.boxesPerKg), NumberWidth - 1) ]
  }

  function DataRow(g: Group): string {
    var c := TextCells(g);
    Bar(c[0], c[1], c[2], c[3], c[4])
  }

  /** Five cells between `| ` and ` |`, separated by ` | `. */
  function Bar(c0: string, c1: string, c2: string, c3: string, c4: string): string {
    "| " + c0 + " | " + c1 + " | " + c2 + " | " + c3 + " | " + c4 + " |"
  }

  lemma BarShape(c0: string, c1: string, c2: string, c3: string, c4: string)
    ensures var r := Bar(c0, c1, c2, c3, c4);
            && |r| == 2 + |c0| + 3 + |c1| + 3 + |c2| + 3 + |c3| + 3 + |c4| + 2
            && r[..2] == "| " && r[2..2 + |c0|] == c0
  {
    var r := Bar(c0, c1, c2, c3, c4);
    assert r == "| " + c0 + (" | " + c1 + " | " + c2 + " | " + c3 + " | " + c4 + " |");
  }

  /** One line per group, in the frame's order. */
  function DataRows(gs: seq<Group>): seq<string> {
    MapLines(gs, DataRow)
  }

  /** The `lines` list: title, rule, header, rule, one line per group, rule. */
  function TableLines(gs: seq<Group>): seq<string> {
    Framed(Title, Border, HeaderRow, DataRows(gs))
  }

  function Framed(title: string, rule: string, header: string, body: seq<string>): seq<string> {
    [title, rule, header, rule] + body + [rule]
  }

  /** Builds `product_summary_table` line by line and joins the lines with newlines. */
  method BuildProductTable(grouped: seq<Group>) returns (table: string)
    ensures table == Join(TableLines(grouped), "\n")
  {
    var lines := [Title];
    lines := lines + [Border];
    lines := lines + [HeaderRow];
    lines := lines + [Border];
    for i := 0 to |grouped|
      invariant lines == [Title, Border, HeaderRow, Border] + DataRows(grouped[..i])
    {
      MapLinesStep(grouped, DataRow, i);
      lines := lines + [DataRow(grouped[i])];
    }
    assert grouped[..|grouped|] == grouped;
    lines := lines + [Border];
    table := Join(lines, "\n");
  }

  /** The rule is 79 characters: `+` at the column boundaries, `-` elsewhere. */
  lemma BorderShape()
    ensures |Border| == 79
    ensures forall k :: 0 <= k < |Border| ==>
              (Border[k] == '+' <==> k == 0 || k == 34 || k == 45 || k == 56 || k == 67 || k == 78)
    ensures forall k :: 0 <= k < |Border| && Border[k] != '+' ==> Border[k] == '-'
  {
  }

  /** The header line is 89 characters wide, ten more than the rule. */
  lemma HeaderWidth()
    ensures |HeaderRow| == 89
  {
  }

  /** The product cell is the name's first 33 characters, padded with blanks to exactly 33. */
  lemma ProductCellShape(name: string)
    ensures |ProductCell(name)| == ProductWidth
    ensures var n := if |name| < ProductWidth then |name| else ProductWidth;
            ProductCell(name)[..n] == name[..n]
            && forall k :: n <= k < ProductWidth ==> ProductCell(name)[k] == ' '
  {
    LJustShape(Take(name, ProductWidth), ProductWidth);
  }

  /**
   * A data line starts with the product cell; its numbers are padded to at
   * least 9 and never cut, so the line is 85 characters when they fit and
   * longer otherwise; it never matches the 79-character rule.
   */
  lemma DataRowShape(g: Group)
    ensures DataRow(g)[..2] == "| " && DataRow(g)[2..35] == ProductCell(g.product)
    ensures forall j :: 1 <= j < 5 ==> |TextCells(g)[j]| >= NumberWidth - 1
    ensures |DataRow(g)| == 2 + 33 + 3 + |TextCells(g)[1]| + 3 + |TextCells(g)[2]|
                            + 3 + |TextCells(g)[3]| + 3 + |TextCells(g)[4]| + 2
    ensures |DataRow(g)| >= 85
    ensures (|BoxesText(g)| <= 9 && |RmText(g)| <= 9 && |ScrapText(g)| <= 9
             && |RatioText(g.boxesPerKg)| <= 9) ==> |DataRow(g)| == 85
  {
    PaddedBarShape(g.product, BoxesText(g), RmText(g), ScrapText(g), RatioText(g.boxesPerKg));
  }

  /** `DataRowShape` over the cell texts themselves. */
  lemma PaddedBarShape(name: string, v1: string, v2: string, v3: string, v4: string)
    ensures var c1, c2, c3, c4 := RJust(v1, NumberWidth - 1), RJust(v2, NumberWidth - 1),
                                  RJust(v3, NumberWidth - 1), RJust(v4, NumberWidth - 1);
            var r := Bar(ProductCell(name), c1, c2, c3, c4);
            && r[..2] == "| " && r[2..35] == ProductCell(name)
            && |c1| >= NumberWidth - 1 && |c2| >= NumberWidth - 1
            && |c3| >= NumberWidth - 1 && |c4| >= NumberWidth - 1
            && |r| == 2 + 33 + 3 + |c1| + 3 + |c2| + 3 + |c3| + 3 + |c4| + 2
            && (|v1| <= 9 && |v2| <= 9 && |v3| <= 9 && |v4| <= 9 ==> |r| == 85)
  {
    ProductCellShape(name);
    var c1, c2, c3, c4 := RJust(v1, NumberWidth - 1), RJust(v2, NumberWidth - 1),
                          RJust(v3, NumberWidth - 1), RJust(v4, NumberWidth - 1);
    BarShape(ProductCell(name), c1, c2, c3, c4);
  }

  /** The table has one line per group plus five, with the same rule in all three places. */
  lemma TableShape(gs: seq<Group>)
    ensures var lines := TableLines(gs);
            && |lines| == |gs| + 5
            && lines[0] == Title && lines[2] == HeaderRow
            && lines[1] == Border && lines[3] == Border && lines[|gs| + 4] == Border
            && forall i :: 0 <= i < |gs| ==> lines[4 + i] == DataRow(gs[i])
  {
    MapLinesAt(gs, DataRow);
    FramedShape(Title, Border, HeaderRow, DataRows(gs));
  }

  lemma FramedShape(title: string, rule: string, header: string, body: seq<string>)
    ensures var lines := Framed(title, rule, header, body);
            && |lines| == |body| + 5
            && lines[0] == title && lines[2] == header
            && lines[1] == rule && lines[3] == rule && lines[|body| + 4] == rule
            && forall i :: 0 <= i < |body| ==> lines[4 + i] == body[i]
  {
  }

  lemma RJustHasNoNewline(v: string, w: nat)
    requires '\n' !in v
    ensures '\n' !in RJust(v, w)
  {
    RJustShape(v, w);
    var r := RJust(v, w);
    forall k | 0 <= k < |r| ensures r[k] != '\n' {
      if k >= |r| - |v| {
        assert r[k] == r[|r| - |v|..][k - (|r| - |v|)];
      }
    }
  }

  lemma LJustHasNoNewline(v: string, w: nat)
    requires '\n' !in v
    ensures '\n' !in LJust(v, w)
  {
    LJustShape(v, w);
    var r := LJust(v, w);
    forall k | 0 <= k < |r| ensures r[k] != '\n' {
      if k < |v| {
        assert r[k] == r[..|v|][k];
      }
    }
  }

  lemma ProductCellHasNoNewline(name: string)
    requires '\n' !in name
    ensures '\n' !in ProductCell(name)
  {
    var t := Take(name, ProductWidth);
    assert forall k :: 0 <= k < |t| ==> t[k] == name[k];
    LJustHasNoNewline(t, ProductWidth);
  }

  lemma DataRowHasNoNewline(g: Group)
    requires '\n' !in g.product
    ensures '\n' !in DataRow(g)
  {
    CellsSolid(g);
    ProductCellHasNoNewline(g.product);
    RJustHasNoNewline(BoxesText(g), NumberWidth - 1);
    RJustHasNoNewline(RmText(g), NumberWidth - 1);
    RJustHasNoNewline(ScrapText(g), NumberWidth - 1);
    RJustHasNoNewline(RatioText(g.boxesPerKg), NumberWidth - 1);
  }

  lemma FixedLinesHaveNoNewline()
    ensures '\n' !in Title && '\n' !in Border && '\n' !in HeaderRow
  {
    BorderShape();
    RJustHasNoNewline("Boxes", NumberWidth);
    RJustHasNoNewline("RM Used", NumberWidth);
    RJustHasNoNewline("Scrap", NumberWidth);
    RJustHasNoNewline("Boxes/kg", NumberWidth);
    LJustHasNoNewline("Product", ProductWidth);
  }

  /**
   * When no product name holds a line break, splitting the joined table on
   * newlines gives back exactly its lines: one per group plus five.
   */
  lemma TableLinesRecoverable(gs: seq<Group>)
    requires forall i :: 0 <= i < |gs| ==> '\n' !in gs[i].product
    ensures Split(Join(TableLines(gs), "\n"), '\n') == TableLines(gs)
  {
    var lines := TableLines(gs);
    TableShape(gs);
    FixedLinesHaveNoNewline();
    forall i | 0 <= i < |lines| ensures '\n' !in lines[i] {
      if 4 <= i < |gs| + 4 {
        DataRowHasNoNewline(gs[i - 4]);
      }
    }
    SplitJoin(lines, '\n');
  }
}
