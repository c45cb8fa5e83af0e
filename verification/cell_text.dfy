/**
 * The text of each value cell of a grouped row, shared by the fixed-width and
 * the HTML table: `{:,}` for boxes, `{:.2f}` for RM, scrap and Boxes/kg.
 */
module CellText {
  import opened Numerals
  import opened Records
  import opened Aggregation

  /** A cell text a reader can take back out of its padding or line. */
  predicate Solid(s: string) {
    s != [] && forall k :: 0 <= k < |s| ==> s[k] != ' ' && s[k] != '\n'
  }

  function BoxesText(g: Group): string {
    WithCommas(g.boxes)
  }

  function RmText(g: Group): string {
    Fixed2(g.rmCons)
  }

  /** `row["scrap"] if scrap_present else 0`: a group without scrap shows 0.00. */
  function ScrapText(g: Group): string {
    Fixed2(GroupAmount(g, Scrap))
  }

  /** `format(x, ".2f")` of a float Boxes/kg value, infinities and NaN included. */
  function RatioText(q: Ratio): string {
    match q
    case Finite(v) => RealFixed2(v)
    case PosInf => "inf"
    case NegInf => "-inf"
    case NaN => "nan"
  }

  lemma WithCommasSolid(n: int)
    ensures Solid(WithCommas(n))
  {
    var a := if n < 0 then -n else n;
    GroupDigitsShape(a);
    var s := GroupDigits(a);
    assert forall k :: 0 <= k < |s| ==> s[k] == ',' || IsDigit(s[k]);
  }

  lemma Fixed2Solid(h: int)
    ensures Solid(Fixed2(h))
  {
    var sign := if h < 0 then "-" else "";
    var d := Decimal(Abs(h) / 100);
    var p := Pad2(Abs(h) % 100);
    var s := sign + d + "." + p;
    assert Fixed2(h) == s;
    forall k | 0 <= k < |s| ensures s[k] != ' ' && s[k] != '\n' {
      if k < |sign| {
      } else if k < |sign| + |d| {
        assert s[k] == d[k - |sign|];
      } else if k == |sign| + |d| {
      } else {
        assert s[k] == p[k - |sign| - |d| - 1];
      }
    }
  }

  lemma RealFixed2Solid(x: real)
    ensures Solid(RealFixed2(x))
  {
    var s := RealFixed2(x);
    var whole := if s[0] == '-' then s[1..|s| - 3] else s[..|s| - 3];
    var start := if s[0] == '-' then 1 else 0;
    forall k | 0 <= k < |s| ensures s[k] != ' ' && s[k] != '\n' {
      if k < start {
      } else if k < |s| - 3 {
        assert s[k] == whole[k - start];
      } else if k > |s| - 3 {
        assert s[k] == s[|s| - 2..][k - (|s| - 2)];
      }
    }
  }

  /** Every value cell is non-empty and has neither blanks nor line breaks. */
  lemma CellsSolid(g: Group)
    ensures Solid(BoxesText(g)) && Solid(RmText(g)) && Solid(ScrapText(g)) && Solid(RatioText(g.boxesPerKg))
  {
    WithCommasSolid(g.boxes);
    Fixed2Solid(g.rmCons);
    Fixed2Solid(GroupAmount(g, Scrap));
    if g.boxesPerKg.Finite? {
      RealFixed2Solid(g.boxesPerKg.value);
    }
  }

  /** Without a scrap column every group's scrap cell reads `0.00`. */
  lemma NoScrapCells(rows: seq<Record>)
    ensures forall g :: g in GroupBy(rows, false) ==> ScrapText(g) == "0.00"
  {
    NoScrapColumn(rows);
    assert Decimal(0) == "0" && Pad2(0) == "00";
  }
}
