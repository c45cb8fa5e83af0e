/**
 * Whole-day totals and the per-product grouping
 * (`df_day.groupby("Product", as_index=False).agg(...)` and the Boxes/kg column).
 */
module Aggregation {
  import opened Wrappers
  import opened Records

  /** A float Boxes/kg value: finite, or what dividing by a zero RM total gives. */
  datatype Ratio = Finite(value: real) | PosInf | NegInf | NaN

  /** One grouped row. `scrap` is None when the sheet has no scrap column. */
  datatype Group = Group(product: string, boxes: int, rmCons: int, scrap: Option<int>, boxesPerKg: Ratio)

  /** Whole-day totals. */
  datatype Totals = Totals(boxes: int, rmCons: int, scrap: int)

  /** Boxes per kilogram for `boxes` over `rm` hundredths of a kilogram, with float division-by-zero results. */
  function YieldOf(boxes: int, rm: int): (q: Ratio)
    ensures q.Finite? <==> rm != 0
    ensures q.Finite? ==> q.value * (rm as real) == (boxes as real) * 100.0
    ensures q == PosInf <==> rm == 0 && boxes > 0
    ensures q == NegInf <==> rm == 0 && boxes < 0
    ensures q == NaN <==> rm == 0 && boxes == 0
  {
    if rm != 0 then Finite((boxes as real) * 100.0 / (rm as real))
    else if boxes > 0 then PosInf
    else if boxes < 0 then NegInf
    else NaN
  }

  /** Sum of a column over all rows. */
  function Total(rows: seq<Record>, m: Measure): int {
    if rows == [] then 0 else Total(rows[..|rows| - 1], m) + Amount(rows[|rows| - 1], m)
  }

  /** Sum of a column over the rows whose Product cell is `key`. */
  function TotalOf(rows: seq<Record>, key: Option<string>, m: Measure): int {
    if rows == [] then 0
    else
      var last := rows[|rows| - 1];
      TotalOf(rows[..|rows| - 1], key, m) + (if last.product == key then Amount(last, m) else 0)
  }

  predicate Distinct<T(==)>(s: seq<T>) {
    forall i, j :: 0 <= i < j < |s| ==> s[i] != s[j]
  }

  /** The distinct non-blank products, in order of first appearance. */
  function Keys(rows: seq<Record>): (ks: seq<string>)
    ensures Distinct(ks)
    ensures forall p :: p in ks <==> exists i :: 0 <= i < |rows| && rows[i].product == Some(p)
  {
    if rows == [] then []
    else
      var init := rows[..|rows| - 1];
      var ks := Keys(init);
      var last := rows[|rows| - 1];
      assert forall i :: 0 <= i < |init| ==> init[i] == rows[i];
      if last.product.Some? && last.product.value !in ks then ks + [last.product.value] else ks
  }

  /** One group's row: its sums and its Boxes/kg. */
  function MakeGroup(rows: seq<Record>, key: string, scrapPresent: bool): Group {
    var boxes := TotalOf(rows, Some(key), Boxes);
    var rm := TotalOf(rows, Some(key), RawMaterial);
    Group(key, boxes, rm,
          if scrapPresent then Some(TotalOf(rows, Some(key), Scrap)) else None,
          YieldOf(boxes, rm))
  }

  function GroupsFor(rows: seq<Record>, ks: seq<string>, scrapPresent: bool): (gs: seq<Group>)
    ensures |gs| == |ks|
    ensures forall i :: 0 <= i < |ks| ==> gs[i] == MakeGroup(rows, ks[i], scrapPresent)
  {
    if ks == [] then []
    else GroupsFor(rows, ks[..|ks| - 1], scrapPresent) + [MakeGroup(rows, ks[|ks| - 1], scrapPresent)]
  }

  /** The grouped table, one row per distinct non-blank product, before sorting. */
  function GroupBy(rows: seq<Record>, scrapPresent: bool): seq<Group> {
    GroupsFor(rows, Keys(rows), scrapPresent)
  }

  /** `total_punnets`, `total_rm` and `total_scrap` (0 without a scrap column). */
  function DayTotals(rows: seq<Record>, scrapPresent: bool): Totals {
    Totals(Total(rows, Boxes), Total(rows, RawMaterial), if scrapPresent then Total(rows, Scrap) else 0)
  }

  /** A group's value in a column; a group without scrap counts as 0 scrap. */
  function GroupAmount(g: Group, m: Measure): int {
    match m
    case Boxes => g.boxes
    case RawMaterial => g.rmCons
    case Scrap => if g.scrap.Some? then g.scrap.value else 0
  }

  function SumGroups(gs: seq<Group>, m: Measure): int {
    if gs == [] then 0 else SumGroups(gs[..|gs| - 1], m) + GroupAmount(gs[|gs| - 1], m)
  }

  function SumOver(ks: seq<string>, rows: seq<Record>, m: Measure): int {
    if ks == [] then 0 else SumOver(ks[..|ks| - 1], rows, m) + TotalOf(rows, Some(ks[|ks| - 1]), m)
  }

  /** Adding one row to the sheet adds its amount to the one key it has, if that key is listed. */
  lemma {:induction false} SumOverAddRow(ks: seq<string>, rows: seq<Record>, r: Record, m: Measure)
    requires Distinct(ks)
    ensures SumOver(ks, rows + [r], m)
            == SumOver(ks, rows, m) + (if r.product.Some? && r.product.value in ks then Amount(r, m) else 0)
  {
    assert (rows + [r])[..|rows|] == rows;
    if ks != [] {
      var init := ks[..|ks| - 1];
      SumOverAddRow(init, rows, r, m);
      assert ks == init + [ks[|ks| - 1]];
    }
  }

  /** A product that no row carries sums to zero. */
  lemma {:induction false} TotalOfAbsent(rows: seq<Record>, p: string, m: Measure)
    requires forall i :: 0 <= i < |rows| ==> rows[i].product != Some(p)
    ensures TotalOf(rows, Some(p), m) == 0
  {
    if rows != [] {
      TotalOfAbsent(rows[..|rows| - 1], p, m);
    }
  }

  /**
   * Partition of the day: the column total is the sum over the product groups
   * plus the rows with a blank Product, which belong to no group.
   */
  lemma {:induction false} PartitionTotals(rows: seq<Record>, m: Measure)
    ensures Total(rows, m) == SumOver(Keys(rows), rows, m) + TotalOf(rows, None, m)
  {
    if rows != [] {
      var init := rows[..|rows| - 1];
      var r := rows[|rows| - 1];
      assert rows == init + [r];
      PartitionTotals(init, m);
      var ks := Keys(init);
      SumOverAddRow(ks, init, r, m);
      if r.product.Some? && r.product.value !in ks {
        var p := r.product.value;
        assert Keys(rows) == ks + [p];
        assert (ks + [p])[..|ks|] == ks;
        TotalOfAbsent(init, p, m);
      }
    }
  }

  lemma {:induction false} SumGroupsFor(rows: seq<Record>, ks: seq<string>, scrapPresent: bool, m: Measure)
    requires scrapPresent || m != Scrap
    ensures SumGroups(GroupsFor(rows, ks, scrapPresent), m) == SumOver(ks, rows, m)
  {
    if ks != [] {
      SumGroupsFor(rows, ks[..|ks| - 1], scrapPresent, m);
      var gs := GroupsFor(rows, ks, scrapPresent);
      assert gs[..|gs| - 1] == GroupsFor(rows, ks[..|ks| - 1], scrapPresent);
    }
  }

  /**
   * Summing a column over the groups gives the day total of that column,
   * less the rows with a blank Product (scrap only when the column exists).
   */
  lemma GroupSumsMatchDay(rows: seq<Record>, scrapPresent: bool, m: Measure)
    requires scrapPresent || m != Scrap
    ensures SumGroups(GroupBy(rows, scrapPresent), m) + TotalOf(rows, None, m) == Total(rows, m)
  {
    SumGroupsFor(rows, Keys(rows), scrapPresent, m);
    PartitionTotals(rows, m);
  }

  /** Without a scrap column every group and the day total carry zero scrap. */
  lemma NoScrapColumn(rows: seq<Record>)
    ensures DayTotals(rows, false).scrap == 0
    ensures forall g :: g in GroupBy(rows, false) ==> g.scrap == None && GroupAmount(g, Scrap) == 0
  {
  }

  lemma {:induction false} SumGroupsNoScrap(gs: seq<Group>)
    requires forall i :: 0 <= i < |gs| ==> gs[i].scrap == None
    ensures SumGroups(gs, Scrap) == 0
  {
    if gs != [] {
      SumGroupsNoScrap(gs[..|gs| - 1]);
    }
  }

  /**
   * One group per distinct non-blank product, and each group sums exactly its
   * product's rows (scrap too, when the column exists).
   */
  lemma GroupsAreProducts(rows: seq<Record>, scrapPresent: bool)
    ensures var gs := GroupBy(rows, scrapPresent);
            && (forall i, j :: 0 <= i < j < |gs| ==> gs[i].product != gs[j].product)
            && (forall p :: (exists i :: 0 <= i < |gs| && gs[i].product == p)
                        <==> (exists k :: 0 <= k < |rows| && rows[k].product == Some(p)))
            && (forall i :: 0 <= i < |gs| ==>
                  gs[i].boxes == TotalOf(rows, Some(gs[i].product), Boxes)
                  && gs[i].rmCons == TotalOf(rows, Some(gs[i].product), RawMaterial)
                  && gs[i].scrap == (if scrapPresent then Some(TotalOf(rows, Some(gs[i].product), Scrap)) else None)
                  && gs[i].boxesPerKg == YieldOf(gs[i].boxes, gs[i].rmCons))
  {
    var gs := GroupBy(rows, scrapPresent);
    var ks := Keys(rows);
    forall p ensures (exists i :: 0 <= i < |gs| && gs[i].product == p) <==> p in ks {
      if p in ks {
        var i :| 0 <= i < |ks| && ks[i] == p;
        assert gs[i].product == p;
      }
    }
  }

  /** A day with a single record of a named product gives a single group holding that record's values. */
  lemma SingleRecord(r: Record, scrapPresent: bool)
    requires r.product.Some?
    ensures GroupBy([r], scrapPresent)
            == [Group(r.product.value, r.boxes, r.rmCons,
                      if scrapPresent then Some(r.scrap) else None,
                      YieldOf(r.boxes, r.rmCons))]
  {
    assert [r][..0] == [];
    var p := r.product.value;
    assert Keys([r]) == [p];
    assert TotalOf([r], Some(p), Boxes) == r.boxes;
    assert TotalOf([r], Some(p), RawMaterial) == r.rmCons;
    assert TotalOf([r], Some(p), Scrap) == r.scrap;
    assert GroupBy([r], scrapPresent) == [MakeGroup([r], p, scrapPresent)];
  }
}
