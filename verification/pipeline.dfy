/**
 * The report computation from the cleaned sheet to the two renderings of the
 * product table, in the order the script runs it.
 */
module Pipeline {
  import opened Wrappers
  import opened Records
  import opened Schema
  import opened DayFilter
  import opened Aggregation
  import opened Ordering
  import opened Efficiency
  import opened Text
  import opened TextTable
  import opened HtmlTable

  /** Everything the message bodies interpolate that the core computes. */
  datatype Report = Report(
    scrapPresent: bool,
    totals: Totals,
    grouped: seq<Group>,
    productTable: string,
    htmlRows: string,
    averageYield: Ratio)

  /** Sorting the grouped frame keeps its groups and orders them by boxes. */
  lemma SortedGroups(slice: seq<Record>, scrapPresent: bool)
    ensures var gs := SortByBoxes(GroupBy(slice, scrapPresent));
            && multiset(gs) == multiset(GroupBy(slice, scrapPresent))
            && NonIncreasing(gs)
            && ProductsDistinct(gs)
            && (forall p :: HasProduct(gs, p)
                            <==> exists k :: 0 <= k < |slice| && slice[k].product == Some(p))
  {
    var unsorted := GroupBy(slice, scrapPresent);
    var gs := SortByBoxes(unsorted);
    SortedPermutation(unsorted);
    GroupedProducts(slice, scrapPresent);
    SortKeepsProductsDistinct(unsorted);
    forall p ensures HasProduct(gs, p) <==> HasProduct(unsorted, p) {
      PermutationKeepsProducts(gs, unsorted, p);
    }
  }

  lemma GroupedProducts(slice: seq<Record>, scrapPresent: bool)
    ensures ProductsDistinct(GroupBy(slice, scrapPresent))
    ensures forall p :: HasProduct(GroupBy(slice, scrapPresent), p)
                        <==> exists k :: 0 <= k < |slice| && slice[k].product == Some(p)
  {
    GroupsAreProducts(slice, scrapPresent);
  }

  /** The day totals split into the sorted groups' sums and the rows without a product. */
  lemma SortedGroupSums(slice: seq<Record>, scrapPresent: bool)
    ensures var gs := SortByBoxes(GroupBy(slice, scrapPresent));
            var totals := DayTotals(slice, scrapPresent);
            && totals.boxes == SumGroups(gs, Boxes) + TotalOf(slice, None, Boxes)
            && totals.rmCons == SumGroups(gs, RawMaterial) + TotalOf(slice, None, RawMaterial)
            && (scrapPresent ==> totals.scrap == SumGroups(gs, Scrap) + TotalOf(slice, None, Scrap))
            && (!scrapPresent ==> totals.scrap == 0 && SumGroups(gs, Scrap) == 0)
  {
    var unsorted := GroupBy(slice, scrapPresent);
    var gs := SortByBoxes(unsorted);
    SortedPermutation(unsorted);
    SumGroupsPermutation(gs, unsorted, Boxes);
    SumGroupsPermutation(gs, unsorted, RawMaterial);
    SumGroupsPermutation(gs, unsorted, Scrap);
    GroupSumsMatchDay(slice, scrapPresent, Boxes);
    GroupSumsMatchDay(slice, scrapPresent, RawMaterial);
    if scrapPresent {
      GroupSumsMatchDay(slice, scrapPresent, Scrap);
    } else {
      NoScrapColumn(slice);
      SumGroupsNoScrap(unsorted);
    }
  }

  method ProductionSummary(headers: seq<string>, rows: seq<Record>, target: Date)
    returns (res: Result<Report, ReportError>)
    ensures (res.Err? && res.error.MissingColumn?)
            <==> exists c :: c in RequiredColumns && c !in StripHeaders(headers)
    ensures (res.Err? && res.error.MissingColumn?) ==>
              exists k :: 0 <= k < |RequiredColumns|
                && res.error.column == RequiredColumns[k]
                && RequiredColumns[k] !in StripHeaders(headers)
                && forall j :: 0 <= j < k ==> RequiredColumns[j] in StripHeaders(headers)
    ensures (res.Err? && res.error == NoData)
            <==> (forall c :: c in RequiredColumns ==> c in StripHeaders(headers))
                 && !Doubled(StripHeaders(headers), DateColumn)
                 && forall i :: 0 <= i < |rows| ==> !OnDay(rows[i], target)
    ensures (res.Err? && res.error.DuplicateColumn?)
            <==> (forall c :: c in RequiredColumns ==> c in StripHeaders(headers))
                 && (|| Doubled(StripHeaders(headers), DateColumn)
                     || ((exists i :: 0 <= i < |rows| && OnDay(rows[i], target))
                         && exists c :: c in SummedColumns(ScrapColumn in StripHeaders(headers))
                                        && Doubled(StripHeaders(headers), c)))
    ensures (res.Err? && res.error.DuplicateColumn?) ==>
              if Doubled(StripHeaders(headers), DateColumn) then res.error.column == DateColumn
              else Some(res.error.column) == FirstDoubled(StripHeaders(headers), SummedColumns(ScrapColumn in StripHeaders(headers)))
    ensures res.Ok? ==>
              var r := res.value;
              var slice := SelectDay(rows, target);
              && slice != []
              && !Doubled(StripHeaders(headers), DateColumn)
              && (forall c :: c in SummedColumns(r.scrapPresent) ==> !Doubled(StripHeaders(headers), c))
              && (r.scrapPresent <==> ScrapColumn in StripHeaders(headers))
              && r.totals == DayTotals(slice, r.scrapPresent)
              && multiset(r.grouped) == multiset(GroupBy(slice, r.scrapPresent))
              && NonIncreasing(r.grouped)
              && ProductsDistinct(r.grouped)
              && (forall p :: HasProduct(r.grouped, p)
                              <==> exists k :: 0 <= k < |slice| && slice[k].product == Some(p))
              && r.totals.boxes == SumGroups(r.grouped, Boxes) + TotalOf(slice, None, Boxes)
              && r.totals.rmCons == SumGroups(r.grouped, RawMaterial) + TotalOf(slice, None, RawMaterial)
              && (r.scrapPresent ==> r.totals.scrap == SumGroups(r.grouped, Scrap) + TotalOf(slice, None, Scrap))
              && (!r.scrapPresent ==> r.totals.scrap == 0 && SumGroups(r.grouped, Scrap) == 0)
              && r.productTable == Join(TableLines(r.grouped), "\n")
              && r.htmlRows == HtmlRows(r.grouped)
              && r.averageYield == MeanYield(r.grouped)
  {
    var columns := StripHeaders(headers);
    var schema := CheckColumns(columns);
    if schema.Err? {
      return Err(schema.error);
    }
    var scrapPresent := schema.value;
    if Doubled(columns, DateColumn) {
      return Err(DuplicateColumn(DateColumn));
    }

    var dayRows := SelectDay(rows, target);
    if dayRows == [] {
      forall i | 0 <= i < |rows| ensures !OnDay(rows[i], target) {
        assert rows[i] in rows;
      }
      return Err(NoData);
    }
    assert dayRows[0] in dayRows;
    ghost var w :| 0 <= w < |rows| && rows[w] == dayRows[0];
    var doubled := FirstDoubled(columns, SummedColumns(scrapPresent));
    if doubled.Some? {
      return Err(DuplicateColumn(doubled.value));
    }

    var totals := DayTotals(dayRows, scrapPresent);
    var grouped := GroupBy(dayRows, scrapPresent);
    grouped := SortByBoxes(grouped);
    SortedGroups(dayRows, scrapPresent);
    SortedGroupSums(dayRows, scrapPresent);

    var productTable := BuildProductTable(grouped);
    var htmlRows := BuildHtmlRows(grouped);
    var averageYield := MeanYield(grouped);
    res := Ok(Report(scrapPresent, totals, grouped, productTable, htmlRows, averageYield));
  }
}
