/** Header clean-up and the required-column check of the production sheet. */
module Schema {
  import opened Wrappers
  import opened Text
  import opened Records

  const RequiredColumns: seq<string> := ["ProdDate", "Product", "NoofBoxes", "RMCons"]
  const ScrapColumn: string := "scrap"
  /** The column `pd.to_datetime` parses. */
  const DateColumn: string := RequiredColumns[0]

  /** The label names two or more columns, so selecting it gives a frame, not a series. */
  predicate Doubled(columns: seq<string>, c: string) {
    exists i, j :: 0 <= i < j < |columns| && columns[i] == c && columns[j] == c
  }

  /**
   * The columns read as a single series once the day is selected, in the
   * order the totals and the grouping read them.
   */
  function SummedColumns(scrapPresent: bool): seq<string> {
    ["NoofBoxes", "RMCons"] + (if scrapPresent then [ScrapColumn] else []) + ["Product"]
  }

  /** The first label of `cs` that names two columns, if any. */
  function FirstDoubled(columns: seq<string>, cs: seq<string>): (r: Option<string>)
    ensures r == None <==> forall k :: 0 <= k < |cs| ==> !Doubled(columns, cs[k])
    ensures r.Some? ==> exists k :: 0 <= k < |cs| && r.value == cs[k] && Doubled(columns, cs[k])
                                    && forall j :: 0 <= j < k ==> !Doubled(columns, cs[j])
  {
    if cs == [] then None
    else if Doubled(columns, cs[0]) then Some(cs[0])
    else
      var r := FirstDoubled(columns, cs[1..]);
      assert forall k :: 1 <= k < |cs| ==> cs[k] == cs[1..][k - 1];
      r
  }

  /** `df.columns.str.strip()`. */
  function StripHeaders(headers: seq<string>): (columns: seq<string>)
    ensures |columns| == |headers|
    ensures forall i :: 0 <= i < |headers| ==> columns[i] == Strip(headers[i])
  {
    seq(|headers|, i requires 0 <= i < |headers| => Strip(headers[i]))
  }

  /**
   * Checks the required columns in their listed order and reports the first
   * one missing; otherwise tells whether the optional scrap column exists.
   */
  method CheckColumns(columns: seq<string>) returns (r: Result<bool, ReportError>)
    ensures r.Err? <==> exists c :: c in RequiredColumns && c !in columns
    ensures r.Err? ==> exists k :: 0 <= k < |RequiredColumns|
                          && r.error == MissingColumn(RequiredColumns[k])
                          && RequiredColumns[k] !in columns
                          && forall j :: 0 <= j < k ==> RequiredColumns[j] in columns
    ensures r.Ok? ==> (r.value <==> ScrapColumn in columns)
  {
    for k := 0 to |RequiredColumns|
      invariant forall j :: 0 <= j < k ==> RequiredColumns[j] in columns
    {
      if RequiredColumns[k] !in columns {
        return Err(MissingColumn(RequiredColumns[k]));
      }
    }
    r := Ok(ScrapColumn in columns);
  }
}
