/** Selection of the target day's rows (`df[df["ProdDate"].dt.date == day]`). */
module DayFilter {
  import opened Wrappers
  import opened Records

  /** The row's date parsed and its calendar date is the target one. */
  predicate OnDay(r: Record, target: Date) {
    r.prodDate.Some? && r.prodDate.value.date == target
  }

  /** The rows on the target day, in input order. */
  function SelectDay(rows: seq<Record>, target: Date): (slice: seq<Record>)
    ensures |slice| <= |rows|
    ensures forall r :: r in slice <==> r in rows && OnDay(r, target)
  {
    if rows == [] then []
    else
      var last := rows[|rows| - 1];
      SelectDay(rows[..|rows| - 1], target) + (if OnDay(last, target) then [last] else [])
  }

  /** Selection distributes over concatenation, so it keeps the input order. */
  lemma {:induction false} SelectDayAppend(a: seq<Record>, b: seq<Record>, target: Date)
    ensures SelectDay(a + b, target) == SelectDay(a, target) + SelectDay(b, target)
  {
    if b != [] {
      var b' := b[..|b| - 1];
      SelectDayAppend(a, b', target);
      assert (a + b)[..|a + b| - 1] == a + b';
      assert b == b' + [b[|b| - 1]];
    } else {
      assert a + b == a;
    }
  }

  /** A single row is kept exactly when it is on the target day. */
  lemma SelectDaySingle(r: Record, target: Date)
    ensures SelectDay([r], target) == if OnDay(r, target) then [r] else []
  {
    assert [r][..0] == [];
  }

  /** The target day's slice, or the "no data" error when it is empty. */
  function DaySlice(rows: seq<Record>, target: Date): (r: Result<seq<Record>, ReportError>)
    ensures r.Err? <==> forall i :: 0 <= i < |rows| ==> !OnDay(rows[i], target)
    ensures r.Err? ==> r.error == NoData
    ensures r.Ok? ==> r.value == SelectDay(rows, target) && r.value != []
  {
    var slice := SelectDay(rows, target);
    if slice == [] then
      assert forall i :: 0 <= i < |rows| ==> rows[i] in rows;
      Err(NoData)
    else
      assert slice[0] in slice;
      Ok(slice)
  }
}
