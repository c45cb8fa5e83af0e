/** The `To` header: `", ".join([e.strip() for e in email_to.split(",")])`. */
module Recipients {
  import opened Text

  /** The addresses: each comma-separated piece with surrounding whitespace removed. */
  function Entries(emailTo: string): (es: seq<string>)
    ensures |es| == Count(emailTo, ',') + 1
    ensures forall i :: 0 <= i < |es| ==> es[i] == Strip(Split(emailTo, ',')[i])
  {
    var pieces := Split(emailTo, ',');
    seq(|pieces|, i requires 0 <= i < |pieces| => Strip(pieces[i]))
  }

  function ToHeader(emailTo: string): string {
    Join(Entries(emailTo), ", ")
  }

  /** Every entry is trimmed and holds no comma. */
  lemma EntriesClean(emailTo: string)
    ensures forall i :: 0 <= i < |Entries(emailTo)| ==>
              NoEdgeSpace(Entries(emailTo)[i]) && ',' !in Entries(emailTo)[i]
  {
    var pieces := Split(emailTo, ',');
    forall i | 0 <= i < |pieces| ensures ',' !in Strip(pieces[i]) {
      StripIsInfix(pieces[i]);
    }
  }

  /** Joining with ", " is joining with "," after putting a blank in front of every entry but the first. */
  lemma {:induction false} JoinWithBlank(es: seq<string>)
    requires |es| >= 1
    ensures Join(es, ", ") == Join([es[0]] + seq(|es| - 1, i requires 0 <= i < |es| - 1 => " " + es[i + 1]), ",")
  {
    var bl := seq(|es| - 1, i requires 0 <= i < |es| - 1 => " " + es[i + 1]);
    if |es| > 1 {
      var init := es[..|es| - 1];
      JoinWithBlank(init);
      var bl' := seq(|init| - 1, i requires 0 <= i < |init| - 1 => " " + init[i + 1]);
      assert ([es[0]] + bl)[..|es| - 1] == [init[0]] + bl';
      assert ([es[0]] + bl)[|es| - 1] == " " + es[|es| - 1];
      calc {
        Join([es[0]] + bl, ",");
        Join([init[0]] + bl', ",") + "," + " " + es[|es| - 1];
        Join(init, ", ") + ", " + es[|es| - 1];
      }
    }
  }

  /** Splitting entries joined with ", " on commas gives the first entry, then each other entry behind a blank. */
  lemma SplitJoinedEntries(es: seq<string>)
    requires |es| >= 1
    requires forall i :: 0 <= i < |es| ==> ',' !in es[i]
    ensures var pieces := Split(Join(es, ", "), ',');
            |pieces| == |es| && pieces[0] == es[0]
            && forall i :: 1 <= i < |es| ==> pieces[i] == " " + es[i]
  {
    var bl := seq(|es| - 1, i requires 0 <= i < |es| - 1 => " " + es[i + 1]);
    var parts := [es[0]] + bl;
    assert parts[0] == es[0];
    assert forall i :: 1 <= i < |parts| ==> parts[i] == " " + es[i];
    JoinWithBlank(es);
    BlankedCommaFree(es, parts);
    SplitJoin(parts, ',');
  }

  lemma BlankedCommaFree(es: seq<string>, parts: seq<string>)
    requires |parts| == |es| >= 1 && parts[0] == es[0]
    requires forall i :: 1 <= i < |parts| ==> parts[i] == " " + es[i]
    requires forall i :: 0 <= i < |es| ==> ',' !in es[i]
    ensures forall i :: 0 <= i < |parts| ==> ',' !in parts[i]
  {
  }

  /**
   * The header reads back as the same addresses: splitting it on commas and
   * stripping each piece gives the entries again.
   */
  lemma EntriesOfHeader(emailTo: string)
    ensures Entries(ToHeader(emailTo)) == Entries(emailTo)
  {
    var es := Entries(emailTo);
    var pieces := Split(ToHeader(emailTo), ',');
    EntriesClean(emailTo);
    SplitJoinedEntries(es);
    var es2 := Entries(ToHeader(emailTo));
    forall i | 0 <= i < |es| ensures es2[i] == es[i] {
      assert es2[i] == Strip(pieces[i]);
      if i == 0 {
        StripKeepsStripped(es[0]);
      } else {
        StripAfterBlank(es[i]);
      }
    }
  }

  /** Normalising the recipient list twice gives the same header as once. */
  lemma ToHeaderIdempotent(emailTo: string)
    ensures ToHeader(ToHeader(emailTo)) == ToHeader(emailTo)
  {
    EntriesOfHeader(emailTo);
  }
}
