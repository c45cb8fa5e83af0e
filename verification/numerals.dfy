/**
 * Number-to-text conversions used by the report: plain decimal digits,
 * `format(n, ",")` (thousands grouping), `format(x, ".2f")` and the
 * round-half-even step of that format.
 */
module Numerals {

  predicate IsDigit(c: char) {
    '0' <= c <= '9'
  }

  predicate AllDigits(s: string) {
    forall k :: 0 <= k < |s| ==> IsDigit(s[k])
  }

  function DigitChar(d: nat): (c: char)
    requires d < 10
    ensures IsDigit(c) && c as int - '0' as int == d
  {
    ('0' as int + d) as char
  }

  function DigitValue(c: char): (d: nat)
    requires IsDigit(c)
    ensures d < 10 && DigitChar(d) == c
  {
    c as int - '0' as int
  }

  /** The shortest decimal spelling of `n`, as `str(n)` writes it. */
  function Decimal(n: nat): (s: string)
    ensures |s| >= 1 && AllDigits(s)
    ensures |s| > 1 ==> s[0] != '0'
    ensures n < 10 ==> |s| == 1
    ensures n < 100 ==> |s| <= 2
    ensures n < 1000 ==> |s| <= 3
  {
    if n < 10 then [DigitChar(n)] else Decimal(n / 10) + [DigitChar(n % 10)]
  }

  /** The number a string of digits denotes. */
  function DecimalValue(s: string): nat
    requires AllDigits(s)
  {
    if s == [] then 0 else DecimalValue(s[..|s| - 1]) * 10 + DigitValue(s[|s| - 1])
  }

  lemma {:induction false} DecimalRoundTrip(n: nat)
    ensures DecimalValue(Decimal(n)) == n
  {
    if n >= 10 {
      DecimalRoundTrip(n / 10);
      var s := Decimal(n);
      assert s[..|s| - 1] == Decimal(n / 10);
    }
  }

  /** Writing one more digit after a number of at least one digit. */
  lemma DecimalAppend(q: nat, d: nat)
    requires 1 <= q && d < 10
    ensures Decimal(q * 10 + d) == Decimal(q) + [DigitChar(d)]
  {
    assert (q * 10 + d) / 10 == q && (q * 10 + d) % 10 == d;
  }

  /** The three digits of `k`, zero-padded. */
  function Pad3(k: nat): (s: string)
    requires k < 1000
    ensures |s| == 3 && AllDigits(s)
  {
    [DigitChar(k / 100), DigitChar(k / 10 % 10), DigitChar(k % 10)]
  }

  /** `format(n, ",")` for a non-negative `n`. */
  function GroupDigits(n: nat): (s: string)
    ensures |s| >= 1
  {
    if n < 1000 then Decimal(n) else GroupDigits(n / 1000) + "," + Pad3(n % 1000)
  }

  /**
   * Digits and commas only, with a comma exactly where a full group of three
   * digits starts, counting from the right.
   */
  predicate Grouped(s: string) {
    forall i :: 0 <= i < |s| ==>
      (s[i] == ',' <==> 0 < i && (|s| - i) % 4 == 0) && (s[i] != ',' ==> IsDigit(s[i]))
  }

  /** The grouped spelling is well formed. */
  lemma {:induction false} GroupDigitsShape(n: nat)
    ensures Grouped(GroupDigits(n))
  {
    var s := GroupDigits(n);
    if n < 1000 {
      forall i | 0 <= i < |s|
        ensures s[i] == ',' <==> 0 < i && (|s| - i) % 4 == 0
      {
        assert 1 <= |s| - i <= 3;
      }
    } else {
      GroupDigitsShape(n / 1000);
      GroupedAppend(GroupDigits(n / 1000), Pad3(n % 1000));
    }
  }

  /** A comma and three more digits after a grouped spelling keep it grouped. */
  lemma GroupedAppend(t: string, p: string)
    requires t != [] && Grouped(t) && |p| == 3 && AllDigits(p)
    ensures Grouped(t + "," + p)
  {
    var s := t + "," + p;
    forall i | 0 <= i < |s|
      ensures s[i] == ',' <==> 0 < i && (|s| - i) % 4 == 0
      ensures s[i] != ',' ==> IsDigit(s[i])
    {
      if i < |t| {
        assert s[i] == t[i];
        Mod4Shift(|t| - i);
      } else if i == |t| {
        assert s[i] == ',';
      } else {
        assert 1 <= |s| - i <= 3;
        assert s[i] == p[i - |t| - 1];
      }
    }
  }

  lemma Mod4Shift(a: int)
    ensures (a + 4) % 4 == a % 4
  {
  }

  /** `format(n, ",")`: a minus sign for negative numbers, then the grouped digits. */
  function WithCommas(n: int): string {
    if n < 0 then "-" + GroupDigits(-n) else GroupDigits(n)
  }

  function RemoveCommas(s: string): (r: string)
    ensures ',' !in r
  {
    if s == [] then []
    else RemoveCommas(s[..|s| - 1]) + (if s[|s| - 1] == ',' then [] else [s[|s| - 1]])
  }

  lemma {:induction false} RemoveCommasAppend(a: string, b: string)
    ensures RemoveCommas(a + b) == RemoveCommas(a) + RemoveCommas(b)
  {
    if b != [] {
      var b' := b[..|b| - 1];
      RemoveCommasAppend(a, b');
      assert (a + b)[..|a + b| - 1] == a + b';
      assert b == b' + [b[|b| - 1]];
    } else {
      assert a + b == a;
    }
  }

  lemma {:induction false} RemoveCommasOfDigits(s: string)
    requires AllDigits(s)
    ensures RemoveCommas(s) == s
  {
    if s != [] {
      RemoveCommasOfDigits(s[..|s| - 1]);
    }
  }

  /** Deleting the separators from the grouped spelling gives the plain decimal one. */
  lemma {:induction false} GroupDigitsIsDecimal(n: nat)
    ensures RemoveCommas(GroupDigits(n)) == Decimal(n)
  {
    if n < 1000 {
      RemoveCommasOfDigits(Decimal(n));
    } else {
      var q, r := n / 1000, n % 1000;
      GroupDigitsIsDecimal(q);
      GroupStep(GroupDigits(q), q, r);
      assert q * 1000 + r == n;
    }
  }

  lemma GroupStep(g: string, q: nat, r: nat)
    requires 1 <= q && r < 1000 && RemoveCommas(g) == Decimal(q)
    ensures RemoveCommas(g + "," + Pad3(r)) == Decimal(q * 1000 + r)
  {
    RemoveCommasAppend(g + ",", Pad3(r));
    RemoveCommasAppend(g, ",");
    RemoveCommasOfDigits(Pad3(r));
    assert RemoveCommas(",") == [];
    DecimalThreeMore(q, r);
  }

  /** Writing three more digits, zero-padded, after a number of at least one digit. */
  lemma DecimalThreeMore(q: nat, r: nat)
    requires 1 <= q && r < 1000
    ensures Decimal(q * 1000 + r) == Decimal(q) + Pad3(r)
  {
    var a, b, c := r / 100, r / 10 % 10, r % 10;
    assert r == a * 100 + b * 10 + c;
    var q1 := q * 10 + a;
    var q2 := q1 * 10 + b;
    assert q2 * 10 + c == q * 1000 + r;
    DecimalAppend(q, a);
    DecimalAppend(q1, b);
    DecimalAppend(q2, c);
    var x := Decimal(q);
    assert Pad3(r) == [DigitChar(a), DigitChar(b), DigitChar(c)];
    assert x + [DigitChar(a)] + [DigitChar(b)] + [DigitChar(c)] == x + Pad3(r);
  }

  /** The value of an optionally signed digit string. */
  function SignedValue(s: string): int
    requires s != [] && AllDigits(if s[0] == '-' then s[1..] else s)
  {
    if s[0] == '-' then -(DecimalValue(s[1..]) as int) else DecimalValue(s)
  }

  lemma NegativeDecimal(m: nat)
    ensures var d := "-" + Decimal(m);
            d[0] == '-' && d[1..] == Decimal(m) && AllDigits(d[1..]) && SignedValue(d) == -(m as int)
  {
    DecimalRoundTrip(m);
    assert ("-" + Decimal(m))[1..] == Decimal(m);
  }

  /** Reading back the grouped spelling with its commas deleted gives the number. */
  lemma WithCommasRoundTrip(n: int)
    ensures var d := RemoveCommas(WithCommas(n));
            d != [] && AllDigits(if d[0] == '-' then d[1..] else d) && SignedValue(d) == n
  {
    if n < 0 {
      var m: nat := -n;
      assert WithCommas(n) == "-" + GroupDigits(m);
      GroupDigitsIsDecimal(m);
      RemoveCommasAppend("-", GroupDigits(m));
      assert RemoveCommas("-") == "-";
      assert RemoveCommas(WithCommas(n)) == "-" + Decimal(m);
      NegativeDecimal(m);
    } else {
      GroupDigitsIsDecimal(n);
      DecimalRoundTrip(n);
    }
  }

  /** Two zero-padded digits of `k`. */
  function Pad2(k: nat): (s: string)
    requires k < 100
    ensures |s| == 2 && AllDigits(s)
  {
    [DigitChar(k / 10), DigitChar(k % 10)]
  }

  function Abs(h: int): nat {
    if h < 0 then -h else h
  }

  /** `format(h / 100, ".2f")` for an amount held exactly in hundredths. */
  function Fixed2(h: int): (s: string)
    ensures |s| >= 4 && s[|s| - 3] == '.'
    ensures s[0] == '-' <==> h < 0
  {
    (if h < 0 then "-" else "") + Decimal(Abs(h) / 100) + "." + Pad2(Abs(h) % 100)
  }

  /** Reads back a `.2f` spelling: sign, digits, point, two digits. */
  function Fixed2Value(s: string): int
    requires |s| >= 4 && s[|s| - 3] == '.'
    requires AllDigits(if s[0] == '-' then s[1..|s| - 3] else s[..|s| - 3])
    requires AllDigits(s[|s| - 2..])
  {
    var whole := if s[0] == '-' then s[1..|s| - 3] else s[..|s| - 3];
    var magnitude := DecimalValue(whole) * 100 + DecimalValue(s[|s| - 2..]);
    if s[0] == '-' then -magnitude else magnitude
  }

  lemma Fixed2RoundTrip(h: int)
    ensures var s := Fixed2(h);
            && AllDigits(if s[0] == '-' then s[1..|s| - 3] else s[..|s| - 3])
            && AllDigits(s[|s| - 2..])
            && Fixed2Value(s) == h
  {
    var s := Fixed2(h);
    var sign := if h < 0 then "-" else "";
    var q, r := Abs(h) / 100, Abs(h) % 100;
    assert s == sign + Decimal(q) + "." + Pad2(r);
    assert (if s[0] == '-' then s[1..|s| - 3] else s[..|s| - 3]) == Decimal(q);
    assert s[|s| - 2..] == Pad2(r);
    DecimalRoundTrip(q);
    var p := Pad2(r);
    assert p[..1] == [DigitChar(r / 10)];
    assert p[..1][..0] == [];
    assert DecimalValue(p[..1]) == r / 10;
    assert DecimalValue(p) == (r / 10) * 10 + r % 10;
  }

  /** Rounds to the nearest integer, ties to the even neighbour (as `format` does). */
  function RoundHalfEven(x: real): (k: int)
    ensures -1.0 / 2.0 <= k as real - x <= 1.0 / 2.0
    ensures (k as real - x == 1.0 / 2.0 || x - k as real == 1.0 / 2.0) ==> k % 2 == 0
  {
    var f := x.Floor;
    var d := x - f as real;
    if d < 1.0 / 2.0 then f
    else if d > 1.0 / 2.0 then f + 1
    else if f % 2 == 0 then f
    else f + 1
  }

  /**
   * `format(x, ".2f")` for an exact real `x`: the hundredths rounded half to
   * even, with the sign of `x` kept even when they round to zero (`-0.00`).
   */
  function RealFixed2(x: real): (s: string)
    ensures |s| >= 4 && s[|s| - 3] == '.'
    ensures s[0] == '-' <==> x < 0.0
    ensures AllDigits(if s[0] == '-' then s[1..|s| - 3] else s[..|s| - 3]) && AllDigits(s[|s| - 2..])
    ensures Fixed2Value(s) == RoundHalfEven(x * 100.0)
  {
    var k := RoundHalfEven(x * 100.0);
    Fixed2RoundTrip(k);
    if x < 0.0 && k == 0 then NegativeZero() else Fixed2(k)
  }

  /** The text of a negative value that rounds to zero hundredths. */
  function NegativeZero(): (s: string)
    ensures |s| == 5 && s[0] == '-' && s[2] == '.'
    ensures AllDigits(s[1..2]) && AllDigits(s[3..]) && Fixed2Value(s) == 0
  {
    var s := "-0.00";
    assert s[1..2] == "0" && s[3..] == "00";
    assert DecimalValue("0") == 0 by { assert "0"[..0] == []; }
    assert DecimalValue("00") == 0 by { assert "00"[..1] == "0"; assert "0"[..0] == []; }
    s
  }
}
