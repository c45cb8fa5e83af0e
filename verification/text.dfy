/**
 * String helpers with Python's meaning: `str.strip()`, `str.split(sep)`,
 * `sep.join(parts)`, slicing `s[:n]` and the `<` / `>` alignment of `format`.
 */
module Text {

  /** The characters Python's `str.isspace()` accepts. */
  const Whitespace: set<char> := {
    '\t', '\n', '\U{B}', '\U{C}', '\r', '\U{1C}', '\U{1D}', '\U{1E}', '\U{1F}', ' ',
    '\U{85}', '\U{A0}', '\U{1680}',
    '\U{2000}', '\U{2001}', '\U{2002}', '\U{2003}', '\U{2004}', '\U{2005}',
    '\U{2006}', '\U{2007}', '\U{2008}', '\U{2009}', '\U{200A}',
    '\U{2028}', '\U{2029}', '\U{202F}', '\U{205F}', '\U{3000}' }

  predicate IsSpace(c: char) {
    c in Whitespace
  }

  predicate AllSpace(s: string) {
    forall k :: 0 <= k < |s| ==> IsSpace(s[k])
  }

  /** Neither the first nor the last character is whitespace. */
  predicate NoEdgeSpace(s: string) {
    s == [] || (!IsSpace(s[0]) && !IsSpace(s[|s| - 1]))
  }

  function LStrip(s: string): (r: string)
    ensures |r| <= |s| && r == s[|s| - |r|..]
    ensures AllSpace(s[..|s| - |r|])
    ensures r == [] || !IsSpace(r[0])
  {
    if s != [] && IsSpace(s[0]) then
      var r := LStrip(s[1..]);
      assert s[..|s| - |r|] == [s[0]] + s[1..][..|s| - 1 - |r|];
      r
    else s
  }

  function RStrip(s: string): (r: string)
    ensures |r| <= |s| && r == s[..|r|]
    ensures AllSpace(s[|r|..])
    ensures r == [] || !IsSpace(r[|r| - 1])
  {
    if s != [] && IsSpace(s[|s| - 1]) then
      var r := RStrip(s[..|s| - 1]);
      assert s[|r|..] == s[..|s| - 1][|r|..] + [s[|s| - 1]];
      r
    else s
  }

  /** `s.strip()`: the infix of `s` left after removing whitespace at both ends. */
  function Strip(s: string): (r: string)
    ensures NoEdgeSpace(r)
    ensures exists i :: 0 <= i <= |s| - |r| && r == s[i..i + |r|]
                        && AllSpace(s[..i]) && AllSpace(s[i + |r|..])
  {
    var t := LStrip(s);
    var r := RStrip(t);
    StripBounds(s, t, r);
    r
  }

  /** Cutting whitespace off the front and then off the back leaves an infix between two blank runs. */
  lemma StripBounds(s: string, t: string, r: string)
    requires |t| <= |s| && t == s[|s| - |t|..] && AllSpace(s[..|s| - |t|])
    requires |r| <= |t| && r == t[..|r|] && AllSpace(t[|r|..])
    ensures var i := |s| - |t|;
            0 <= i <= |s| - |r| && r == s[i..i + |r|] && AllSpace(s[..i]) && AllSpace(s[i + |r|..])
  {
    var i := |s| - |t|;
    assert s[i + |r|..] == t[|r|..];
  }

  /** Every character left by stripping was in the original. */
  lemma StripIsInfix(s: string)
    ensures forall c :: c in Strip(s) ==> c in s
  {
    var t := LStrip(s);
    SuffixChars(s, t);
    PrefixChars(t, RStrip(t));
  }

  lemma SuffixChars(s: string, t: string)
    requires |t| <= |s| && t == s[|s| - |t|..]
    ensures forall c :: c in t ==> c in s
  {
    forall c | c in t ensures c in s {
      var j :| 0 <= j < |t| && t[j] == c;
      assert s[|s| - |t| + j] == c;
    }
  }

  lemma PrefixChars(t: string, r: string)
    requires |r| <= |t| && r == t[..|r|]
    ensures forall c :: c in r ==> c in t
  {
    forall c | c in r ensures c in t {
      var j :| 0 <= j < |r| && r[j] == c;
      assert t[j] == c;
    }
  }

  lemma StripKeepsStripped(s: string)
    requires NoEdgeSpace(s)
    ensures Strip(s) == s
  {
    LStripNoLead(s);
    RStripNoTrail(s);
  }

  /** Stripping a value that has one extra leading blank gives the value back. */
  lemma StripAfterBlank(s: string)
    requires NoEdgeSpace(s)
    ensures Strip(" " + s) == s
  {
    assert (" " + s)[1..] == s;
    assert LStrip(" " + s) == LStrip(s);
    StripKeepsStripped(s);
  }

  lemma LStripNoLead(s: string)
    requires s == [] || !IsSpace(s[0])
    ensures LStrip(s) == s
  {
  }

  lemma RStripNoTrail(s: string)
    requires s == [] || !IsSpace(s[|s| - 1])
    ensures RStrip(s) == s
  {
  }

  function Count(s: string, c: char): (n: nat)
    ensures n <= |s|
  {
    if s == [] then 0 else Count(s[..|s| - 1], c) + (if s[|s| - 1] == c then 1 else 0)
  }

  /** `s.split(sep)` for a one-character separator: the pieces between separators, empty ones included. */
  function Split(s: string, sep: char): (parts: seq<string>)
    ensures |parts| == Count(s, sep) + 1
    ensures forall i :: 0 <= i < |parts| ==> sep !in parts[i]
  {
    if s == [] then [""]
    else
      var ps := Split(s[..|s| - 1], sep);
      var c := s[|s| - 1];
      if c == sep then ps + [""]
      else ps[..|ps| - 1] + [ps[|ps| - 1] + [c]]
  }

  /** `sep.join(parts)`. */
  function Join(parts: seq<string>, sep: string): string {
    if |parts| == 0 then ""
    else if |parts| == 1 then parts[0]
    else Join(parts[..|parts| - 1], sep) + sep + parts[|parts| - 1]
  }

  /** `"".join(parts)`. */
  function Concat(parts: seq<string>): string {
    if parts == [] then "" else Concat(parts[..|parts| - 1]) + parts[|parts| - 1]
  }

  /** `f` applied to each element, in order. */
  function MapLines<T>(xs: seq<T>, f: T -> string): seq<string> {
    if xs == [] then [] else MapLines(xs[..|xs| - 1], f) + [f(xs[|xs| - 1])]
  }

  lemma {:induction false} MapLinesAt<T>(xs: seq<T>, f: T -> string)
    ensures |MapLines(xs, f)| == |xs|
    ensures forall i :: 0 <= i < |xs| ==> MapLines(xs, f)[i] == f(xs[i])
  {
    if xs != [] {
      MapLinesAt(xs[..|xs| - 1], f);
    }
  }

  lemma MapLinesStep<T>(xs: seq<T>, f: T -> string, i: nat)
    requires i < |xs|
    ensures MapLines(xs[..i + 1], f) == MapLines(xs[..i], f) + [f(xs[i])]
  {
    assert xs[..i + 1][..i] == xs[..i];
  }

  /** The lines of a sequence are those before position `i`, its own line, and those after. */
  lemma MapLinesSplit<T>(xs: seq<T>, f: T -> string, i: nat)
    requires i < |xs|
    ensures MapLines(xs, f) == MapLines(xs[..i], f) + [f(xs[i])] + MapLines(xs[i + 1..], f)
  {
    MapLinesAt(xs, f);
    MapLinesAt(xs[..i], f);
    MapLinesAt(xs[i + 1..], f);
    var r := MapLines(xs[..i], f) + [f(xs[i])] + MapLines(xs[i + 1..], f);
    forall k | 0 <= k < |xs| ensures MapLines(xs, f)[k] == r[k] {
      if k < i {
        assert xs[..i][k] == xs[k];
      } else if k > i {
        assert xs[i + 1..][k - i - 1] == xs[k];
      }
    }
  }

  lemma {:induction false} ConcatAppend(a: seq<string>, b: seq<string>)
    ensures Concat(a + b) == Concat(a) + Concat(b)
  {
    if b != [] {
      var b' := b[..|b| - 1];
      ConcatAppend(a, b');
      assert (a + b)[..|a + b| - 1] == a + b';
    } else {
      assert a + b == a;
    }
  }

  lemma {:induction false} JoinSplit(s: string, sep: char)
    ensures Join(Split(s, sep), [sep]) == s
  {
    if s != [] {
      var s', c := s[..|s| - 1], s[|s| - 1];
      var ps := Split(s', sep);
      JoinSplit(s', sep);
      assert s == s' + [c];
      if c == sep {
        JoinEmptyLast(ps, [sep]);
      } else {
        JoinExtendLast(ps, [c], [sep]);
      }
    }
  }

  /** Joining one more, empty, part adds just the separator. */
  lemma JoinEmptyLast(ps: seq<string>, sep: string)
    requires |ps| >= 1
    ensures Join(ps + [""], sep) == Join(ps, sep) + sep
  {
    assert (ps + [""])[..|ps|] == ps;
  }

  /** Extending the last part extends the joined text by the same characters. */
  lemma JoinExtendLast(ps: seq<string>, x: string, sep: string)
    requires |ps| >= 1
    ensures Join(ps[..|ps| - 1] + [ps[|ps| - 1] + x], sep) == Join(ps, sep) + x
  {
    var init := ps[..|ps| - 1];
    var q := init + [ps[|ps| - 1] + x];
    assert q[..|q| - 1] == init;
  }

  /** Appending text that holds no separator extends the last piece only. */
  lemma {:induction false} SplitExtendLast(s: string, t: string, sep: char)
    requires sep !in t
    ensures var ps := Split(s, sep);
            Split(s + t, sep) == ps[..|ps| - 1] + [ps[|ps| - 1] + t]
  {
    if t != [] {
      var t' := t[..|t| - 1];
      SplitExtendLast(s, t', sep);
      var ps := Split(s, sep);
      var qs := Split(s + t', sep);
      assert (s + t)[..|s + t| - 1] == s + t';
      assert t == t' + [t[|t| - 1]];
      assert t[|t| - 1] in t;
      assert qs[..|qs| - 1] == ps[..|ps| - 1];
      assert qs[|qs| - 1] + [t[|t| - 1]] == ps[|ps| - 1] + t;
    } else {
      var ps := Split(s, sep);
      assert s + t == s;
      assert ps[|ps| - 1] + t == ps[|ps| - 1];
      assert ps[..|ps| - 1] + [ps[|ps| - 1]] == ps;
    }
  }

  lemma {:induction false} SplitJoin(parts: seq<string>, sep: char)
    requires |parts| >= 1
    requires forall i :: 0 <= i < |parts| ==> sep !in parts[i]
    ensures Split(Join(parts, [sep]), sep) == parts
  {
    if |parts| == 1 {
      SplitExtendLast("", parts[0], sep);
      assert "" + parts[0] == parts[0];
    } else {
      var init := parts[..|parts| - 1];
      var last := parts[|parts| - 1];
      SplitJoin(init, sep);
      assert parts == init + [last];
      SplitJoinStep(init, last, sep);
    }
  }

  lemma SplitJoinStep(init: seq<string>, last: string, sep: char)
    requires |init| >= 1 && Split(Join(init, [sep]), sep) == init && sep !in last
    ensures Split(Join(init + [last], [sep]), sep) == init + [last]
  {
    var j := Join(init, [sep]);
    assert (init + [last])[..|init|] == init;
    assert Join(init + [last], [sep]) == j + [sep] + last;
    SplitAfterSep(j, sep);
    SplitExtendLast(j + [sep], last, sep);
    assert (init + [""])[..|init|] == init;
    assert "" + last == last;
  }

  /** A trailing separator opens an empty last piece. */
  lemma SplitAfterSep(s: string, sep: char)
    ensures Split(s + [sep], sep) == Split(s, sep) + [""]
  {
    assert (s + [sep])[..|s|] == s;
  }

  /** `s[:n]`. */
  function Take(s: string, n: nat): (r: string)
    ensures |r| == if |s| <= n then |s| else n
    ensures r == s[..|r|]
  {
    if |s| <= n then s else s[..n]
  }

  function Spaces(n: nat): (r: string)
    ensures |r| == n && AllSpace(r)
  {
    seq(n, _ => ' ')
  }

  /** `"{:<w}".format(s)`: left-aligned, padded with blanks to at least `w`, never cut. */
  function LJust(s: string, w: nat): (r: string)
    ensures |r| == if |s| < w then w else |s|
  {
    if |s| < w then s + Spaces(w - |s|) else s
  }

  lemma LJustShape(s: string, w: nat)
    ensures LJust(s, w)[..|s|] == s
    ensures forall k :: |s| <= k < |LJust(s, w)| ==> LJust(s, w)[k] == ' '
  {
  }

  /** `"{:>w}".format(s)`: right-aligned, padded with blanks to at least `w`, never cut. */
  function RJust(s: string, w: nat): (r: string)
    ensures |r| == if |s| < w then w else |s|
  {
    if |s| < w then Spaces(w - |s|) + s else s
  }

  lemma RJustShape(s: string, w: nat)
    ensures RJust(s, w)[|RJust(s, w)| - |s|..] == s
    ensures forall k :: 0 <= k < |RJust(s, w)| - |s| ==> RJust(s, w)[k] == ' '
  {
  }

  /** Removes the blanks a right alignment put in front. */
  function TrimLeadingBlanks(s: string): string {
    if s != [] && s[0] == ' ' then TrimLeadingBlanks(s[1..]) else s
  }

  lemma {:induction false} TrimBlankPrefix(n: nat, s: string)
    requires s == [] || s[0] != ' '
    ensures TrimLeadingBlanks(seq(n, _ => ' ') + s) == s
  {
    if n > 0 {
      var b := seq(n, _ => ' ');
      assert (b + s)[1..] == seq(n - 1, _ => ' ') + s;
      TrimBlankPrefix(n - 1, s);
    } else {
      assert seq(n, _ => ' ') + s == s;
    }
  }

  /** Right alignment loses nothing: trimming the padding gives the value back. */
  lemma TrimRJust(s: string, w: nat)
    requires s == [] || s[0] != ' '
    ensures TrimLeadingBlanks(RJust(s, w)) == s
  {
    if |s| < w {
      TrimBlankPrefix(w - |s|, s);
    } else {
      TrimBlankPrefix(0, s);
    }
  }
}
