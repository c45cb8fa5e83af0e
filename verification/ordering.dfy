/**
 * `grouped.sort_values(by="NoofBoxes", ascending=False)`. The call uses the
 * default (unstable) sort, so only "a permutation, box counts non-increasing"
 * is promised; the insertion sort here fixes one tie order for the model, and
 * no contract depends on it.
 */
module Ordering {
  import opened Records
  import opened Aggregation

  predicate NonIncreasing(gs: seq<Group>) {
    forall i, j :: 0 <= i < j < |gs| ==> gs[i].boxes >= gs[j].boxes
  }

  predicate HasProduct(gs: seq<Group>, p: string) {
    exists i :: 0 <= i < |gs| && gs[i].product == p
  }

  predicate ProductsDistinct(gs: seq<Group>) {
    forall i, j :: 0 <= i < j < |gs| ==> gs[i].product != gs[j].product
  }

  /** Puts `g` in front of the first group with fewer boxes. */
  function Insert(g: Group, s: seq<Group>): seq<Group> {
    if s == [] || g.boxes >= s[0].boxes then [g] + s else [s[0]] + Insert(g, s[1..])
  }

  function SortByBoxes(gs: seq<Group>): seq<Group> {
    if gs == [] then [] else Insert(gs[0], SortByBoxes(gs[1..]))
  }

  lemma {:induction false} InsertMultiset(g: Group, s: seq<Group>)
    ensures multiset(Insert(g, s)) == multiset(s) + multiset{g}
  {
    if s != [] && g.boxes < s[0].boxes {
      InsertMultiset(g, s[1..]);
      assert s == [s[0]] + s[1..];
    }
  }

  lemma {:induction false} InsertSorted(g: Group, s: seq<Group>)
    requires NonIncreasing(s)
    ensures NonIncreasing(Insert(g, s))
  {
    if s != [] && g.boxes < s[0].boxes {
      var rest := Insert(g, s[1..]);
      InsertSorted(g, s[1..]);
      InsertMembers(g, s[1..]);
      forall j | 0 <= j < |rest| ensures s[0].boxes >= rest[j].boxes {
        assert rest[j] in rest;
        if rest[j] != g {
          var k :| 0 <= k < |s[1..]| && s[1..][k] == rest[j];
          assert s[k + 1] == rest[j];
        }
      }
    }
  }

  lemma {:induction false} InsertMembers(g: Group, s: seq<Group>)
    ensures forall y :: y in Insert(g, s) <==> y == g || y in s
  {
    if s != [] && g.boxes < s[0].boxes {
      InsertMembers(g, s[1..]);
      assert s == [s[0]] + s[1..];
    }
  }

  lemma {:induction false} InsertDistinct(g: Group, s: seq<Group>)
    requires ProductsDistinct(s) && !HasProduct(s, g.product)
    ensures ProductsDistinct(Insert(g, s))
  {
    if s != [] && g.boxes < s[0].boxes {
      var rest := Insert(g, s[1..]);
      assert ProductsDistinct(s[1..]);
      assert !HasProduct(s[1..], g.product) by {
        forall i | 0 <= i < |s[1..]| ensures s[1..][i].product != g.product {
          assert s[1..][i] == s[i + 1];
        }
      }
      InsertDistinct(g, s[1..]);
      InsertMembers(g, s[1..]);
      forall j | 0 <= j < |rest| ensures s[0].product != rest[j].product {
        assert rest[j] in rest;
        if rest[j] != g {
          var k :| 0 <= k < |s[1..]| && s[1..][k] == rest[j];
          assert s[k + 1] == rest[j];
        }
      }
    }
  }

  /** The sorted table is a permutation of the groups with box counts non-increasing. */
  lemma {:induction false} SortedPermutation(gs: seq<Group>)
    ensures multiset(SortByBoxes(gs)) == multiset(gs)
    ensures NonIncreasing(SortByBoxes(gs))
  {
    if gs != [] {
      SortedPermutation(gs[1..]);
      InsertMultiset(gs[0], SortByBoxes(gs[1..]));
      InsertSorted(gs[0], SortByBoxes(gs[1..]));
      assert gs == [gs[0]] + gs[1..];
    }
  }

  /** Sorting keeps one row per product. */
  lemma {:induction false} SortKeepsProductsDistinct(gs: seq<Group>)
    requires ProductsDistinct(gs)
    ensures ProductsDistinct(SortByBoxes(gs))
  {
    if gs != [] {
      var sorted := SortByBoxes(gs[1..]);
      SortKeepsProductsDistinct(gs[1..]);
      SortedPermutation(gs[1..]);
      assert !HasProduct(sorted, gs[0].product) by {
        forall i | 0 <= i < |sorted| ensures sorted[i].product != gs[0].product {
          assert sorted[i] in multiset(gs[1..]);
          var k :| 0 <= k < |gs[1..]| && gs[1..][k] == sorted[i];
          assert gs[k + 1] == sorted[i];
        }
      }
      InsertDistinct(gs[0], sorted);
    }
  }

  /** Reordering keeps the same products. */
  lemma PermutationKeepsProducts(a: seq<Group>, b: seq<Group>, p: string)
    requires multiset(a) == multiset(b)
    ensures HasProduct(a, p) <==> HasProduct(b, p)
  {
    if HasProduct(a, p) {
      var i :| 0 <= i < |a| && a[i].product == p;
      assert a[i] in multiset(b);
      var j :| 0 <= j < |b| && b[j] == a[i];
    }
    if HasProduct(b, p) {
      var i :| 0 <= i < |b| && b[i].product == p;
      assert b[i] in multiset(a);
      var j :| 0 <= j < |a| && a[j] == b[i];
    }
  }

  lemma {:induction false} SumGroupsAppend(a: seq<Group>, b: seq<Group>, m: Measure)
    ensures SumGroups(a + b, m) == SumGroups(a, m) + SumGroups(b, m)
  {
    if b != [] {
      var b' := b[..|b| - 1];
      SumGroupsAppend(a, b', m);
      assert (a + b)[..|a + b| - 1] == a + b';
    } else {
      assert a + b == a;
    }
  }

  /** Taking one row out of a table takes its amount out of the column sum. */
  lemma SumGroupsRemove(b: seq<Group>, k: nat, m: Measure)
    requires k < |b|
    ensures SumGroups(b, m) == SumGroups(b[..k] + b[k + 1..], m) + GroupAmount(b[k], m)
  {
    assert b == b[..k] + [b[k]] + b[k + 1..];
    SumGroupsAppend(b[..k] + [b[k]], b[k + 1..], m);
    SumGroupsAppend(b[..k], [b[k]], m);
    SumGroupsAppend(b[..k], b[k + 1..], m);
    assert SumGroups([b[k]], m) == GroupAmount(b[k], m) by { assert [b[k]][..0] == []; }
  }

  lemma MultisetRemove(b: seq<Group>, k: nat)
    requires k < |b|
    ensures multiset(b[..k] + b[k + 1..]) == multiset(b) - multiset{b[k]}
  {
    assert b == b[..k] + [b[k]] + b[k + 1..];
    assert multiset(b) == multiset(b[..k]) + multiset{b[k]} + multiset(b[k + 1..]);
  }

  /** Taking the last row out of one table and a matching row out of the other keeps them permutations. */
  lemma RemoveMatching(a: seq<Group>, b: seq<Group>, k: nat)
    requires multiset(a) == multiset(b) && a != [] && k < |b| && b[k] == a[|a| - 1]
    ensures multiset(a[..|a| - 1]) == multiset(b[..k] + b[k + 1..])
  {
    MultisetRemove(a, |a| - 1);
    assert a[..|a| - 1] + a[|a|..] == a[..|a| - 1];
    MultisetRemove(b, k);
  }

  /** Column sums do not depend on the order of the rows. */
  lemma {:induction false} SumGroupsPermutation(a: seq<Group>, b: seq<Group>, m: Measure)
    requires multiset(a) == multiset(b)
    ensures SumGroups(a, m) == SumGroups(b, m)
  {
    if a != [] {
      var x := a[|a| - 1];
      assert x in multiset(b) by {
        assert x in a;
      }
      var k :| 0 <= k < |b| && b[k] == x;
      RemoveMatching(a, b, k);
      SumGroupsPermutation(a[..|a| - 1], b[..k] + b[k + 1..], m);
      SumGroupsRemove(b, k, m);
    }
  }
}
