/** The efficiency figure: `grouped["Boxes/kg"].mean()`. */
module Efficiency {
  import opened Aggregation

  /** The finite Boxes/kg values, in table order (the values `mean` adds up). */
  function FiniteYields(gs: seq<Group>): (xs: seq<real>)
    ensures |xs| <= |gs|
  {
    if gs == [] then []
    else
      var g := gs[|gs| - 1];
      FiniteYields(gs[..|gs| - 1]) + (if g.boxesPerKg.Finite? then [g.boxesPerKg.value] else [])
  }

  function SumReals(xs: seq<real>): real {
    if xs == [] then 0.0 else SumReals(xs[..|xs| - 1]) + xs[|xs| - 1]
  }

  /**
   * pandas' mean: NaN entries are skipped; an infinite entry makes the mean
   * infinite, and infinities of both signs make it NaN; nothing left gives NaN.
   */
  function MeanYield(gs: seq<Group>): Ratio {
    var pos := exists i :: 0 <= i < |gs| && gs[i].boxesPerKg == PosInf;
    var neg := exists i :: 0 <= i < |gs| && gs[i].boxesPerKg == NegInf;
    var xs := FiniteYields(gs);
    if pos && neg then NaN
    else if pos then PosInf
    else if neg then NegInf
    else if xs == [] then NaN
    else Finite(SumReals(xs) / (|xs| as real))
  }

  lemma {:induction false} FiniteYieldsAll(gs: seq<Group>)
    requires forall i :: 0 <= i < |gs| ==> gs[i].boxesPerKg.Finite?
    ensures FiniteYields(gs) == seq(|gs|, i requires 0 <= i < |gs| => gs[i].boxesPerKg.value)
  {
    if gs != [] {
      FiniteYieldsAll(gs[..|gs| - 1]);
    }
  }

  lemma {:induction false} SumRealsBounded(xs: seq<real>, lo: real, hi: real)
    requires forall i :: 0 <= i < |xs| ==> lo <= xs[i] <= hi
    ensures (|xs| as real) * lo <= SumReals(xs) <= (|xs| as real) * hi
  {
    if xs != [] {
      SumRealsBounded(xs[..|xs| - 1], lo, hi);
    }
  }

  lemma MeanOfBounded(s: real, n: nat, lo: real, hi: real)
    requires n > 0 && (n as real) * lo <= s <= (n as real) * hi
    ensures lo <= s / (n as real) <= hi
  {
  }

  lemma MeanOfFinite(gs: seq<Group>)
    requires gs != []
    requires forall i :: 0 <= i < |gs| ==> gs[i].boxesPerKg.Finite?
    ensures |FiniteYields(gs)| == |gs|
    ensures MeanYield(gs) == Finite(SumReals(FiniteYields(gs)) / (|gs| as real))
  {
    assert !exists i :: 0 <= i < |gs| && gs[i].boxesPerKg == PosInf;
    assert !exists i :: 0 <= i < |gs| && gs[i].boxesPerKg == NegInf;
    FiniteYieldsAll(gs);
  }

  /**
   * When every ratio is finite (every raw-material total nonzero) the mean is
   * finite and lies within any bounds of the per-product ratios.
   */
  lemma MeanBounded(gs: seq<Group>, lo: real, hi: real)
    requires gs != []
    requires forall i :: 0 <= i < |gs| ==> gs[i].boxesPerKg.Finite? && lo <= gs[i].boxesPerKg.value <= hi
    ensures MeanYield(gs).Finite? && lo <= MeanYield(gs).value <= hi
  {
    MeanOfFinite(gs);
    YieldsBounded(gs, lo, hi);
    AverageBounded(FiniteYields(gs), lo, hi);
  }

  lemma AverageBounded(xs: seq<real>, lo: real, hi: real)
    requires xs != []
    requires forall i :: 0 <= i < |xs| ==> lo <= xs[i] <= hi
    ensures lo <= SumReals(xs) / (|xs| as real) <= hi
  {
    SumRealsBounded(xs, lo, hi);
    MeanOfBounded(SumReals(xs), |xs|, lo, hi);
  }

  lemma YieldsBounded(gs: seq<Group>, lo: real, hi: real)
    requires forall i :: 0 <= i < |gs| ==> gs[i].boxesPerKg.Finite? && lo <= gs[i].boxesPerKg.value <= hi
    ensures forall i :: 0 <= i < |FiniteYields(gs)| ==> lo <= FiniteYields(gs)[i] <= hi
  {
    FiniteYieldsAll(gs);
  }

  /** With a single product the mean is that product's ratio, whatever it is. */
  lemma MeanOfOne(g: Group)
    ensures MeanYield([g]) == g.boxesPerKg
  {
    assert [g][..0] == [];
    if g.boxesPerKg.Finite? {
      assert FiniteYields([g]) == [g.boxesPerKg.value];
      assert SumReals([g.boxesPerKg.value]) == g.boxesPerKg.value by {
        assert [g.boxesPerKg.value][..0] == [];
      }
    }
  }
}
