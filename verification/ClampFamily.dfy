/** The shipped action family: clamps of a priority into optional bounds, or onto a constant. */
module ClampFamily {
  import opened Comparisons
  import opened Options
  import opened ActionPolicy

  datatype Clamp<+P> = Clamp(constant: Option<P>, lower: Option<P>, upper: Option<P>)
  {
    predicate IsIdentity() {
      constant.None? && lower.None? && upper.None?
    }
  }

  function CompareLe<P>(cmp: (P, P) -> int, p: P, q: P): bool {
    cmp(p, q) <= 0
  }

  /** The clamps the constructors build: a constant stands alone and bounds are not crossed. */
  predicate WellFormed<P>(cmp: (P, P) -> int, c: Clamp<P>) {
    && (c.constant.Some? ==> c.lower.None? && c.upper.None?)
    && (c.lower.Some? && c.upper.Some? ==> CompareLe(cmp, c.lower.value, c.upper.value))
  }

  /** The representative a clamp picks for a priority; `None` lets the priority through unchanged. */
  function Select<P>(cmp: (P, P) -> int, c: Clamp<P>, p: P): Option<P> {
    if c.constant.Some? then c.constant
    else if c.lower.Some? && cmp(p, c.lower.value) < 0 then c.lower
    else if c.upper.Some? && cmp(p, c.upper.value) > 0 then c.upper
    else None
  }

  function ClampApply<P>(cmp: (P, P) -> int, c: Clamp<P>, p: P): P {
    var selected := Select(cmp, c, p);
    if selected.None? then p else selected.value
  }

  function ClampCompose<P>(cmp: (P, P) -> int, outer: Clamp<P>, inner: Clamp<P>): Clamp<P> {
    if outer.IsIdentity() then inner
    else if inner.IsIdentity() || outer.constant.Some? then outer
    else if inner.constant.Some? then
      var selected := Select(cmp, outer, inner.constant.value);
      Clamp(if selected.None? then inner.constant else selected, None, None)
    else if inner.upper.Some? && outer.lower.Some? && cmp(inner.upper.value, outer.lower.value) < 0 then
      Clamp(outer.lower, None, None)
    else if inner.lower.Some? && outer.upper.Some? && cmp(inner.lower.value, outer.upper.value) > 0 then
      Clamp(outer.upper, None, None)
    else
      var lower :=
        if inner.lower.None? then outer.lower
        else if outer.lower.None? then inner.lower
        else if cmp(inner.lower.value, outer.lower.value) >= 0 then inner.lower else outer.lower;
      var upper :=
        if inner.upper.None? then outer.upper
        else if outer.upper.None? then inner.upper
        else if cmp(inner.upper.value, outer.upper.value) <= 0 then inner.upper else outer.upper;
      Clamp(None, lower, upper)
  }

  // ----- The constructors -----

  function Identity<P>(): Clamp<P> {
    Clamp(None, None, None)
  }

  function AtLeast<P>(bound: P): Clamp<P> {
    Clamp(None, Some(bound), None)
  }

  function AtMost<P>(bound: P): Clamp<P> {
    Clamp(None, None, Some(bound))
  }

  function Constant<P>(value: P): Clamp<P> {
    Clamp(Some(value), None, None)
  }

  /** Crossed bounds are refused. */
  function Between<P>(cmp: (P, P) -> int, lower: P, upper: P): Option<Clamp<P>> {
    if cmp(lower, upper) > 0 then None else Some(Clamp(None, Some(lower), Some(upper)))
  }

  /** The constructors build exactly the well-formed clamps. */
  lemma ConstructorsBuildWellFormed<P>(cmp: (P, P) -> int, c: Clamp<P>)
    ensures WellFormed(cmp, c) <==>
      || c == Identity()
      || (c.constant.Some? && c == Constant(c.constant.value))
      || (c.lower.Some? && c == AtLeast(c.lower.value))
      || (c.upper.Some? && c == AtMost(c.upper.value))
      || (c.lower.Some? && c.upper.Some? && Between(cmp, c.lower.value, c.upper.value) == Some(c))
  {
  }

  /** A clamp moves a priority into its bounds: a constant replaces everything, a violated bound is taken itself,
      and a priority that violates no bound passes through unchanged. */
  lemma ApplyClamps<P(!new)>(cmp: (P, P) -> int, c: Clamp<P>, p: P)
    requires TotalPreorder(cmp) && WellFormed(cmp, c)
    ensures var r := ClampApply(cmp, c, p);
      && (c.constant.Some? ==> r == c.constant.value)
      && (c.lower.Some? ==> cmp(c.lower.value, r) <= 0 && (cmp(p, c.lower.value) < 0 ==> r == c.lower.value))
      && (c.upper.Some? ==> cmp(r, c.upper.value) <= 0 && (cmp(p, c.upper.value) > 0 ==> r == c.upper.value))
      && (c.constant.None? && (c.lower.Some? ==> cmp(p, c.lower.value) >= 0) && (c.upper.Some? ==> cmp(p, c.upper.value) <= 0)
          ==> r == p)
  {
    var r := ClampApply(cmp, c, p);
    if c.lower.Some? { OrderFacts(cmp, c.lower.value, p, r); OrderFacts(cmp, c.lower.value, c.lower.value, r); }
    if c.upper.Some? { OrderFacts(cmp, c.upper.value, p, r); OrderFacts(cmp, c.upper.value, c.upper.value, r); }
  }

  function ClampPolicy<P>(cmp: (P, P) -> int): Policy<P, Clamp<P>> {
    Policy(
      Clamp(None, None, None),
      (c: Clamp<P>) => c.IsIdentity(),
      (outer: Clamp<P>, inner: Clamp<P>) => ClampCompose(cmp, outer, inner),
      (c: Clamp<P>, p: P) => ClampApply(cmp, c, p),
      cmp,
      (c: Clamp<P>) => WellFormed(cmp, c))
  }

  /** Composition picks the same representative as inner-then-outer, even where distinct values tie. */
  lemma ComposeIsExact<P(!new)>(cmp: (P, P) -> int, outer: Clamp<P>, inner: Clamp<P>, p: P)
    requires TotalPreorder(cmp) && WellFormed(cmp, outer) && WellFormed(cmp, inner)
    ensures ClampApply(cmp, ClampCompose(cmp, outer, inner), p) == ClampApply(cmp, outer, ClampApply(cmp, inner, p))
  {
    if !outer.IsIdentity() && !inner.IsIdentity() && outer.constant.None? && inner.constant.None? {
      ComposeBoundsIsExact(cmp, outer, inner, p);
    }
  }

  lemma ComposeBoundsIsExact<P(!new)>(cmp: (P, P) -> int, outer: Clamp<P>, inner: Clamp<P>, p: P)
    requires TotalPreorder(cmp) && WellFormed(cmp, outer) && WellFormed(cmp, inner)
    requires outer.constant.None? && inner.constant.None? && !outer.IsIdentity() && !inner.IsIdentity()
    ensures ClampApply(cmp, ClampCompose(cmp, outer, inner), p) == ClampApply(cmp, outer, ClampApply(cmp, inner, p))
  {
    if inner.lower.Some? && cmp(p, inner.lower.value) < 0 {
      assert ClampApply(cmp, inner, p) == inner.lower.value;
      assert outer.lower.Some? && cmp(inner.lower.value, outer.lower.value) < 0 ==> cmp(p, outer.lower.value) < 0;
    } else if inner.upper.Some? && cmp(p, inner.upper.value) > 0 {
      assert ClampApply(cmp, inner, p) == inner.upper.value;
      assert outer.upper.Some? && cmp(inner.upper.value, outer.upper.value) > 0 ==> cmp(p, outer.upper.value) > 0;
    } else {
      assert ClampApply(cmp, inner, p) == p;
      if outer.lower.Some? && cmp(p, outer.lower.value) < 0 {
        assert inner.lower.Some? ==> cmp(inner.lower.value, outer.lower.value) < 0;
      } else if outer.upper.Some? && cmp(p, outer.upper.value) > 0 {
        assert inner.upper.Some? ==> cmp(inner.upper.value, outer.upper.value) > 0;
      }
    }
  }

  lemma ComposeStaysWellFormed<P(!new)>(cmp: (P, P) -> int, outer: Clamp<P>, inner: Clamp<P>)
    requires TotalPreorder(cmp) && WellFormed(cmp, outer) && WellFormed(cmp, inner)
    ensures WellFormed(cmp, ClampCompose(cmp, outer, inner))
  {
  }

  lemma ApplyIsMonotone<P(!new)>(cmp: (P, P) -> int, c: Clamp<P>, p: P, q: P)
    requires TotalPreorder(cmp) && WellFormed(cmp, c) && cmp(p, q) <= 0
    ensures cmp(ClampApply(cmp, c, p), ClampApply(cmp, c, q)) <= 0
  {
  }

  /** The shipped family meets every law the heap relies on. */
  lemma ClampFamilyIsLawful<P(!new)>(cmp: (P, P) -> int)
    requires TotalPreorder(cmp)
    ensures Lawful(ClampPolicy(cmp))
  {
    var pol := ClampPolicy(cmp);
    forall a, b | pol.admissible(a) && pol.admissible(b)
      ensures pol.admissible(pol.Compose(a, b))
    {
      ComposeStaysWellFormed(cmp, a, b);
    }
    forall a, b, p | pol.admissible(a) && pol.admissible(b)
      ensures pol.Apply(pol.Compose(a, b), p) == pol.Apply(a, pol.Apply(b, p))
    {
      ComposeIsExact(cmp, a, b, p);
    }
    forall a, p, q | pol.admissible(a) && pol.Le(p, q)
      ensures pol.Le(pol.Apply(a, p), pol.Apply(a, q))
    {
      ApplyIsMonotone(cmp, a, p, q);
    }
  }
}
