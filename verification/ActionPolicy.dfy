/** The comparison and action algebra a monotone-action heap is built over.
    The heap never inspects priorities or actions itself: it only calls these callbacks. */
module ActionPolicy {
  import opened Comparisons

  /** `admissible` names the actions the family's constructors build; the laws are promised for those. */
  datatype Policy<!P, !A> = Policy(
    identity: A,
    isIdentity: A -> bool,
    compose: (A, A) -> A,
    apply: (A, P) -> P,
    cmp: (P, P) -> int,
    admissible: A -> bool)
  {
    predicate Le(p: P, q: P) {
      cmp(p, q) <= 0
    }

    predicate Lt(p: P, q: P) {
      cmp(p, q) < 0
    }

    function Apply(a: A, p: P): P {
      apply(a, p)
    }

    function Compose(outer: A, inner: A): A {
      compose(outer, inner)
    }
  }

  /** Identity, closure, composition and monotonicity of the action family. */
  ghost predicate ActionLaws<P(!new), A(!new)>(pol: Policy<P, A>) {
    && pol.admissible(pol.identity)
    && (forall p {:trigger pol.Apply(pol.identity, p)} :: pol.Apply(pol.identity, p) == p)
    && (forall a, p {:trigger pol.isIdentity(a), pol.Apply(a, p)} :: pol.isIdentity(a) ==> pol.Apply(a, p) == p)
    && (forall a, b {:trigger pol.Compose(a, b)} ::
          pol.admissible(a) && pol.admissible(b) ==> pol.admissible(pol.Compose(a, b)))
    && (forall a, b, p {:trigger pol.Apply(pol.Compose(a, b), p)} ::
          pol.admissible(a) && pol.admissible(b) ==> pol.Apply(pol.Compose(a, b), p) == pol.Apply(a, pol.Apply(b, p)))
    && (forall a, p, q {:trigger pol.Le(pol.Apply(a, p), pol.Apply(a, q))} ::
          pol.admissible(a) && pol.Le(p, q) ==> pol.Le(pol.Apply(a, p), pol.Apply(a, q)))
  }

  ghost predicate Lawful<P(!new), A(!new)>(pol: Policy<P, A>) {
    TotalPreorder(pol.cmp) && ActionLaws(pol)
  }
}
