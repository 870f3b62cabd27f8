/** The measure of the contextual rank sequence: for every state a machine may start in, the state it ends in
    and how many events it emits, with saturating counts and a sticky overflow flag. */
module ContextualMeasure {
  import opened Machine
  import opened Options

  const INT64_MAX: nat := 0x7fff_ffff_ffff_ffff

  /** What a transition callback reports: the next state and a signed 64-bit event count. */
  datatype Effect = Effect(next: nat, emitted: int)

  /** A transition that fails reports nothing. */
  datatype Policy<!V> = Policy(stateCount: nat, transition: (nat, V) -> Option<Effect>)

  datatype Measure = Measure(count: nat, overflowed: bool, events: seq<nat>, states: seq<nat>)

  datatype Status = Ok | CallbackFailed | InconsistentPolicy

  function Least(x: nat, y: nat): nat {
    if x < y then x else y
  }

  // ----- The machine -----

  predicate Answers<V>(pol: Policy<V>, v: V, s: nat) {
    var effect := pol.transition(s, v);
    effect.Some? && effect.value.next < pol.stateCount && 0 <= effect.value.emitted <= INT64_MAX
  }

  /** One element answers every state within the contract. */
  ghost predicate InContract<V>(pol: Policy<V>, v: V) {
    forall s: nat :: s < pol.stateCount ==> Answers(pol, v, s)
  }

  ghost predicate AllInContract<V>(pol: Policy<V>, vs: seq<V>) {
    forall i :: 0 <= i < |vs| ==> InContract(pol, vs[i])
  }

  /** The first state whose answer is missing or out of contract, and the status that reports it. */
  ghost predicate FailsFirst<V>(pol: Policy<V>, v: V, s: nat, status: Status) {
    && !Answers(pol, v, s) && (forall k: nat :: k < s ==> Answers(pol, v, k))
    && status == if pol.transition(s, v).None? then CallbackFailed else InconsistentPolicy
  }

  function Next<V>(pol: Policy<V>, v: V, s: nat): nat {
    if Answers(pol, v, s) then pol.transition(s, v).value.next else s
  }

  function Emitted<V>(pol: Policy<V>, v: V, s: nat): nat {
    if Answers(pol, v, s) then pol.transition(s, v).value.emitted else 0
  }

  /** Running the machine element by element. */
  ghost function FinalState<V>(pol: Policy<V>, vs: seq<V>, s: nat): nat {
    if vs == [] then s else FinalState(pol, vs[1..], Next(pol, vs[0], s))
  }

  ghost function Total<V>(pol: Policy<V>, vs: seq<V>, s: nat): nat {
    if vs == [] then 0 else Emitted(pol, vs[0], s) + Total(pol, vs[1..], Next(pol, vs[0], s))
  }

  lemma {:induction false} RunJoin<V>(pol: Policy<V>, a: seq<V>, b: seq<V>, s: nat)
    ensures FinalState(pol, a + b, s) == FinalState(pol, b, FinalState(pol, a, s))
    ensures Total(pol, a + b, s) == Total(pol, a, s) + Total(pol, b, FinalState(pol, a, s))
    decreases |a|
  {
    if a == [] {
      assert a + b == b;
    } else {
      RunJoin(pol, a[1..], b, Next(pol, a[0], s));
      assert (a + b)[0] == a[0] && (a + b)[1..] == a[1..] + b;
    }
  }

  lemma {:induction false} StateInRange<V>(pol: Policy<V>, vs: seq<V>, s: nat)
    requires AllInContract(pol, vs) && s < pol.stateCount
    ensures FinalState(pol, vs, s) < pol.stateCount
    decreases |vs|
  {
    if vs != [] {
      assert InContract(pol, vs[0]);
      assert Answers(pol, vs[0], s);
      StateInRange(pol, vs[1..], Next(pol, vs[0], s));
    }
  }

  // ----- The hooks -----

  function Identity(n: nat): Measure {
    Measure(0, false, seq(n, (s: nat) => 0), seq(n, (s: nat) => s))
  }

  function Leaf<V>(pol: Policy<V>, v: V): Measure {
    Measure(1, false, seq(pol.stateCount, (s: nat) => Emitted(pol, v, s)), seq(pol.stateCount, (s: nat) => Next(pol, v, s)))
  }

  /** Tables of the right size whose states are states; only the identity counts no elements. */
  ghost predicate Tables(n: nat, m: Measure) {
    && |m.events| == |m.states| == n && m.count <= SIZE_MAX
    && (forall s :: 0 <= s < n ==> m.states[s] < n && m.events[s] <= INT64_MAX)
    && (m.count == 0 ==> m == Identity(n))
  }

  predicate AddOverflows(x: nat, y: nat) {
    x + y > INT64_MAX
  }

  /** Combining feeds the left table's outgoing state into the right table. */
  ghost predicate Composes(n: nat, l: Measure, r: Measure, m: Measure)
    requires Tables(n, l) && Tables(n, r)
  {
    && |m.events| == |m.states| == n && m.count == Least(SIZE_MAX, l.count + r.count)
    && (forall s :: 0 <= s < n ==>
          && m.states[s] == r.states[l.states[s]]
          && m.events[s] == Least(INT64_MAX, l.events[s] + r.events[l.states[s]]))
  }

  /** The combined flag: an operand's flag, a saturated table entry or a saturated element count. */
  ghost predicate Flags(n: nat, l: Measure, r: Measure)
    requires Tables(n, l) && Tables(n, r)
  {
    || l.overflowed || r.overflowed || l.count + r.count > SIZE_MAX
    || exists s :: 0 <= s < n && AddOverflows(l.events[s], r.events[l.states[s]])
  }

  method Combine(n: nat, l: Measure, r: Measure) returns (m: Measure)
    requires Tables(n, l) && Tables(n, r)
    ensures Tables(n, m) && Composes(n, l, r, m) && (m.overflowed <==> Flags(n, l, r))
  {
    if l.count == 0 {
      return r;
    }
    if r.count == 0 {
      return l;
    }
    var overflowed := l.overflowed || r.overflowed;
    var events, states := new nat[n], new nat[n];
    var s := 0;
    while s != n
      invariant 0 <= s <= n
      invariant overflowed <==> l.overflowed || r.overflowed || exists k :: 0 <= k < s && AddOverflows(l.events[k], r.events[l.states[k]])
      invariant forall k :: 0 <= k < s ==> states[k] == r.states[l.states[k]]
      invariant forall k :: 0 <= k < s ==> events[k] == Least(INT64_MAX, l.events[k] + r.events[l.states[k]])
    {
      var middle := l.states[s];
      if r.events[middle] > INT64_MAX - l.events[s] {
        assert AddOverflows(l.events[s], r.events[l.states[s]]);
        overflowed := true;
        events[s] := INT64_MAX;
      } else {
        events[s] := l.events[s] + r.events[middle];
      }
      states[s] := r.states[middle];
      s := s + 1;
    }
    var count;
    if r.count > SIZE_MAX - l.count {
      overflowed := true;
      count := SIZE_MAX;
    } else {
      count := l.count + r.count;
    }
    m := Measure(count, overflowed, events[..], states[..]);
  }

  method FillIdentity(n: nat) returns (m: Measure)
    ensures m == Identity(n)
  {
    var events, states := new nat[n], new nat[n];
    var s := 0;
    while s != n
      invariant 0 <= s <= n
      invariant forall k :: 0 <= k < s ==> events[k] == 0 && states[k] == k
    {
      events[s] := 0;
      states[s] := s;
      s := s + 1;
    }
    m := Measure(0, false, events[..], states[..]);
    assert m.events == Identity(n).events && m.states == Identity(n).states;
  }

  /** Runs the machine once from every state. An out-of-contract answer is refused before any tree sees it. */
  method ElementCreate<V>(pol: Policy<V>, v: V) returns (status: Status, m: Measure)
    requires forall s: nat | s < pol.stateCount && pol.transition(s, v).Some? :: pol.transition(s, v).value.emitted <= INT64_MAX
    ensures status.Ok? <==> InContract(pol, v)
    ensures status.Ok? ==> m == Leaf(pol, v)
    ensures !status.Ok? ==> exists s: nat :: s < pol.stateCount && FailsFirst(pol, v, s, status)
  {
    var n := pol.stateCount;
    m := Identity(0);
    var events, states := new nat[n], new nat[n];
    var s := 0;
    while s != n
      invariant 0 <= s <= n
      invariant forall k :: 0 <= k < s ==> Answers(pol, v, k) && events[k] == Emitted(pol, v, k) && states[k] == Next(pol, v, k)
    {
      var effect := pol.transition(s, v);
      if effect.None? {
        assert FailsFirst(pol, v, s, CallbackFailed);
        return CallbackFailed, m;
      }
      if effect.value.next >= n || effect.value.emitted < 0 {
        assert FailsFirst(pol, v, s, InconsistentPolicy);
        return InconsistentPolicy, m;
      }
      events[s] := effect.value.emitted;
      states[s] := effect.value.next;
      s := s + 1;
    }
    m := Measure(1, false, events[..], states[..]);
    status := Ok;
    assert m.events == Leaf(pol, v).events && m.states == Leaf(pol, v).states;
  }

  // ----- Composition is a monoid on the tables -----

  ghost predicate SameTables(l: Measure, r: Measure) {
    l.count == r.count && l.events == r.events && l.states == r.states
  }

  lemma CompositionIsDetermined(n: nat, l: Measure, r: Measure, m: Measure, m': Measure)
    requires Tables(n, l) && Tables(n, r) && Composes(n, l, r, m) && Composes(n, l, r, m')
    ensures SameTables(m, m')
  {
  }

  /** Grouping does not change the saturated tables. */
  lemma CompositionIsAssociative(n: nat, a: Measure, b: Measure, c: Measure, ab: Measure, bc: Measure, left: Measure, right: Measure)
    requires Tables(n, a) && Tables(n, b) && Tables(n, c) && Tables(n, ab) && Tables(n, bc)
    requires Composes(n, a, b, ab) && Composes(n, b, c, bc) && Composes(n, ab, c, left) && Composes(n, a, bc, right)
    ensures SameTables(left, right)
  {
    forall s | 0 <= s < n ensures left.events[s] == right.events[s] && left.states[s] == right.states[s] {
      var t := a.states[s];
      var u := b.states[t];
      assert ab.events[s] == Least(INT64_MAX, a.events[s] + b.events[t]);
      assert bc.events[t] == Least(INT64_MAX, b.events[t] + c.events[u]);
    }
  }

  lemma IdentityIsNeutral(n: nat, m: Measure)
    requires Tables(n, m)
    ensures Tables(n, Identity(n)) && Composes(n, Identity(n), m, m) && Composes(n, m, Identity(n), m)
  {
  }
}
