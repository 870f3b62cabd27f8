/** Measured trees of the contextual rank sequence, with any grouping of their elements: what the root summary
    says, when its overflow flag is set, and how an event is selected. */
module ContextualRank {
  import opened Machine
  import opened Options
  import opened ContextualMeasure

  /** A grouping of elements; each node caches the measure below. */
  datatype Group<V> = Nil | One(value: V) | Pair(left: Group<V>, right: Group<V>)

  function Values<V>(g: Group<V>): seq<V> {
    match g
    case Nil => []
    case One(v) => [v]
    case Pair(l, r) => Values(l) + Values(r)
  }

  function EventsFrom(l: Measure, r: Measure, s: nat): nat {
    if s < |l.events| && s < |l.states| && l.states[s] < |r.events|
    then Least(INT64_MAX, l.events[s] + r.events[l.states[s]]) else 0
  }

  function StateFrom(l: Measure, r: Measure, s: nat): nat {
    if s < |l.states| && l.states[s] < |r.states| then r.states[l.states[s]] else 0
  }

  /** The measure that combining two measures stores. */
  ghost function Join(n: nat, l: Measure, r: Measure): (m: Measure)
    requires Tables(n, l) && Tables(n, r)
    ensures Tables(n, m) && Composes(n, l, r, m) && (m.overflowed <==> Flags(n, l, r))
  {
    var m := Measure(Least(SIZE_MAX, l.count + r.count), Flags(n, l, r),
                     seq(n, (s: nat) => EventsFrom(l, r, s)), seq(n, (s: nat) => StateFrom(l, r, s)));
    assert Composes(n, l, r, m);
    EmptyJoin(n, l, r, m);
    m
  }

  lemma EmptyJoin(n: nat, l: Measure, r: Measure, m: Measure)
    requires Tables(n, l) && Tables(n, r) && Composes(n, l, r, m) && (m.overflowed <==> Flags(n, l, r))
    ensures m.count == 0 ==> m == Identity(n)
  {
    if m.count == 0 {
      assert l == Identity(n) && r == Identity(n);
      IdentityIsNeutral(n, r);
      CompositionIsDetermined(n, l, r, m, r);
      NoFlags(n);
    }
  }

  lemma NoFlags(n: nat)
    ensures Tables(n, Identity(n)) && !Flags(n, Identity(n), Identity(n))
  {
  }

  ghost predicate Sound<V>(pol: Policy<V>, g: Group<V>) {
    match g
    case Nil => true
    case One(v) => InContract(pol, v)
    case Pair(l, r) => Sound(pol, l) && Sound(pol, r)
  }

  lemma LeafTables<V>(pol: Policy<V>, v: V)
    requires InContract(pol, v)
    ensures Tables(pol.stateCount, Leaf(pol, v))
  {
    forall s: nat | s < pol.stateCount ensures Answers(pol, v, s) {}
  }

  ghost function MeasureOf<V>(pol: Policy<V>, g: Group<V>): (m: Measure)
    requires Sound(pol, g)
    ensures Tables(pol.stateCount, m)
  {
    match g
    case Nil => Identity(pol.stateCount)
    case One(v) => LeafTables(pol, v); Leaf(pol, v)
    case Pair(l, r) => Join(pol.stateCount, MeasureOf(pol, l), MeasureOf(pol, r))
  }

  lemma {:induction false} SoundValues<V>(pol: Policy<V>, g: Group<V>)
    requires Sound(pol, g)
    ensures AllInContract(pol, Values(g))
  {
    match g
    case Nil =>
    case One(v) =>
    case Pair(l, r) =>
      SoundValues(pol, l);
      SoundValues(pol, r);
  }

  // ----- The summary is the saturated truth -----

  /** What the machine does from every state, with totals cut off at the largest signed word. */
  ghost predicate Summarizes<V>(pol: Policy<V>, vs: seq<V>, m: Measure) {
    && |m.events| == |m.states| == pol.stateCount && m.count == Least(SIZE_MAX, |vs|)
    && (forall s :: 0 <= s < pol.stateCount ==>
          m.states[s] == FinalState(pol, vs, s) && m.events[s] == Least(INT64_MAX, Total(pol, vs, s)))
  }

  lemma JoinSummarizes<V>(pol: Policy<V>, a: seq<V>, b: seq<V>, l: Measure, r: Measure, m: Measure)
    requires Tables(pol.stateCount, l) && Tables(pol.stateCount, r) && Composes(pol.stateCount, l, r, m)
    requires Summarizes(pol, a, l) && Summarizes(pol, b, r)
    ensures Summarizes(pol, a + b, m)
  {
    hide FinalState, Total;
    forall s | 0 <= s < pol.stateCount
      ensures m.states[s] == FinalState(pol, a + b, s) && m.events[s] == Least(INT64_MAX, Total(pol, a + b, s))
    {
      RunJoin(pol, a, b, s);
      assert l.states[s] < pol.stateCount;
    }
  }

  /** However the elements are grouped, the root summary is the saturated run of the machine. */
  lemma {:induction false} SummaryIsSaturatedRun<V>(pol: Policy<V>, g: Group<V>)
    requires Sound(pol, g)
    ensures Summarizes(pol, Values(g), MeasureOf(pol, g))
  {
    match g
    case Nil =>
    case One(v) => OneSummarizes(pol, v);
    case Pair(l, r) =>
      SummaryIsSaturatedRun(pol, l);
      SummaryIsSaturatedRun(pol, r);
      JoinSummarizes(pol, Values(l), Values(r), MeasureOf(pol, l), MeasureOf(pol, r), MeasureOf(pol, g));
  }

  lemma OneSummarizes<V>(pol: Policy<V>, v: V)
    requires InContract(pol, v)
    ensures Summarizes(pol, [v], Leaf(pol, v))
  {
    forall s: nat | s < pol.stateCount
      ensures Leaf(pol, v).states[s] == FinalState(pol, [v], s)
      ensures Leaf(pol, v).events[s] == Least(INT64_MAX, Total(pol, [v], s))
    {
      assert Answers(pol, v, s);
      assert [v][1..] == [];
      assert Total(pol, [v], s) == Emitted(pol, v, s) + Total(pol, [], Next(pol, v, s));
    }
  }

  // ----- The overflow flag -----

  /** Some start state takes the machine past the largest signed word, or there are too many elements. */
  ghost predicate Exceeds<V>(pol: Policy<V>, vs: seq<V>) {
    |vs| > SIZE_MAX || exists s :: 0 <= s < pol.stateCount && Total(pol, vs, s) > INT64_MAX
  }

  /** Some group of the tree exceeds. */
  ghost predicate Bursts<V>(pol: Policy<V>, g: Group<V>) {
    g.Pair? && (Exceeds(pol, Values(g)) || Bursts(pol, g.left) || Bursts(pol, g.right))
  }

  /** The flag is set exactly when the elements of some group of the tree exceed, whether or not the machine
      ever enters that group in the offending state. */
  lemma {:induction false} FlagIsBurst<V>(pol: Policy<V>, g: Group<V>)
    requires Sound(pol, g)
    ensures MeasureOf(pol, g).overflowed <==> Bursts(pol, g)
  {
    if g.Pair? {
      var n, a, b := pol.stateCount, Values(g.left), Values(g.right);
      var l, r := MeasureOf(pol, g.left), MeasureOf(pol, g.right);
      FlagIsBurst(pol, g.left);
      FlagIsBurst(pol, g.right);
      SummaryIsSaturatedRun(pol, g.left);
      SummaryIsSaturatedRun(pol, g.right);
      NoBurstIsExact(pol, g.left);
      NoBurstIsExact(pol, g.right);
      if !Bursts(pol, g.left) && !Bursts(pol, g.right) {
        hide Sound, Bursts, Tables, MeasureOf;
        ExceedsJoin(pol, a, b, l, r);
      }
    }
  }

  /** A group that does not burst does not exceed. */
  lemma NoBurstIsExact<V>(pol: Policy<V>, g: Group<V>)
    requires Sound(pol, g)
    ensures !Bursts(pol, g) ==> !Exceeds(pol, Values(g))
  {
    match g
    case Nil =>
    case One(v) =>
      forall s: nat | s < pol.stateCount ensures Total(pol, [v], s) <= INT64_MAX {
        assert Answers(pol, v, s);
        assert [v][1..] == [];
        assert Total(pol, [v], s) == Emitted(pol, v, s) + Total(pol, [], Next(pol, v, s));
      }
    case Pair(l, r) =>
  }

  lemma ExceedsJoin<V>(pol: Policy<V>, a: seq<V>, b: seq<V>, l: Measure, r: Measure)
    requires Tables(pol.stateCount, l) && Tables(pol.stateCount, r)
    requires Summarizes(pol, a, l) && Summarizes(pol, b, r) && !Exceeds(pol, a) && !Exceeds(pol, b)
    ensures Exceeds(pol, a + b) <==>
      l.count + r.count > SIZE_MAX
      || exists s :: 0 <= s < pol.stateCount && AddOverflows(l.events[s], r.events[l.states[s]])
  {
    hide FinalState, Total;
    forall s | 0 <= s < pol.stateCount
      ensures l.states[s] < pol.stateCount && Total(pol, a + b, s) == l.events[s] + r.events[l.states[s]]
    {
      RunJoin(pol, a, b, s);
      assert Total(pol, a, s) <= INT64_MAX;
      assert l.states[s] < pol.stateCount;
      assert Total(pol, b, l.states[s]) <= INT64_MAX;
    }
  }

  /** A clear flag makes every total exact. */
  lemma ClearIsExact<V>(pol: Policy<V>, g: Group<V>, s: nat)
    requires Sound(pol, g) && !MeasureOf(pol, g).overflowed && s < pol.stateCount
    ensures MeasureOf(pol, g).events[s] == Total(pol, Values(g), s)
    ensures MeasureOf(pol, g).states[s] == FinalState(pol, Values(g), s)
    ensures MeasureOf(pol, g).count == |Values(g)|
  {
    FlagIsBurst(pol, g);
    NoBurstIsExact(pol, g);
    SummaryIsSaturatedRun(pol, g);
    hide Total, FinalState, MeasureOf, Bursts;
  }

  /** Every state is reached from some state. */
  ghost predicate Onto<V>(pol: Policy<V>, v: V) {
    forall t: nat :: t < pol.stateCount ==> Reaches(pol, [v], t)
  }

  ghost predicate Reaches<V>(pol: Policy<V>, vs: seq<V>, t: nat) {
    exists s: nat :: s < pol.stateCount && FinalState(pol, vs, s) == t
  }

  lemma {:induction false} OntoReaches<V>(pol: Policy<V>, vs: seq<V>, t: nat)
    requires (forall i :: 0 <= i < |vs| ==> Onto(pol, vs[i])) && t < pol.stateCount
    ensures Reaches(pol, vs, t)
    decreases |vs|
  {
    if vs == [] {
      assert FinalState(pol, vs, t) == t;
    } else {
      var n := |vs| - 1;
      var init, last := vs[..n], vs[n];
      assert Onto(pol, last);
      assert Reaches(pol, [last], t);
      var u: nat :| u < pol.stateCount && FinalState(pol, [last], u) == t;
      OntoReaches(pol, init, u);
      var s: nat :| s < pol.stateCount && FinalState(pol, init, s) == u;
      RunJoin(pol, init, [last], s);
      assert vs == init + [last];
    }
  }

  /** When every element's states are a permutation, the flag says exactly whether the true totals exceed. */
  lemma {:induction false} OntoFlagIsExact<V>(pol: Policy<V>, g: Group<V>)
    requires Sound(pol, g) && forall i :: 0 <= i < |Values(g)| ==> Onto(pol, Values(g)[i])
    ensures MeasureOf(pol, g).overflowed <==> Exceeds(pol, Values(g))
  {
    FlagIsBurst(pol, g);
    NoBurstIsExact(pol, g);
    if Bursts(pol, g) { BurstExceeds(pol, g); }
  }

  lemma {:induction false} BurstExceeds<V>(pol: Policy<V>, g: Group<V>)
    requires Bursts(pol, g) && forall i :: 0 <= i < |Values(g)| ==> Onto(pol, Values(g)[i])
    ensures Exceeds(pol, Values(g))
  {
    var a, b := Values(g.left), Values(g.right);
    assert forall i :: 0 <= i < |a| ==> Values(g)[i] == a[i];
    assert forall i :: 0 <= i < |b| ==> Values(g)[|a| + i] == b[i];
    if !Exceeds(pol, Values(g)) {
      if Bursts(pol, g.left) {
        BurstExceeds(pol, g.left);
        ExceedsMore(pol, a, b);
      } else {
        BurstExceeds(pol, g.right);
        ExceedsMore(pol, a, b);
      }
    }
  }

  lemma ExceedsMore<V>(pol: Policy<V>, a: seq<V>, b: seq<V>)
    requires Exceeds(pol, a) || Exceeds(pol, b)
    requires forall i :: 0 <= i < |a| ==> Onto(pol, a[i])
    ensures Exceeds(pol, a + b)
  {
    hide Total, FinalState, Onto;
    if |a + b| <= SIZE_MAX {
      if Exceeds(pol, a) {
        var s :| 0 <= s < pol.stateCount && Total(pol, a, s) > INT64_MAX;
        RunJoin(pol, a, b, s);
        assert Total(pol, a + b, s) > INT64_MAX;
      } else {
        var t :| 0 <= t < pol.stateCount && Total(pol, b, t) > INT64_MAX;
        OntoReaches(pol, a, t);
        var s: nat :| s < pol.stateCount && FinalState(pol, a, s) == t;
        RunJoin(pol, a, b, s);
        assert Total(pol, a + b, s) > INT64_MAX;
      }
    }
  }

  /** Any slice of at least two elements that exceeds makes the whole sequence exceed. */
  ghost predicate SlicesTell<V>(pol: Policy<V>, vs: seq<V>) {
    forall i, j :: 0 <= i && i + 2 <= j <= |vs| && Exceeds(pol, vs[i..j]) ==> Exceeds(pol, vs)
  }

  /** However the elements are grouped, the flag says whether the true totals exceed. */
  ghost predicate FlagTells<V(!new)>(pol: Policy<V>, vs: seq<V>) {
    forall g :: Sound(pol, g) && Values(g) == vs ==> (MeasureOf(pol, g).overflowed <==> Exceeds(pol, vs))
  }

  /** Fewer than two elements never exceed. */
  lemma ShortIsExact<V>(pol: Policy<V>, vs: seq<V>)
    requires AllInContract(pol, vs) && |vs| < 2
    ensures !Exceeds(pol, vs)
  {
    if vs != [] {
      NoBurstIsExact(pol, One(vs[0]));
      assert vs == [vs[0]];
    }
  }

  /** A tree bursts at some slice of its elements. */
  lemma {:induction false} BurstIsSlice<V>(pol: Policy<V>, g: Group<V>) returns (i: nat, j: nat)
    requires Sound(pol, g) && Bursts(pol, g)
    ensures i + 2 <= j <= |Values(g)| && Exceeds(pol, Values(g)[i..j])
  {
    var vs, a, b := Values(g), Values(g.left), Values(g.right);
    SoundValues(pol, g);
    if Exceeds(pol, vs) {
      i, j := 0, |vs|;
      assert vs[0..|vs|] == vs;
      if |vs| < 2 { ShortIsExact(pol, vs); }
    } else if Bursts(pol, g.left) {
      i, j := BurstIsSlice(pol, g.left);
      assert vs[i..j] == a[i..j];
    } else {
      i, j := BurstIsSlice(pol, g.right);
      assert vs[|a| + i..|a| + j] == b[i..j];
      i, j := |a| + i, |a| + j;
    }
  }

  /** The elements in one row, with every proper group ending at the last element. */
  ghost function Row<V>(vs: seq<V>): Group<V> {
    if vs == [] then Nil else Pair(One(vs[0]), Row(vs[1..]))
  }

  lemma {:induction false} RowFacts<V>(pol: Policy<V>, vs: seq<V>)
    requires AllInContract(pol, vs)
    ensures Values(Row(vs)) == vs && Sound(pol, Row(vs))
    ensures vs != [] && Exceeds(pol, vs) ==> Bursts(pol, Row(vs))
  {
    if vs != [] {
      RowFacts(pol, vs[1..]);
      assert vs == [vs[0]] + vs[1..];
    }
  }

  /** The flag is exact for every grouping exactly when no exceeding slice hides in a sequence that does not
      exceed. */
  lemma FlagTellsExactly<V(!new)>(pol: Policy<V>, vs: seq<V>)
    requires AllInContract(pol, vs)
    ensures FlagTells(pol, vs) <==> SlicesTell(pol, vs)
  {
    if SlicesTell(pol, vs) {
      forall g | Sound(pol, g) && Values(g) == vs ensures MeasureOf(pol, g).overflowed <==> Exceeds(pol, vs) {
        FlagIsBurst(pol, g);
        NoBurstIsExact(pol, g);
        if Bursts(pol, g) { var i, j := BurstIsSlice(pol, g); }
      }
    }
    if FlagTells(pol, vs) {
      forall i, j | 0 <= i && i + 2 <= j <= |vs| && Exceeds(pol, vs[i..j]) ensures Exceeds(pol, vs) {
        SliceGroup(pol, vs, i, j);
      }
    }
  }

  /** A grouping in which the given slice is a group. */
  lemma SliceGroup<V(!new)>(pol: Policy<V>, vs: seq<V>, i: nat, j: nat)
    requires AllInContract(pol, vs) && i + 2 <= j <= |vs| && Exceeds(pol, vs[i..j]) && FlagTells(pol, vs)
    ensures Exceeds(pol, vs)
  {
    var a, m, b := vs[..i], vs[i..j], vs[j..];
    RowFacts(pol, a);
    RowFacts(pol, m);
    RowFacts(pol, b);
    var g := Pair(Row(a), Pair(Row(m), Row(b)));
    assert vs == a + (m + b);
    assert Values(g) == vs && Sound(pol, g);
    FlagIsBurst(pol, g);
    hide Values, Sound, MeasureOf, Exceeds, Row;
    assert Bursts(pol, g.right);
  }

  // ----- Two groupings, two flags -----

  /** Two states. Element 0 always moves to state 0; in state 1, element 1 emits as much as fits and element 2
      emits one more. */
  const GATE: Policy<int> := Policy(2, (s: nat, v: int) =>
    Some(Effect(if v == 0 then 0 else s, if s != 1 || v == 0 then 0 else if v == 1 then INT64_MAX else 1)))

  lemma GateSteps(v: int, s: nat)
    requires s < 2
    ensures Answers(GATE, v, s) && InContract(GATE, v)
    ensures Next(GATE, v, s) == if v == 0 then 0 else s
    ensures Emitted(GATE, v, s) == if s != 1 || v == 0 then 0 else if v == 1 then INT64_MAX else 1
  {
    forall t: nat | t < 2 ensures Answers(GATE, v, t) {}
  }

  lemma GateTotals(s: nat)
    requires s < 2
    ensures Total(GATE, [0, 1], s) == 0 && Total(GATE, [0, 1, 2], s) == 0
    ensures s == 1 ==> Total(GATE, [1, 2], s) == INT64_MAX + 1
  {
    GateSteps(0, s);
    GateSteps(1, s);
    GateSteps(2, s);
    GateSteps(1, 0);
    GateSteps(2, 0);
    TwoSteps(GATE, 0, 1, s);
    TwoSteps(GATE, 1, 2, s);
    TwoSteps(GATE, 1, 2, 0);
    assert [0, 1, 2] == [0] + [1, 2];
    RunJoin(GATE, [0], [1, 2], s);
    TwoSteps(GATE, 0, 0, s);
    assert [0][1..] == [];
    assert Total(GATE, [0], s) == Emitted(GATE, 0, s) + Total(GATE, [], Next(GATE, 0, s));
    assert FinalState(GATE, [0], s) == FinalState(GATE, [], Next(GATE, 0, s));
  }

  lemma TwoSteps<V>(pol: Policy<V>, v: V, w: V, s: nat)
    ensures Total(pol, [v, w], s) == Emitted(pol, v, s) + Emitted(pol, w, Next(pol, v, s))
  {
    assert [v, w][1..] == [w] && [w][1..] == [];
    assert Total(pol, [w], Next(pol, v, s)) == Emitted(pol, w, Next(pol, v, s)) + Total(pol, [], Next(pol, w, Next(pol, v, s)));
  }

  const LEFT_FIRST: Group<int> := Pair(Pair(One(0), One(1)), One(2))
  const RIGHT_FIRST: Group<int> := Pair(One(0), Pair(One(1), One(2)))

  lemma GateGroups()
    ensures Sound(GATE, LEFT_FIRST) && Sound(GATE, RIGHT_FIRST)
    ensures Values(LEFT_FIRST) == [0, 1, 2] && Values(RIGHT_FIRST) == [0, 1, 2]
    ensures Values(LEFT_FIRST.left) == [0, 1] && Values(RIGHT_FIRST.right) == [1, 2]
  {
    GateSteps(0, 0);
    GateSteps(1, 0);
    GateSteps(2, 0);
  }

  lemma GateExceeds()
    ensures !Exceeds(GATE, [0, 1]) && !Exceeds(GATE, [0, 1, 2]) && Exceeds(GATE, [1, 2])
  {
    hide Total;
    forall s | 0 <= s < 2 ensures Total(GATE, [0, 1], s) == 0 && Total(GATE, [0, 1, 2], s) == 0 { GateTotals(s); }
    GateTotals(1);
    assert Total(GATE, [1, 2], 1) > INT64_MAX;
  }

  lemma SummaryIsDetermined<V>(pol: Policy<V>, vs: seq<V>, l: Measure, r: Measure)
    requires Summarizes(pol, vs, l) && Summarizes(pol, vs, r)
    ensures SameTables(l, r)
  {
  }

  /** The same elements grouped in two ways: same tables, different flags. No start state overflows. */
  lemma GroupingsDisagree()
    ensures Sound(GATE, LEFT_FIRST) && Sound(GATE, RIGHT_FIRST) && Values(LEFT_FIRST) == Values(RIGHT_FIRST)
    ensures SameTables(MeasureOf(GATE, LEFT_FIRST), MeasureOf(GATE, RIGHT_FIRST))
    ensures !Exceeds(GATE, Values(RIGHT_FIRST))
    ensures !MeasureOf(GATE, LEFT_FIRST).overflowed && MeasureOf(GATE, RIGHT_FIRST).overflowed
  {
    GateGroups();
    GateExceeds();
    assert LEFT_FIRST.Pair? && LEFT_FIRST.left.Pair? && RIGHT_FIRST.Pair? && RIGHT_FIRST.right.Pair?;
    assert !Bursts(GATE, LEFT_FIRST) && Bursts(GATE, RIGHT_FIRST) by {
      hide Exceeds, Values, Sound;
      assert Bursts(GATE, RIGHT_FIRST.right);
      assert !Bursts(GATE, LEFT_FIRST.left);
    }
    hide *;
    FlagIsBurst(GATE, LEFT_FIRST);
    FlagIsBurst(GATE, RIGHT_FIRST);
    SummaryIsSaturatedRun(GATE, LEFT_FIRST);
    SummaryIsSaturatedRun(GATE, RIGHT_FIRST);
    SummaryIsDetermined(GATE, [0, 1, 2], MeasureOf(GATE, LEFT_FIRST), MeasureOf(GATE, RIGHT_FIRST));
  }

  // ----- Locating an element -----

  datatype Located<V> = Located(before: Measure, value: V)

  /** Descends to the element at which the predicate first holds of the running measure. */
  ghost function Locate<V>(pol: Policy<V>, g: Group<V>, before: Measure, p: Measure -> bool): Option<Located<V>>
    requires Sound(pol, g) && Tables(pol.stateCount, before)
  {
    match g
    case Nil => None
    case One(v) => Some(Located(before, v))
    case Pair(l, r) =>
      var m := Join(pol.stateCount, before, MeasureOf(pol, l));
      if p(m) then Locate(pol, l, before, p) else Locate(pol, r, m, p)
  }

  /** The found element is the one at index k: the predicate fails of what precedes it and holds with it. */
  ghost predicate FoundAt<V>(pol: Policy<V>, vs: seq<V>, p: Measure -> bool, k: nat, found: Located<V>) {
    && k < |vs| && found.value == vs[k] && InContract(pol, vs[k])
    && Tables(pol.stateCount, found.before) && Tables(pol.stateCount, Leaf(pol, vs[k]))
    && Summarizes(pol, vs[..k], found.before) && !p(found.before)
    && exists m :: Tables(pol.stateCount, m) && Summarizes(pol, vs[..k + 1], m) && p(m)
  }

  /** The predicate looks only at the tables. */
  ghost predicate Extensional(p: Measure -> bool) {
    forall l, m :: SameTables(l, m) ==> p(l) == p(m)
  }

  lemma EmptyChangesNothing<V>(pol: Policy<V>, g: Group<V>, past: seq<V>, before: Measure, p: Measure -> bool, after: Measure)
    requires Summarizes(pol, past, before) && Summarizes(pol, past + Values(g), after) && Extensional(p)
    ensures g.Nil? ==> p(before) == p(after)
  {
    if g.Nil? {
      assert past + [] == past;
      SummaryIsDetermined(pol, past, before, after);
    }
  }

  lemma {:induction false} LocateFacts<V(!new)>(pol: Policy<V>, g: Group<V>, past: seq<V>, before: Measure, p: Measure -> bool, after: Measure)
    returns (k: nat)
    requires Sound(pol, g) && Tables(pol.stateCount, before) && Summarizes(pol, past, before) && Extensional(p)
    requires Tables(pol.stateCount, after) && Summarizes(pol, past + Values(g), after) && !p(before) && p(after)
    ensures Locate(pol, g, before, p).Some? && FoundAt(pol, past + Values(g), p, k, Locate(pol, g, before, p).value)
    decreases g
  {
    k := 0;
    EmptyChangesNothing(pol, g, past, before, p, after);
    match g
    case Nil =>
    case One(v) =>
      k := |past|;
      var vs := past + [v];
      assert vs[..k] == past && vs[..k + 1] == vs;
      LeafTables(pol, v);
    case Pair(l, r) =>
      var m := Join(pol.stateCount, before, MeasureOf(pol, l));
      SummaryIsSaturatedRun(pol, l);
      JoinSummarizes(pol, past, Values(l), before, MeasureOf(pol, l), m);
      assert past + Values(g) == past + Values(l) + Values(r);
      if p(m) {
        k := LocateFacts(pol, l, past, before, p, m);
        FoundMore(pol, past + Values(l), Values(r), p, k, Locate(pol, l, before, p).value);
      } else {
        k := LocateFacts(pol, r, past + Values(l), m, p, after);
      }
  }

  lemma FoundMore<V>(pol: Policy<V>, vs: seq<V>, more: seq<V>, p: Measure -> bool, k: nat, found: Located<V>)
    requires FoundAt(pol, vs, p, k, found)
    ensures FoundAt(pol, vs + more, p, k, found)
  {
    assert (vs + more)[..k] == vs[..k] && (vs + more)[..k + 1] == vs[..k + 1];
  }

  // ----- Prefixes and event selection -----

  ghost predicate Clear<V>(pol: Policy<V>, g: Group<V>) {
    Sound(pol, g) && !MeasureOf(pol, g).overflowed
  }

  /** A new version is published unless the flag of its root is set. */
  ghost function Publish<V>(pol: Policy<V>, g: Group<V>): Reply<Group<V>>
    requires Sound(pol, g)
  {
    if MeasureOf(pol, g).overflowed then Overflow else Reply(g)
  }

  /** No slice of a published version exceeds along its own grouping, so every prefix total fits; a refused one holds a
      slice of at least two elements that exceeds. */
  lemma PublishIsSafe<V>(pol: Policy<V>, g: Group<V>)
    requires Sound(pol, g)
    ensures var vs := Values(g);
      match Publish(pol, g)
      case Reply(h) =>
        h == g && Clear(pol, g) && forall k: nat, s: nat :: k <= |vs| && s < pol.stateCount ==> Rank(pol, vs, k, s) <= INT64_MAX
      case Overflow => exists i: nat, j: nat :: i + 2 <= j <= |vs| && Exceeds(pol, vs[i..j])
      case _ => false
  {
    var vs := Values(g);
    FlagIsBurst(pol, g);
    if Bursts(pol, g) {
      var i, j := BurstIsSlice(pol, g);
    } else {
      forall k: nat, s: nat | k <= |vs| && s < pol.stateCount ensures Rank(pol, vs, k, s) <= INT64_MAX {
        NoBurstIsExact(pol, g);
        PrefixTotals(pol, vs, k, s);
      }
    }
  }

  /** What a query hands back. */
  datatype Reply<T> = Reply(value: T) | OutOfRange | Overflow | Inconsistent

  lemma PrefixTotals<V>(pol: Policy<V>, vs: seq<V>, k: nat, s: nat)
    requires k <= |vs|
    ensures Total(pol, vs, s) == Total(pol, vs[..k], s) + Total(pol, vs[k..], FinalState(pol, vs[..k], s))
  {
    RunJoin(pol, vs[..k], vs[k..], s);
    assert vs == vs[..k] + vs[k..];
  }

  /** How many events the first k elements emit. */
  ghost function Rank<V>(pol: Policy<V>, vs: seq<V>, k: nat, s: nat): nat
    requires k <= |vs|
  {
    Total(pol, vs[..k], s)
  }

  lemma RankStep<V>(pol: Policy<V>, vs: seq<V>, k: nat, s: nat)
    requires k < |vs|
    ensures Rank(pol, vs, k + 1, s) == Rank(pol, vs, k, s) + Emitted(pol, vs[k], FinalState(pol, vs[..k], s))
    ensures FinalState(pol, vs[..k + 1], s) == Next(pol, vs[k], FinalState(pol, vs[..k], s))
  {
    var v := vs[k];
    var t := FinalState(pol, vs[..k], s);
    RunJoin(pol, vs[..k], [v], s);
    assert vs[..k + 1] == vs[..k] + [v];
    assert [v][1..] == [];
    assert Total(pol, [v], t) == Emitted(pol, v, t) + Total(pol, [], Next(pol, v, t));
    assert FinalState(pol, [v], t) == FinalState(pol, [], Next(pol, v, t));
  }

  lemma {:induction false} RankIsMonotone<V>(pol: Policy<V>, vs: seq<V>, j: nat, k: nat, s: nat)
    requires j <= k <= |vs|
    ensures Rank(pol, vs, j, s) <= Rank(pol, vs, k, s)
    decreases k
  {
    if j < k {
      RankStep(pol, vs, k - 1, s);
      RankIsMonotone(pol, vs, j, k - 1, s);
    }
  }

  /** Under a clear root flag, no prefix saturates. */
  lemma PrefixIsExact<V>(pol: Policy<V>, g: Group<V>, k: nat, m: Measure, s: nat)
    requires Clear(pol, g) && k <= |Values(g)| && Summarizes(pol, Values(g)[..k], m) && s < pol.stateCount
    ensures m.events[s] == Rank(pol, Values(g), k, s) <= INT64_MAX
    ensures m.states[s] == FinalState(pol, Values(g)[..k], s) && m.count == k
  {
    ClearIsExact(pol, g, s);
    FlagIsBurst(pol, g);
    NoBurstIsExact(pol, g);
    var vs := Values(g);
    PrefixTotals(pol, vs, k, s);
    hide FinalState, Total, MeasureOf, Bursts, Sound;
  }

  datatype Location = Location(
    elementIndex: nat, eventIndexInElement: int, stateBefore: nat, stateAfter: nat, elementEventCount: nat)

  function PastEvent(s: nat, eventIndex: int): Measure -> bool {
    (m: Measure) => s < |m.events| && m.events[s] > eventIndex
  }

  ghost function TrySelectEvent<V>(pol: Policy<V>, g: Group<V>, eventIndex: int, s: nat): Reply<Option<Location>>
    requires Sound(pol, g)
  {
    if s >= pol.stateCount then OutOfRange
    else
      var total := MeasureOf(pol, g).events[s];
      if eventIndex < 0 || eventIndex >= total then Reply(None)
      else
        var located := Locate(pol, g, Identity(pol.stateCount), PastEvent(s, eventIndex));
        if located.None? then Inconsistent
        else
          var Located(before, v) := located.value;
          if s >= |before.states| || s >= |before.events| then Inconsistent
          else
            var t := before.states[s];
            Reply(Some(Location(before.count, eventIndex - before.events[s], t, Next(pol, v, t), Emitted(pol, v, t))))
  }

  /** Selection finds an event exactly when there is one, and then the one element and offset that agree with
      the event rank, with the states around it. */
  lemma SelectIsExact<V(!new)>(pol: Policy<V>, g: Group<V>, eventIndex: int, s: nat)
    requires Clear(pol, g)
    ensures var vs, reply := Values(g), TrySelectEvent(pol, g, eventIndex, s);
      if s >= pol.stateCount then reply == OutOfRange
      else
        && reply.Reply? && (reply.value.Some? <==> 0 <= eventIndex < Total(pol, vs, s))
        && (reply.value.Some? ==>
              var Location(i, offset, before, after, emitted) := reply.value.value;
              && i < |vs| && Rank(pol, vs, i, s) + offset == eventIndex && 0 <= offset < emitted
              && before == FinalState(pol, vs[..i], s) && after == FinalState(pol, vs[..i + 1], s)
              && emitted == Rank(pol, vs, i + 1, s) - Rank(pol, vs, i, s))
  {
    hide FinalState, Total, MeasureOf, Locate, Sound, Values, Rank, PastEvent, Identity, Next, Emitted;
    if s < pol.stateCount {
      ClearIsExact(pol, g, s);
      if 0 <= eventIndex < Total(pol, Values(g), s) {
        var k := LocateEvent(pol, g, eventIndex, s);
        RankStep(pol, Values(g), k, s);
      }
    }
  }

  lemma LocateEvent<V(!new)>(pol: Policy<V>, g: Group<V>, eventIndex: int, s: nat) returns (k: nat)
    requires Clear(pol, g) && s < pol.stateCount && 0 <= eventIndex < Total(pol, Values(g), s)
    ensures Sound(pol, g) && Tables(pol.stateCount, Identity(pol.stateCount)) && k < |Values(g)|
    ensures Rank(pol, Values(g), k, s) <= eventIndex < Rank(pol, Values(g), k + 1, s)
    ensures var located := Locate(pol, g, Identity(pol.stateCount), PastEvent(s, eventIndex));
      && located.Some? && located.value.value == Values(g)[k]
      && |located.value.before.states| == |located.value.before.events| == pol.stateCount
      && located.value.before.states[s] == FinalState(pol, Values(g)[..k], s)
      && located.value.before.events[s] == Rank(pol, Values(g), k, s) && located.value.before.count == k
  {
    hide *;
    var vs, none, p := Values(g), Identity(pol.stateCount), PastEvent(s, eventIndex);
    ClearFacts(pol, g);
    ClearIsExact(pol, g, s);
    SummaryIsSaturatedRun(pol, g);
    NothingYet(pol, s);
    PastEventFacts(s, eventIndex, none);
    PastEventFacts(s, eventIndex, MeasureOf(pol, g));
    assert [] + vs == vs;
    k := LocateFacts(pol, g, [], none, p, MeasureOf(pol, g));
    var found := Locate(pol, g, none, p).value;
    var m := FoundParts(pol, vs, p, k, found);
    PastEventFacts(s, eventIndex, found.before);
    PastEventFacts(s, eventIndex, m);
    PrefixIsExact(pol, g, k, found.before, s);
    PrefixIsExact(pol, g, k + 1, m, s);
  }

  lemma PastEventFacts(s: nat, eventIndex: int, m: Measure)
    ensures Extensional(PastEvent(s, eventIndex))
    ensures PastEvent(s, eventIndex)(m) <==> s < |m.events| && m.events[s] > eventIndex
  {
  }

  lemma NothingYet<V>(pol: Policy<V>, s: nat)
    requires s < pol.stateCount
    ensures Tables(pol.stateCount, Identity(pol.stateCount)) && Summarizes(pol, [], Identity(pol.stateCount))
    ensures |Identity(pol.stateCount).events| == pol.stateCount
    ensures Identity(pol.stateCount).events[s] == 0 && Identity(pol.stateCount).count == 0
  {
  }

  /** Only one element can hold an event. */
  lemma SelectionIsUnique<V>(pol: Policy<V>, vs: seq<V>, i: nat, j: nat, eventIndex: int, s: nat)
    requires i < |vs| && j < |vs|
    requires Rank(pol, vs, i, s) <= eventIndex < Rank(pol, vs, i + 1, s)
    requires Rank(pol, vs, j, s) <= eventIndex < Rank(pol, vs, j + 1, s)
    ensures i == j
  {
    if i < j { RankIsMonotone(pol, vs, i + 1, j, s); }
    if j < i { RankIsMonotone(pol, vs, j + 1, i, s); }
  }

  function MoreThan(k: nat): Measure -> bool {
    (m: Measure) => m.count > k
  }

  /** The final state and event count of the first k elements. */
  ghost function EvaluatePrefix<V>(pol: Policy<V>, g: Group<V>, k: nat, s: nat): Reply<(nat, nat)>
    requires Sound(pol, g)
  {
    if s >= pol.stateCount || k > |Values(g)| then OutOfRange
    else if k == 0 then Reply((s, 0))
    else if k == |Values(g)| then Reply((MeasureOf(pol, g).states[s], MeasureOf(pol, g).events[s]))
    else
      var located := Locate(pol, g, Identity(pol.stateCount), MoreThan(k));
      if located.None? || s >= |located.value.before.states| || s >= |located.value.before.events| then Inconsistent
      else Reply((located.value.before.states[s], located.value.before.events[s]))
  }

  /** Every prefix answer is what running the machine over that prefix gives. */
  lemma PrefixAnswerIsExact<V(!new)>(pol: Policy<V>, g: Group<V>, k: nat, s: nat)
    requires Clear(pol, g)
    ensures EvaluatePrefix(pol, g, k, s) ==
      if s >= pol.stateCount || k > |Values(g)| then OutOfRange
      else Reply((FinalState(pol, Values(g)[..k], s), Rank(pol, Values(g), k, s)))
  {
    var vs := Values(g);
    if s < pol.stateCount { ClearIsExact(pol, g, s); }
    if s >= pol.stateCount || k > |vs| {
    } else if k == 0 {
      assert vs[..0] == [];
    } else if k == |vs| {
      assert vs[..k] == vs;
    } else {
      InnerPrefix(pol, g, k, s);
    }
  }

  lemma InnerPrefix<V(!new)>(pol: Policy<V>, g: Group<V>, k: nat, s: nat)
    requires Clear(pol, g) && s < pol.stateCount && 0 < k < |Values(g)|
    ensures Tables(pol.stateCount, Identity(pol.stateCount))
    ensures var located := Locate(pol, g, Identity(pol.stateCount), MoreThan(k));
      && located.Some? && |located.value.before.states| == |located.value.before.events| == pol.stateCount
      && located.value.before.states[s] == FinalState(pol, Values(g)[..k], s)
      && located.value.before.events[s] == Rank(pol, Values(g), k, s)
  {
    hide *;
    var vs, none, p := Values(g), Identity(pol.stateCount), MoreThan(k);
    ClearFacts(pol, g);
    ClearIsExact(pol, g, s);
    SummaryIsSaturatedRun(pol, g);
    NothingYet(pol, s);
    MoreThanFacts(k, none);
    MoreThanFacts(k, MeasureOf(pol, g));
    assert [] + vs == vs;
    var i := LocateFacts(pol, g, [], none, p, MeasureOf(pol, g));
    var found := Locate(pol, g, none, p).value;
    var m := FoundParts(pol, vs, p, i, found);
    MoreThanFacts(k, found.before);
    MoreThanFacts(k, m);
    PrefixIsExact(pol, g, i, found.before, s);
    PrefixIsExact(pol, g, i + 1, m, s);
  }

  lemma ClearFacts<V>(pol: Policy<V>, g: Group<V>)
    requires Clear(pol, g)
    ensures Sound(pol, g) && !MeasureOf(pol, g).overflowed
  {
  }

  lemma MoreThanFacts(k: nat, m: Measure)
    ensures Extensional(MoreThan(k)) && (MoreThan(k)(m) <==> m.count > k)
  {
  }

  lemma FoundParts<V>(pol: Policy<V>, vs: seq<V>, p: Measure -> bool, k: nat, found: Located<V>) returns (m: Measure)
    requires FoundAt(pol, vs, p, k, found)
    ensures k < |vs| && found.value == vs[k] && |found.before.events| == |found.before.states| == pol.stateCount
    ensures Summarizes(pol, vs[..k], found.before) && !p(found.before) && Summarizes(pol, vs[..k + 1], m) && p(m)
  {
    m :| Tables(pol.stateCount, m) && Summarizes(pol, vs[..k + 1], m) && p(m);
  }
}
