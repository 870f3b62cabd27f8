/** The delta map: a sorted map, the checkpoint it departed from, and an index of the net changes between them.
    Value equality is a supplied equivalence, so the index is exact modulo that equivalence. */
module DeltaMap {
  import opened Comparisons
  import opened Options
  import opened KeyOrder
  import opened SortedEntries
  import opened WeightBalanced
  import opened OrderedIndex

  datatype Entry<K, V> = Entry(key: K, value: V)

  datatype Change<K, V> = Change(key: K, before: Option<V>, after: Option<V>)

  datatype Policy<!K, !V> = Policy(cmp: (K, K) -> int, equal: (V, V) -> bool)
  {
    function Entries(): Order<Entry<K, V>, K> {
      Order((e: Entry<K, V>) => e.key, cmp)
    }

    function Changes(): Order<Change<K, V>, K> {
      Order((c: Change<K, V>) => c.key, cmp)
    }

    predicate Tied(a: K, b: K) {
      cmp(a, b) == 0
    }
  }

  /** Keys form a total preorder and value equality is an equivalence. */
  ghost predicate LawfulPolicy<K(!new), V(!new)>(pol: Policy<K, V>) {
    && Lawful(pol.Entries()) && Lawful(pol.Changes())
    && (forall x {:trigger pol.equal(x, x)} :: pol.equal(x, x))
    && (forall x, y {:trigger pol.equal(x, y)} :: pol.equal(x, y) ==> pol.equal(y, x))
    && (forall x, y, z {:trigger pol.equal(x, y), pol.equal(y, z)} :: pol.equal(x, y) && pol.equal(y, z) ==> pol.equal(x, z))
  }

  datatype Map<K, V> = Map(current: Tree<Entry<K, V>>, checkpoint: Tree<Entry<K, V>>, changes: Tree<Change<K, V>>)

  // ----- The operations -----

  ghost predicate Trees<K, V>(pol: Policy<K, V>, m: Map<K, V>) {
    Valid(pol.Entries(), m.current) && Valid(pol.Entries(), m.checkpoint) && Valid(pol.Changes(), m.changes)
  }

  /** An emptied change index snaps the current root back to the checkpoint root. */
  function Adopt<K, V>(m: Map<K, V>, current: Tree<Entry<K, V>>, changes: Tree<Change<K, V>>): Map<K, V> {
    Map(if changes.Nil? then m.checkpoint else current, m.checkpoint, changes)
  }

  function SetItem<K, V>(pol: Policy<K, V>, m: Map<K, V>, key: K, value: V): Map<K, V>
    requires Balanced(m.current) && Balanced(m.changes)
  {
    var now := Find(pol.Entries(), m.current, key);
    if now.Some? && pol.equal(now.value.value, value) then m
    else
      var change := Find(pol.Changes(), m.changes, key);
      var rep := if now.Some? then now.value.key else if change.Some? then change.value.key else key;
      var before := if change.Some? then change.value.before else if now.Some? then Some(now.value.value) else None;
      var current := Set(pol.Entries(), m.current, Entry(rep, value));
      var changes :=
        if before.Some? && pol.equal(before.value, value) then Remove(pol.Changes(), false, m.changes, rep)
        else Set(pol.Changes(), m.changes, Change(rep, before, Some(value)));
      Adopt(m, current, changes)
  }

  function RemoveItem<K, V>(pol: Policy<K, V>, m: Map<K, V>, key: K): Map<K, V>
    requires Balanced(m.current) && Balanced(m.changes)
  {
    var now := Find(pol.Entries(), m.current, key);
    if now.None? then m
    else
      var change := Find(pol.Changes(), m.changes, key);
      var rep := if change.Some? then change.value.key else now.value.key;
      var before := if change.Some? then change.value.before else Some(now.value.value);
      var current := Remove(pol.Entries(), false, m.current, key);
      var changes :=
        if before.None? then Remove(pol.Changes(), false, m.changes, rep)
        else Set(pol.Changes(), m.changes, Change(rep, before, None));
      Adopt(m, current, changes)
  }

  function Checkpoint<K, V>(m: Map<K, V>): Map<K, V> {
    Map(m.current, m.current, Nil)
  }

  function Rollback<K, V>(m: Map<K, V>): Map<K, V> {
    Map(m.checkpoint, m.checkpoint, Nil)
  }

  // ----- The change index is exact -----

  function ValueOf<K, V>(e: Option<Entry<K, V>>): Option<V> {
    if e.Some? then Some(e.value.value) else None
  }

  predicate SameValue<K, V>(pol: Policy<K, V>, a: Option<V>, b: Option<V>) {
    if a.Some? && b.Some? then pol.equal(a.value, b.value) else a.None? && b.None?
  }

  /** What the three lookups of one key say together. */
  ghost predicate ExactAt<K, V>(
    pol: Policy<K, V>, now: Option<Entry<K, V>>, then_: Option<Entry<K, V>>, change: Option<Change<K, V>>)
  {
    && (change.Some? <==> !SameValue(pol, ValueOf(then_), ValueOf(now)))
    && (change.Some? ==> SameValue(pol, ValueOf(then_), change.value.before) && change.value.after == ValueOf(now))
    && (now.Some? && then_.Some? ==> now.value.key == then_.value.key)
    && (change.Some? && then_.Some? ==> change.value.key == then_.value.key)
    && (change.Some? && now.Some? ==> change.value.key == now.value.key)
  }

  ghost predicate Exact<K(!new), V>(pol: Policy<K, V>, m: Map<K, V>) {
    && Trees(pol, m)
    && (m.changes.Nil? ==> m.current == m.checkpoint)
    && (forall k :: ExactAt(pol, Now(pol, m, k), Then(pol, m, k), ChangeOf(pol, m, k)))
  }

  function Now<K, V>(pol: Policy<K, V>, m: Map<K, V>, k: K): Option<Entry<K, V>> {
    Find(pol.Entries(), m.current, k)
  }

  function Then<K, V>(pol: Policy<K, V>, m: Map<K, V>, k: K): Option<Entry<K, V>> {
    Find(pol.Entries(), m.checkpoint, k)
  }

  function ChangeOf<K, V>(pol: Policy<K, V>, m: Map<K, V>, k: K): Option<Change<K, V>> {
    Find(pol.Changes(), m.changes, k)
  }

  // ----- One key -----

  lemma EqualFacts<K(!new), V(!new)>(pol: Policy<K, V>, a: Option<V>, b: Option<V>, c: Option<V>)
    requires LawfulPolicy(pol)
    ensures SameValue(pol, a, a)
    ensures SameValue(pol, a, b) ==> SameValue(pol, b, a)
    ensures SameValue(pol, a, b) && SameValue(pol, b, c) ==> SameValue(pol, a, c)
  {
  }

  /** The record a write leaves for its own class. */
  lemma WriteAt<K(!new), V(!new)>(
    pol: Policy<K, V>, now: Option<Entry<K, V>>, then_: Option<Entry<K, V>>, change: Option<Change<K, V>>, key: K, value: V)
    requires LawfulPolicy(pol) && ExactAt(pol, now, then_, change)
    ensures var rep := if now.Some? then now.value.key else if change.Some? then change.value.key else key;
      var before := if change.Some? then change.value.before else ValueOf(now);
      if before.Some? && pol.equal(before.value, value) then ExactAt(pol, Some(Entry(rep, value)), then_, None)
      else ExactAt(pol, Some(Entry(rep, value)), then_, Some(Change(rep, before, Some(value))))
  {
    var before := if change.Some? then change.value.before else ValueOf(now);
    hide LawfulPolicy;
    EqualFacts(pol, ValueOf(then_), before, Some(value));
    EqualFacts(pol, before, ValueOf(then_), Some(value));
    EqualFacts(pol, ValueOf(then_), ValueOf(now), before);
  }

  lemma EraseAt<K(!new), V(!new)>(
    pol: Policy<K, V>, now: Option<Entry<K, V>>, then_: Option<Entry<K, V>>, change: Option<Change<K, V>>)
    requires LawfulPolicy(pol) && ExactAt(pol, now, then_, change) && now.Some?
    ensures var rep := if change.Some? then change.value.key else now.value.key;
      var before := if change.Some? then change.value.before else ValueOf(now);
      if before.None? then ExactAt(pol, None, then_, None)
      else ExactAt(pol, None, then_, Some(Change(rep, before, None)))
  {
    var before := if change.Some? then change.value.before else ValueOf(now);
    hide LawfulPolicy;
    EqualFacts(pol, ValueOf(then_), ValueOf(now), before);
    EqualFacts(pol, ValueOf(then_), before, before);
  }

  // ----- Lookups by class -----

  lemma FindTied<E(!new), K(!new)>(ord: Order<E, K>, t: Tree<E>, k: K, k': K)
    requires Lawful(ord) && Valid(ord, t) && ord.Tied(k, k')
    ensures Find(ord, t, k) == Find(ord, t, k')
  {
    hide TotalPreorder, Valid, Find;
    var f, g := Find(ord, t, k), Find(ord, t, k');
    if f.Some? {
      FindFacts(ord, t, k, f.value);
      FindFacts(ord, t, k', f.value);
      OrderFacts(ord.cmp, k, k', ord.key(f.value));
      OrderFacts(ord.cmp, k', k, ord.key(f.value));
    }
    if g.Some? {
      FindFacts(ord, t, k', g.value);
      FindFacts(ord, t, k, g.value);
      OrderFacts(ord.cmp, k, k', ord.key(g.value));
    }
  }

  lemma FoundIsTied<E(!new), K(!new)>(ord: Order<E, K>, t: Tree<E>, k: K)
    requires Lawful(ord) && Valid(ord, t)
    ensures Find(ord, t, k).Some? ==> ord.Tied(k, ord.key(Find(ord, t, k).value))
  {
    if Find(ord, t, k).Some? { FindFacts(ord, t, k, Find(ord, t, k).value); }
  }

  /** The snap-back keeps the index exact. */
  lemma AdoptIsExact<K(!new), V(!new)>(pol: Policy<K, V>, m: Map<K, V>, current: Tree<Entry<K, V>>, changes: Tree<Change<K, V>>)
    requires LawfulPolicy(pol) && Exact(pol, m)
    requires Valid(pol.Entries(), current) && Valid(pol.Changes(), changes)
    requires forall k :: ExactAt(pol, Find(pol.Entries(), current, k), Then(pol, m, k), Find(pol.Changes(), changes, k))
    ensures Exact(pol, Adopt(m, current, changes))
  {
    hide Valid;
    var m' := Adopt(m, current, changes);
    forall k ensures ExactAt(pol, Now(pol, m', k), Then(pol, m', k), ChangeOf(pol, m', k)) {
      EqualFacts(pol, ValueOf(Then(pol, m, k)), None, None);
    }
  }

  lemma TiedFacts<K(!new), V(!new)>(pol: Policy<K, V>, x: K, y: K, z: K)
    requires LawfulPolicy(pol)
    ensures pol.Tied(x, x) && (pol.Tied(x, y) <==> pol.Tied(y, x))
    ensures pol.Tied(x, y) && pol.Tied(y, z) ==> pol.Tied(x, z)
    ensures pol.Tied(x, y) <==> pol.Entries().Tied(x, y)
    ensures pol.Tied(x, y) <==> pol.Changes().Tied(x, y)
  {
    OrderFacts(pol.cmp, x, y, z);
  }

  /** The three lookups of a key, which depend only on its class. */
  lemma ClassLookups<K(!new), V(!new)>(pol: Policy<K, V>, m: Map<K, V>, k: K, k': K)
    requires LawfulPolicy(pol) && Trees(pol, m)
    ensures pol.Tied(k, k') ==>
      Now(pol, m, k) == Now(pol, m, k') && Then(pol, m, k) == Then(pol, m, k') && ChangeOf(pol, m, k) == ChangeOf(pol, m, k')
    ensures Now(pol, m, k).Some? ==> pol.Tied(k, Now(pol, m, k).value.key)
    ensures ChangeOf(pol, m, k).Some? ==> pol.Tied(k, ChangeOf(pol, m, k).value.key)
  {
    hide Valid, TotalPreorder, Find;
    FoundIsTied(pol.Entries(), m.current, k);
    FoundIsTied(pol.Changes(), m.changes, k);
    if pol.Tied(k, k') {
      FindTied(pol.Entries(), m.current, k, k');
      FindTied(pol.Entries(), m.checkpoint, k, k');
      FindTied(pol.Changes(), m.changes, k, k');
    }
  }

  /** What one edit of the two trees does to the lookups of every key. */
  lemma EditLookups<K(!new), V(!new)>(
    pol: Policy<K, V>, m: Map<K, V>, entry: Entry<K, V>, change: Change<K, V>, k: K)
    requires LawfulPolicy(pol) && Trees(pol, m)
    ensures var entries, changes := pol.Entries(), pol.Changes();
      && Valid(entries, Set(entries, m.current, entry)) && Valid(entries, Remove(entries, false, m.current, entry.key))
      && Valid(changes, Set(changes, m.changes, change)) && Valid(changes, Remove(changes, false, m.changes, change.key))
      && Find(entries, Set(entries, m.current, entry), k) == (if pol.Tied(k, entry.key) then Some(entry) else Now(pol, m, k))
      && Find(entries, Remove(entries, false, m.current, entry.key), k)
         == (if pol.Tied(k, entry.key) then None else Now(pol, m, k))
      && Find(changes, Set(changes, m.changes, change), k)
         == (if pol.Tied(k, change.key) then Some(change) else ChangeOf(pol, m, k))
      && Find(changes, Remove(changes, false, m.changes, change.key), k)
         == (if pol.Tied(k, change.key) then None else ChangeOf(pol, m, k))
  {
    hide TotalPreorder, Find, Set, Remove, Sorted;
    FindAfterSet(pol.Entries(), m.current, entry, k);
    FindAfterRemove(pol.Entries(), false, m.current, entry, k);
    FindAfterSet(pol.Changes(), m.changes, change, k);
    FindAfterRemove(pol.Changes(), false, m.changes, change, k);
  }

  // ----- The operations keep the index exact -----

  /** Reading the new value back, and every other class unchanged, modulo value equality. */
  ghost predicate Writes<K(!new), V>(pol: Policy<K, V>, m: Map<K, V>, m': Map<K, V>, key: K, value: Option<V>) {
    && m'.checkpoint == m.checkpoint
    && forall k ::
         SameValue(pol, ValueOf(Now(pol, m', k)), if pol.Tied(k, key) then value else ValueOf(Now(pol, m, k)))
  }

  lemma SetItemIsExact<K(!new), V(!new)>(pol: Policy<K, V>, m: Map<K, V>, key: K, value: V)
    requires LawfulPolicy(pol) && Exact(pol, m)
    ensures Exact(pol, SetItem(pol, m, key, value))
    ensures Writes(pol, m, SetItem(pol, m, key, value), key, Some(value))
  {
    var now, change := Now(pol, m, key), ChangeOf(pol, m, key);
    if now.Some? && pol.equal(now.value.value, value) {
      hide TotalPreorder, Find, Set, Remove, Valid;
      forall k ensures SameValue(pol, ValueOf(Now(pol, m, k)), if pol.Tied(k, key) then Some(value) else ValueOf(Now(pol, m, k))) {
        EqualFacts(pol, ValueOf(Now(pol, m, k)), None, None);
        ClassLookups(pol, m, k, key);
      }
    } else {
      var rep := if now.Some? then now.value.key else if change.Some? then change.value.key else key;
      var before := if change.Some? then change.value.before else ValueOf(now);
      var entry, record := Entry(rep, value), Change(rep, before, Some(value));
      var cancels := before.Some? && pol.equal(before.value, value);
      var current := Set(pol.Entries(), m.current, entry);
      var changes := if cancels then Remove(pol.Changes(), false, m.changes, rep) else Set(pol.Changes(), m.changes, record);
      assert SetItem(pol, m, key, value) == Adopt(m, current, changes);
      hide TotalPreorder, LawfulPolicy, Find, Set, Remove, Valid, ExactAt, SetItem, Now, Then, ChangeOf;
      assert pol.Tied(key, rep) by {
        ClassLookups(pol, m, key, key);
        TiedFacts(pol, key, key, key);
      }
      forall k ensures ExactAt(pol, Find(pol.Entries(), current, k), Then(pol, m, k), Find(pol.Changes(), changes, k))
               ensures Find(pol.Entries(), current, k) == if pol.Tied(k, key) then Some(entry) else Now(pol, m, k)
      {
        EditLookups(pol, m, entry, record, k);
        TiedFacts(pol, k, key, rep);
        TiedFacts(pol, k, rep, key);
        TiedFacts(pol, key, rep, k);
        if pol.Tied(k, rep) {
          ClassLookups(pol, m, k, key);
          WriteAt(pol, now, Then(pol, m, key), change, key, value);
        }
      }
      EditLookups(pol, m, entry, record, key);
      FinishWrite(pol, m, current, changes, key, Some(entry));
    }
  }

  lemma FinishWrite<K(!new), V(!new)>(
    pol: Policy<K, V>, m: Map<K, V>, current: Tree<Entry<K, V>>, changes: Tree<Change<K, V>>, key: K, entry: Option<Entry<K, V>>)
    requires LawfulPolicy(pol) && Exact(pol, m)
    requires Valid(pol.Entries(), current) && Valid(pol.Changes(), changes)
    requires forall k :: ExactAt(pol, Find(pol.Entries(), current, k), Then(pol, m, k), Find(pol.Changes(), changes, k))
    requires forall k :: Find(pol.Entries(), current, k) == if pol.Tied(k, key) then entry else Now(pol, m, k)
    ensures Exact(pol, Adopt(m, current, changes))
    ensures Writes(pol, m, Adopt(m, current, changes), key, ValueOf(entry))
  {
    hide TotalPreorder, Valid;
    AdoptIsExact(pol, m, current, changes);
    var m' := Adopt(m, current, changes);
    forall k ensures SameValue(pol, ValueOf(Now(pol, m', k)), ValueOf(Find(pol.Entries(), current, k))) {
      assert ExactAt(pol, Find(pol.Entries(), current, k), Then(pol, m, k), Find(pol.Changes(), changes, k));
      EqualFacts(pol, ValueOf(Now(pol, m', k)), None, None);
    }
  }

  lemma RemoveItemIsExact<K(!new), V(!new)>(pol: Policy<K, V>, m: Map<K, V>, key: K)
    requires LawfulPolicy(pol) && Exact(pol, m)
    ensures Exact(pol, RemoveItem(pol, m, key))
    ensures Writes(pol, m, RemoveItem(pol, m, key), key, None)
  {
    var now, change := Now(pol, m, key), ChangeOf(pol, m, key);
    if now.None? {
      hide TotalPreorder, Find, Set, Remove, Valid;
      forall k ensures SameValue(pol, ValueOf(Now(pol, m, k)), if pol.Tied(k, key) then None else ValueOf(Now(pol, m, k))) {
        EqualFacts(pol, ValueOf(Now(pol, m, k)), None, None);
        ClassLookups(pol, m, k, key);
      }
    } else {
      var rep := if change.Some? then change.value.key else now.value.key;
      var before := if change.Some? then change.value.before else ValueOf(now);
      var entry, record := Entry(key, now.value.value), Change(rep, before, None);
      var current := Remove(pol.Entries(), false, m.current, key);
      var changes := if before.None? then Remove(pol.Changes(), false, m.changes, rep) else Set(pol.Changes(), m.changes, record);
      assert RemoveItem(pol, m, key) == Adopt(m, current, changes);
      hide TotalPreorder, LawfulPolicy, Find, Set, Remove, Valid, ExactAt, RemoveItem, Now, Then, ChangeOf;
      assert pol.Tied(key, rep) by {
        ClassLookups(pol, m, key, key);
        TiedFacts(pol, key, key, key);
      }
      forall k ensures ExactAt(pol, Find(pol.Entries(), current, k), Then(pol, m, k), Find(pol.Changes(), changes, k))
               ensures Find(pol.Entries(), current, k) == if pol.Tied(k, key) then None else Now(pol, m, k)
      {
        EditLookups(pol, m, entry, record, k);
        TiedFacts(pol, k, key, rep);
        TiedFacts(pol, k, rep, key);
        TiedFacts(pol, key, rep, k);
        if pol.Tied(k, rep) {
          ClassLookups(pol, m, k, key);
          EraseAt(pol, now, Then(pol, m, key), change);
        }
      }
      EditLookups(pol, m, entry, record, key);
      FinishWrite(pol, m, current, changes, key, None);
    }
  }

  lemma RootsAreExact<K(!new), V(!new)>(pol: Policy<K, V>, m: Map<K, V>)
    requires LawfulPolicy(pol) && Exact(pol, m)
    ensures Exact(pol, Checkpoint(m)) && Exact(pol, Rollback(m))
  {
    hide TotalPreorder, Valid;
    assert Valid(pol.Changes(), Nil) by { EmptyIsValid(pol.Changes()); }
    forall k ensures ExactAt(pol, Now(pol, m, k), Now(pol, m, k), None) && ExactAt(pol, Then(pol, m, k), Then(pol, m, k), None) {
      EqualFacts(pol, ValueOf(Now(pol, m, k)), None, None);
      EqualFacts(pol, ValueOf(Then(pol, m, k)), None, None);
    }
  }

  lemma EmptyIsValid<E, K>(ord: Order<E, K>)
    ensures Valid(ord, Nil)
  {
  }

  // ----- Runs -----

  datatype Op<K, V> = SetOp(key: K, value: V) | RemoveOp(key: K) | CheckpointOp | RollbackOp

  ghost function Step<K(!new), V(!new)>(pol: Policy<K, V>, m: Map<K, V>, op: Op<K, V>): (m': Map<K, V>)
    requires LawfulPolicy(pol) && Exact(pol, m)
    ensures Exact(pol, m')
  {
    match op
    case SetOp(k, v) => SetItemIsExact(pol, m, k, v); SetItem(pol, m, k, v)
    case RemoveOp(k) => RemoveItemIsExact(pol, m, k); RemoveItem(pol, m, k)
    case CheckpointOp => RootsAreExact(pol, m); Checkpoint(m)
    case RollbackOp => RootsAreExact(pol, m); Rollback(m)
  }

  lemma StartIsExact<K(!new), V(!new)>(pol: Policy<K, V>)
    ensures Exact(pol, Map(Nil, Nil, Nil))
  {
    EmptyIsValid(pol.Entries());
    EmptyIsValid(pol.Changes());
  }

  ghost function Run<K(!new), V(!new)>(pol: Policy<K, V>, ops: seq<Op<K, V>>): (m: Map<K, V>)
    requires LawfulPolicy(pol)
    ensures Exact(pol, m)
  {
    if ops == [] then StartIsExact(pol); Map(Nil, Nil, Nil)
    else Step(pol, Run(pol, ops[..|ops| - 1]), ops[|ops| - 1])
  }

  /** The value a key should have now, and the one it had at the last checkpoint, by replaying the run. */
  ghost function Current<K, V>(pol: Policy<K, V>, ops: seq<Op<K, V>>, k: K): Option<V> {
    if ops == [] then None
    else
      var init := ops[..|ops| - 1];
      match ops[|ops| - 1]
      case SetOp(key, value) => if pol.Tied(k, key) then Some(value) else Current(pol, init, k)
      case RemoveOp(key) => if pol.Tied(k, key) then None else Current(pol, init, k)
      case CheckpointOp => Current(pol, init, k)
      case RollbackOp => Saved(pol, init, k)
  }

  ghost function Saved<K, V>(pol: Policy<K, V>, ops: seq<Op<K, V>>, k: K): Option<V> {
    if ops == [] then None
    else if ops[|ops| - 1].CheckpointOp? then Current(pol, ops[..|ops| - 1], k)
    else Saved(pol, ops[..|ops| - 1], k)
  }

  lemma {:induction false} RunRefinesReplay<K(!new), V(!new)>(pol: Policy<K, V>, ops: seq<Op<K, V>>, k: K)
    requires LawfulPolicy(pol)
    ensures SameValue(pol, ValueOf(Now(pol, Run(pol, ops), k)), Current(pol, ops, k))
    ensures SameValue(pol, ValueOf(Then(pol, Run(pol, ops), k)), Saved(pol, ops, k))
    decreases |ops|
  {
    if ops != [] {
      var init, op := ops[..|ops| - 1], ops[|ops| - 1];
      var m := Run(pol, init);
      RunRefinesReplay(pol, init, k);
      match op
      case SetOp(key, value) => SetItemIsExact(pol, m, key, value);
      case RemoveOp(key) => RemoveItemIsExact(pol, m, key);
      case CheckpointOp =>
      case RollbackOp =>
      hide LawfulPolicy, Exact, Find, SetItem, RemoveItem;
      var m' := Step(pol, m, op);
      EqualFacts(pol, ValueOf(Now(pol, m', k)), ValueOf(Now(pol, m, k)), Current(pol, init, k));
    }
  }

  /** After any run the change index holds exactly the keys whose value differs from the checkpoint, with their
      endpoints, and an empty index means the current root is the checkpoint root. */
  lemma ChangesAreTheDifference<K(!new), V(!new)>(pol: Policy<K, V>, ops: seq<Op<K, V>>, k: K)
    requires LawfulPolicy(pol)
    ensures var m := Run(pol, ops);
      && (ChangeOf(pol, m, k).Some? <==> !SameValue(pol, Saved(pol, ops, k), Current(pol, ops, k)))
      && (ChangeOf(pol, m, k).Some? ==>
            && SameValue(pol, ChangeOf(pol, m, k).value.before, Saved(pol, ops, k))
            && SameValue(pol, ChangeOf(pol, m, k).value.after, Current(pol, ops, k)))
      && (m.changes.Nil? ==> m.current == m.checkpoint)
      && (Now(pol, m, k).Some? && Then(pol, m, k).Some? ==> Now(pol, m, k).value.key == Then(pol, m, k).value.key)
  {
    var m := Run(pol, ops);
    RunRefinesReplay(pol, ops, k);
    assert ExactAt(pol, Now(pol, m, k), Then(pol, m, k), ChangeOf(pol, m, k));
    hide LawfulPolicy, Run, Current, Saved, Find, Trees;
    var now, then_, current, saved := ValueOf(Now(pol, m, k)), ValueOf(Then(pol, m, k)), Current(pol, ops, k), Saved(pol, ops, k);
    EqualFacts(pol, saved, then_, now);
    EqualFacts(pol, then_, saved, current);
    EqualFacts(pol, then_, current, now);
    EqualFacts(pol, saved, now, current);
    EqualFacts(pol, now, current, now);
    if ChangeOf(pol, m, k).Some? {
      EqualFacts(pol, then_, ChangeOf(pol, m, k).value.before, then_);
      EqualFacts(pol, ChangeOf(pol, m, k).value.before, then_, saved);
    }
  }

  // ----- When the endpoints are the checkpoint's own values -----

  /** A class without a record still holds the checkpoint's own value, and a record starts from it. */
  ghost predicate StrictAt<K, V>(pol: Policy<K, V>, m: Map<K, V>, k: K) {
    var change := ChangeOf(pol, m, k);
    ValueOf(Then(pol, m, k)) == if change.None? then ValueOf(Now(pol, m, k)) else change.value.before
  }

  /** The write cancels a record with an equal but different value while other records remain. */
  ghost predicate Drifts<K, V>(pol: Policy<K, V>, m: Map<K, V>, key: K, value: V) {
    var now, change := Now(pol, m, key), ChangeOf(pol, m, key);
    && !(now.Some? && pol.equal(now.value.value, value))
    && change.Some? && change.value.before.Some?
    && pol.equal(change.value.before.value, value) && change.value.before.value != value
    && Size(m.changes) > 1
  }

  /** Removing a present class empties the index exactly when it was the only one. */
  lemma LastRecord<K(!new), V(!new)>(pol: Policy<K, V>, t: Tree<Change<K, V>>, k: K)
    requires LawfulPolicy(pol) && Valid(pol.Changes(), t) && Find(pol.Changes(), t, k).Some?
    ensures var key := Find(pol.Changes(), t, k).value.key;
      Remove(pol.Changes(), false, t, key).Nil? <==> Size(t) == 1
  {
    var ord, change := pol.Changes(), Find(pol.Changes(), t, k).value;
    FindFacts(ord, t, k, change);
    var a, m, b := EditCut(ord, false, t, change);
    FlatSize(t);
    FlatSize(Remove(ord, false, t, change.key));
    hide TotalPreorder, Valid, Set, Remove, Flat, Find;
    OrderFacts(ord.cmp, change.key, change.key, change.key);
    assert change in a || change in m || change in b;
  }

  /** The lookups after a write that is not a no-op. */
  lemma WriteLookups<K(!new), V(!new)>(pol: Policy<K, V>, m: Map<K, V>, key: K, value: V, k: K)
    requires LawfulPolicy(pol) && Exact(pol, m)
    requires Now(pol, m, key).Some? ==> !pol.equal(Now(pol, m, key).value.value, value)
    ensures var now, change := Now(pol, m, key), ChangeOf(pol, m, key);
      var rep := if now.Some? then now.value.key else if change.Some? then change.value.key else key;
      var before := if change.Some? then change.value.before else ValueOf(now);
      var cancels := before.Some? && pol.equal(before.value, value);
      var m' := SetItem(pol, m, key, value);
      && m'.checkpoint == m.checkpoint && (cancels ==> change.Some?) && (m'.changes.Nil? <==> cancels && Size(m.changes) == 1)
      && (if !pol.Tied(k, key) then ChangeOf(pol, m', k) == ChangeOf(pol, m, k)
          else ChangeOf(pol, m', k) == if cancels then None else Some(Change(rep, before, Some(value))))
      && (if m'.changes.Nil? then Now(pol, m', k) == Then(pol, m, k)
          else Now(pol, m', k) == if pol.Tied(k, key) then Some(Entry(rep, value)) else Now(pol, m, k))
      && (pol.Tied(k, key) ==> Then(pol, m, k) == Then(pol, m, key))
  {
    var rep, before, cancels := WriteForm(pol, m, key, value);
    var entry, record := Entry(rep, value), Change(rep, before, Some(value));
    hide *;
    ExactTrees(pol, m);
    if cancels { LastRecord(pol, m.changes, key); }
    EditLookups(pol, m, entry, record, k);
    EditLookups(pol, m, entry, record, rep);
    ClassLookups(pol, m, k, key);
    TiedFacts(pol, k, key, rep);
    TiedFacts(pol, k, rep, key);
    TiedFacts(pol, key, rep, k);
    FinishLookups(pol, m, entry, record, cancels, k);
  }

  lemma ExactTrees<K(!new), V>(pol: Policy<K, V>, m: Map<K, V>)
    requires Exact(pol, m)
    ensures Trees(pol, m) && Valid(pol.Changes(), m.changes) && Balanced(m.current) && Balanced(m.changes)
  {
  }

  /** A write that is not a no-op, in the terms of its two tree edits. */
  lemma WriteForm<K(!new), V(!new)>(pol: Policy<K, V>, m: Map<K, V>, key: K, value: V)
    returns (rep: K, before: Option<V>, cancels: bool)
    requires LawfulPolicy(pol) && Exact(pol, m)
    requires Now(pol, m, key).Some? ==> !pol.equal(Now(pol, m, key).value.value, value)
    ensures var now, change := Now(pol, m, key), ChangeOf(pol, m, key);
      && rep == (if now.Some? then now.value.key else if change.Some? then change.value.key else key)
      && pol.Tied(key, rep) && before == (if change.Some? then change.value.before else ValueOf(now))
      && cancels == (before.Some? && pol.equal(before.value, value))
      && (cancels ==> change.Some? && change.value.key == rep)
    ensures SetItem(pol, m, key, value) == Adopt(m, Set(pol.Entries(), m.current, Entry(rep, value)),
      if cancels then Remove(pol.Changes(), false, m.changes, rep)
      else Set(pol.Changes(), m.changes, Change(rep, before, Some(value))))
  {
    var now, change := Now(pol, m, key), ChangeOf(pol, m, key);
    rep := if now.Some? then now.value.key else if change.Some? then change.value.key else key;
    before := if change.Some? then change.value.before else ValueOf(now);
    cancels := before.Some? && pol.equal(before.value, value);
    assert ExactAt(pol, now, Then(pol, m, key), change);
    hide Set, Remove, Balanced, Valid, TotalPreorder;
    ClassLookups(pol, m, key, key);
    TiedFacts(pol, key, key, key);
  }

  /** The three lookups of one key in the map that the tree edits make. */
  lemma FinishLookups<K(!new), V(!new)>(
    pol: Policy<K, V>, m: Map<K, V>, entry: Entry<K, V>, record: Change<K, V>, cancels: bool, k: K)
    requires Balanced(m.current) && Balanced(m.changes)
    ensures var entries, changes := pol.Entries(), pol.Changes();
      var current := Set(entries, m.current, entry);
      var next := if cancels then Remove(changes, false, m.changes, record.key) else Set(changes, m.changes, record);
      var m' := Adopt(m, current, next);
      && m'.checkpoint == m.checkpoint && m'.changes == next && ChangeOf(pol, m', k) == Find(changes, next, k)
      && Now(pol, m', k) == (if next.Nil? then Then(pol, m, k) else Find(entries, current, k))
      && (Find(changes, next, record.key).Some? ==> next.Node?)
      && ValueOf(Some(entry)) == Some(entry.value)
  {
    hide Set, Remove, Balanced;
  }

  /** A strict class stays strict under a write exactly when the write does not make it drift. */
  lemma SetItemStrict<K(!new), V(!new)>(pol: Policy<K, V>, m: Map<K, V>, key: K, value: V, k: K)
    requires LawfulPolicy(pol) && Exact(pol, m) && StrictAt(pol, m, key) && StrictAt(pol, m, k)
    ensures StrictAt(pol, SetItem(pol, m, key, value), k) <==> !(pol.Tied(k, key) && Drifts(pol, m, key, value))
  {
    if Now(pol, m, key).Some? ==> !pol.equal(Now(pol, m, key).value.value, value) {
      WriteLookups(pol, m, key, value, k);
      hide LawfulPolicy, Exact, SetItem, Find;
    }
  }

  /** A removal never makes a class drift. */
  lemma RemoveItemStrict<K(!new), V(!new)>(pol: Policy<K, V>, m: Map<K, V>, key: K, k: K)
    requires LawfulPolicy(pol) && Exact(pol, m) && StrictAt(pol, m, key) && StrictAt(pol, m, k)
    ensures StrictAt(pol, RemoveItem(pol, m, key), k)
  {
    if Now(pol, m, key).Some? {
      EraseLookups(pol, m, key, k);
      hide LawfulPolicy, Exact, RemoveItem, Find;
    }
  }

  /** The lookups after a removal of a present class. */
  lemma EraseLookups<K(!new), V(!new)>(pol: Policy<K, V>, m: Map<K, V>, key: K, k: K)
    requires LawfulPolicy(pol) && Exact(pol, m) && Now(pol, m, key).Some?
    ensures var now, change := Now(pol, m, key), ChangeOf(pol, m, key);
      var rep := if change.Some? then change.value.key else now.value.key;
      var before := if change.Some? then change.value.before else ValueOf(now);
      var m' := RemoveItem(pol, m, key);
      && m'.checkpoint == m.checkpoint
      && (if !pol.Tied(k, key) then ChangeOf(pol, m', k) == ChangeOf(pol, m, k)
          else ChangeOf(pol, m', k) == if before.None? then None else Some(Change(rep, before, None)))
      && (if m'.changes.Nil? then Now(pol, m', k) == Then(pol, m, k)
          else Now(pol, m', k) == if pol.Tied(k, key) then None else Now(pol, m, k))
      && (pol.Tied(k, key) ==> Then(pol, m, k) == Then(pol, m, key) && ChangeOf(pol, m, k) == change && Now(pol, m, k) == now)
  {
    var rep, before := EraseForm(pol, m, key);
    var entry, record := Entry(key, Now(pol, m, key).value.value), Change(rep, before, None);
    hide LawfulPolicy, Exact, RemoveItem, Find, Set, Remove, Balanced, Valid;
    ExactTrees(pol, m);
    EditLookups(pol, m, entry, record, k);
    ClassLookups(pol, m, k, key);
    TiedFacts(pol, k, key, rep);
    TiedFacts(pol, k, rep, key);
    TiedFacts(pol, key, rep, k);
  }

  /** A removal of a present class, in the terms of its two tree edits. */
  lemma EraseForm<K(!new), V(!new)>(pol: Policy<K, V>, m: Map<K, V>, key: K) returns (rep: K, before: Option<V>)
    requires LawfulPolicy(pol) && Exact(pol, m) && Now(pol, m, key).Some?
    ensures pol.Tied(key, rep)
    ensures rep == if ChangeOf(pol, m, key).Some? then ChangeOf(pol, m, key).value.key else Now(pol, m, key).value.key
    ensures before == if ChangeOf(pol, m, key).Some? then ChangeOf(pol, m, key).value.before else ValueOf(Now(pol, m, key))
    ensures RemoveItem(pol, m, key) == Adopt(m, Remove(pol.Entries(), false, m.current, key),
      if before.None? then Remove(pol.Changes(), false, m.changes, rep)
      else Set(pol.Changes(), m.changes, Change(rep, before, None)))
  {
    var now, change := Now(pol, m, key), ChangeOf(pol, m, key);
    rep := if change.Some? then change.value.key else now.value.key;
    before := if change.Some? then change.value.before else ValueOf(now);
    hide Set, Remove, Balanced, Valid, TotalPreorder;
    ClassLookups(pol, m, key, key);
  }

  /** Every class is strict. */
  ghost predicate Strict<K(!new), V>(pol: Policy<K, V>, m: Map<K, V>) {
    forall k :: StrictAt(pol, m, k)
  }

  ghost predicate DriftsAt<K, V>(pol: Policy<K, V>, m: Map<K, V>, op: Op<K, V>) {
    op.SetOp? && Drifts(pol, m, op.key, op.value)
  }

  /** One operation on a strict map leaves it strict exactly when it is not a drifting write. */
  lemma StepStrict<K(!new), V(!new)>(pol: Policy<K, V>, m: Map<K, V>, op: Op<K, V>)
    requires LawfulPolicy(pol) && Exact(pol, m) && Strict(pol, m)
    ensures Strict(pol, Step(pol, m, op)) <==> !DriftsAt(pol, m, op)
  {
    var m' := Step(pol, m, op);
    hide LawfulPolicy, Exact, SetItem, RemoveItem, StrictAt, Drifts;
    match op
    case SetOp(key, value) =>
      forall k ensures StrictAt(pol, m', k) <==> !(pol.Tied(k, key) && Drifts(pol, m, key, value)) {
        SetItemStrict(pol, m, key, value, k);
      }
      TiedFacts(pol, key, key, key);
      assert StrictAt(pol, m', key) <==> !Drifts(pol, m, key, value);
    case RemoveOp(key) =>
      forall k ensures StrictAt(pol, m', k) { RemoveItemStrict(pol, m, key, k); }
    case CheckpointOp => FreshIsStrict(pol, m.current);
    case RollbackOp => FreshIsStrict(pol, m.checkpoint);
  }

  lemma FreshIsStrict<K(!new), V>(pol: Policy<K, V>, root: Tree<Entry<K, V>>)
    ensures Strict(pol, Map(root, root, Nil))
  {
  }

  lemma PrefixStep<K(!new), V(!new)>(pol: Policy<K, V>, ops: seq<Op<K, V>>, n: nat)
    requires LawfulPolicy(pol) && n < |ops| && Strict(pol, Run(pol, ops[..n]))
    ensures Strict(pol, Run(pol, ops[..n + 1])) <==> !DriftsAt(pol, Run(pol, ops[..n]), ops[n])
  {
    RunPush(pol, ops[..n], ops[n]);
    assert ops[..n + 1] == ops[..n] + [ops[n]];
    StepStrict(pol, Run(pol, ops[..n]), ops[n]);
  }

  lemma {:induction false} SteadyPrefix<K(!new), V(!new)>(pol: Policy<K, V>, ops: seq<Op<K, V>>, n: nat)
    requires LawfulPolicy(pol) && n <= |ops|
    requires forall i :: 0 <= i < n ==> !DriftsAt(pol, Run(pol, ops[..i]), ops[i])
    ensures Strict(pol, Run(pol, ops[..n]))
  {
    if n == 0 {
      FreshIsStrict<K, V>(pol, Nil);
      assert ops[..0] == [];
    } else {
      hide LawfulPolicy, Strict, DriftsAt, Run;
      SteadyPrefix(pol, ops, n - 1);
      PrefixStep(pol, ops, n - 1);
    }
  }

  /** Along a run, every version holds and records the checkpoint's own values exactly when no write of the run
      drifts. */
  lemma RunIsStrict<K(!new), V(!new)>(pol: Policy<K, V>, ops: seq<Op<K, V>>)
    requires LawfulPolicy(pol)
    ensures (forall n :: 0 <= n <= |ops| ==> Strict(pol, Run(pol, ops[..n])))
       <==> (forall n :: 0 <= n < |ops| ==> !DriftsAt(pol, Run(pol, ops[..n]), ops[n]))
  {
    hide LawfulPolicy, Strict, DriftsAt, Run;
    if forall n :: 0 <= n <= |ops| ==> Strict(pol, Run(pol, ops[..n])) {
      forall n | 0 <= n < |ops| ensures !DriftsAt(pol, Run(pol, ops[..n]), ops[n]) { PrefixStep(pol, ops, n); }
    }
    if forall n :: 0 <= n < |ops| ==> !DriftsAt(pol, Run(pol, ops[..n]), ops[n]) {
      forall n | 0 <= n <= |ops| ensures Strict(pol, Run(pol, ops[..n])) { SteadyPrefix(pol, ops, n); }
    }
  }

  // ----- Representatives -----

  function KeyOf<K, V>(e: Option<Entry<K, V>>): Option<K> {
    if e.Some? then Some(e.value.key) else None
  }

  /** A write of an equal value changes nothing at all. Any other write stores the supplied value, unless it empties the
      index and current becomes the checkpoint again. A present class keeps its stored key; an absent one takes the key of
      its record, and the supplied key only if it has none. */
  lemma SetItemStores<K(!new), V(!new)>(pol: Policy<K, V>, m: Map<K, V>, key: K, value: V)
    requires LawfulPolicy(pol) && Exact(pol, m)
    ensures var now, change, m' := Now(pol, m, key), ChangeOf(pol, m, key), SetItem(pol, m, key, value);
      && (now.Some? && pol.equal(now.value.value, value) ==> m' == m)
      && (!(now.Some? && pol.equal(now.value.value, value)) && m'.changes.Node? ==> ValueOf(Now(pol, m', key)) == Some(value))
      && Now(pol, m', key).Some?
      && Now(pol, m', key).value.key
         == if now.Some? then now.value.key else if change.Some? then change.value.key else key
  {
    var now, change, m' := Now(pol, m, key), ChangeOf(pol, m, key), SetItem(pol, m, key, value);
    SetItemIsExact(pol, m, key, value);
    TiedFacts(pol, key, key, key);
    assert ExactAt(pol, now, Then(pol, m, key), change);
    if now.Some? ==> !pol.equal(now.value.value, value) {
      WriteLookups(pol, m, key, value, key);
      hide LawfulPolicy, Exact, SetItem, Find;
    }
  }

  /** The stored key of a class by replaying the run: the first key of its episode, or the checkpoint's. */
  ghost function CurrentKey<K, V>(pol: Policy<K, V>, ops: seq<Op<K, V>>, k: K): Option<K> {
    if ops == [] then None
    else
      var init := ops[..|ops| - 1];
      match ops[|ops| - 1]
      case SetOp(key, value) =>
        if !pol.Tied(k, key) || CurrentKey(pol, init, k).Some? then CurrentKey(pol, init, k)
        else if SavedKey(pol, init, k).Some? then SavedKey(pol, init, k)
        else Some(key)
      case RemoveOp(key) => if pol.Tied(k, key) then None else CurrentKey(pol, init, k)
      case CheckpointOp => CurrentKey(pol, init, k)
      case RollbackOp => SavedKey(pol, init, k)
  }

  ghost function SavedKey<K, V>(pol: Policy<K, V>, ops: seq<Op<K, V>>, k: K): Option<K> {
    if ops == [] then None
    else if ops[|ops| - 1].CheckpointOp? then CurrentKey(pol, ops[..|ops| - 1], k)
    else SavedKey(pol, ops[..|ops| - 1], k)
  }

  /** A write leaves the key that the replay says, and every other class its own. */
  lemma SetItemKeys<K(!new), V(!new)>(pol: Policy<K, V>, m: Map<K, V>, key: K, value: V, k: K)
    requires LawfulPolicy(pol) && Exact(pol, m)
    ensures var m' := SetItem(pol, m, key, value);
      var now, then_ := KeyOf(Now(pol, m, k)), KeyOf(Then(pol, m, k));
      && KeyOf(Then(pol, m', k)) == then_
      && KeyOf(Now(pol, m', k))
         == if !pol.Tied(k, key) || now.Some? then now else if then_.Some? then then_ else Some(key)
  {
    var now, change := Now(pol, m, key), ChangeOf(pol, m, key);
    assert ExactAt(pol, now, Then(pol, m, key), change);
    assert ExactAt(pol, Now(pol, m, k), Then(pol, m, k), ChangeOf(pol, m, k));
    ExactTrees(pol, m);
    ClassLookups(pol, m, k, key);
    if now.Some? ==> !pol.equal(now.value.value, value) {
      WriteLookups(pol, m, key, value, k);
      hide LawfulPolicy, Exact, SetItem, Find, Trees, Valid;
    }
  }

  lemma RemoveItemKeys<K(!new), V(!new)>(pol: Policy<K, V>, m: Map<K, V>, key: K, k: K)
    requires LawfulPolicy(pol) && Exact(pol, m)
    ensures var m' := RemoveItem(pol, m, key);
      && KeyOf(Then(pol, m', k)) == KeyOf(Then(pol, m, k))
      && KeyOf(Now(pol, m', k)) == if pol.Tied(k, key) then None else KeyOf(Now(pol, m, k))
  {
    assert ExactAt(pol, Now(pol, m, key), Then(pol, m, key), ChangeOf(pol, m, key));
    assert ExactAt(pol, Now(pol, m, k), Then(pol, m, k), ChangeOf(pol, m, k));
    ExactTrees(pol, m);
    ClassLookups(pol, m, k, key);
    if Now(pol, m, key).Some? {
      EraseLookups(pol, m, key, k);
      RemoveItemIsExact(pol, m, key);
      assert Writes(pol, m, RemoveItem(pol, m, key), key, None);
      assert SameValue(pol, ValueOf(Now(pol, RemoveItem(pol, m, key), k)), if pol.Tied(k, key) then None else ValueOf(Now(pol, m, k)));
      hide LawfulPolicy, Exact, RemoveItem, Find, Trees, Valid, Writes;
    }
  }

  /** After every run each class is stored under the key of the replay, now and at the checkpoint. */
  lemma {:induction false} RunKeepsKeys<K(!new), V(!new)>(pol: Policy<K, V>, ops: seq<Op<K, V>>, k: K)
    requires LawfulPolicy(pol)
    ensures KeyOf(Now(pol, Run(pol, ops), k)) == CurrentKey(pol, ops, k)
    ensures KeyOf(Then(pol, Run(pol, ops), k)) == SavedKey(pol, ops, k)
    decreases |ops|
  {
    if ops != [] {
      var init, op := ops[..|ops| - 1], ops[|ops| - 1];
      RunKeepsKeys(pol, init, k);
      match op
      case SetOp(key, value) => SetItemKeys(pol, Run(pol, init), key, value, k);
      case RemoveOp(key) => RemoveItemKeys(pol, Run(pol, init), key, k);
      case CheckpointOp =>
      case RollbackOp =>
      hide LawfulPolicy, Exact, Find, SetItem, RemoveItem;
    }
  }

  /** Values that agree in parity count as equal. */
  const PARITY: Policy<int, int> := Policy((x: int, y: int) => x - y, (x: int, y: int) => x % 2 == y % 2)

  lemma ParityIsLawful()
    ensures LawfulPolicy(PARITY)
  {
  }

  function Single<E>(e: E): Tree<E> {
    Node(e, Nil, Nil)
  }

  function Pair<E>(e: E, f: E): Tree<E> {
    Node(e, Nil, Single(f))
  }

  /** Two keys are written, checkpointed, and the second is changed. */
  lemma DriftStarts()
    ensures var start := Map(Nil, Nil, Nil);
      var one := SetItem(PARITY, start, 0, 1);
      && one == Map(Single(Entry(0, 1)), Nil, Single(Change(0, None, Some(1))))
      && SetItem(PARITY, one, 5, 0).current == Pair(Entry(0, 1), Entry(5, 0))
  {
    var one := SetItem(PARITY, Map(Nil, Nil, Nil), 0, 1);
    assert one == Map(Single(Entry(0, 1)), Nil, Single(Change(0, None, Some(1))));
    assert Set(PARITY.Entries(), one.current, Entry(5, 0)) == Pair(Entry(0, 1), Entry(5, 0));
    assert Set(PARITY.Changes(), one.changes, Change(5, None, Some(0))).Node?;
  }

  lemma DriftGoesOn()
    ensures var saved := Pair(Entry(0, 1), Entry(5, 0));
      SetItem(PARITY, Map(saved, saved, Nil), 5, 1)
      == Map(Pair(Entry(0, 1), Entry(5, 1)), saved, Single(Change(5, Some(0), Some(1))))
  {
    var saved := Pair(Entry(0, 1), Entry(5, 0));
    assert Find(PARITY.Entries(), saved, 5) == Some(Entry(5, 0));
    assert Set(PARITY.Entries(), saved, Entry(5, 1)) == Pair(Entry(0, 1), Entry(5, 1));
  }

  /** The first key is changed to 2 and then to 3, which cancels the change but keeps the 3. */
  lemma DriftEnds()
    ensures var saved, before := Pair(Entry(0, 1), Entry(5, 0)), Pair(Entry(0, 1), Entry(5, 1));
      var m := Map(before, saved, Single(Change(5, Some(0), Some(1))));
      && Balanced(SetItem(PARITY, m, 0, 2).current) && Balanced(SetItem(PARITY, m, 0, 2).changes)
      && SetItem(PARITY, SetItem(PARITY, m, 0, 2), 0, 3)
         == Map(Pair(Entry(0, 3), Entry(5, 1)), saved, Single(Change(5, Some(0), Some(1))))
  {
    var saved, before := Pair(Entry(0, 1), Entry(5, 0)), Pair(Entry(0, 1), Entry(5, 1));
    var m := Map(before, saved, Single(Change(5, Some(0), Some(1))));
    var next := SetItem(PARITY, m, 0, 2);
    assert next == Map(Pair(Entry(0, 2), Entry(5, 1)), saved, Node(Change(5, Some(0), Some(1)), Single(Change(0, Some(1), Some(2))), Nil)) by {
      assert Set(PARITY.Entries(), before, Entry(0, 2)) == Pair(Entry(0, 2), Entry(5, 1));
    }
    assert Remove(PARITY.Changes(), false, next.changes, 0) == Single(Change(5, Some(0), Some(1)));
    assert Set(PARITY.Entries(), next.current, Entry(0, 3)) == Pair(Entry(0, 3), Entry(5, 1));
  }

  lemma RunPush<K(!new), V(!new)>(pol: Policy<K, V>, ops: seq<Op<K, V>>, op: Op<K, V>)
    requires LawfulPolicy(pol)
    ensures Run(pol, ops + [op]) == Step(pol, Run(pol, ops), op)
  {
    assert (ops + [op])[..|ops|] == ops;
  }

  /** A cancelled change leaves an equal but different value behind: key 0 was 1 at the checkpoint and is 3 now,
      with no record of a change. */
  lemma CancelledValueDrifts()
    ensures LawfulPolicy(PARITY)
    ensures var m := Run(PARITY, [] + [SetOp(0, 1)] + [SetOp(5, 0)] + [CheckpointOp] + [SetOp(5, 1)] + [SetOp(0, 2)] + [SetOp(0, 3)]);
      && ChangeOf(PARITY, m, 0).None?
      && ValueOf(Then(PARITY, m, 0)) == Some(1) && ValueOf(Now(PARITY, m, 0)) == Some(3)
  {
    ParityIsLawful();
    hide LawfulPolicy, Exact, SetItem, Current, Saved, Writes;
    var a: seq<Op<int, int>> := [];
    var b := a + [SetOp(0, 1)];
    var c := b + [SetOp(5, 0)];
    var d := c + [CheckpointOp];
    var e := d + [SetOp(5, 1)];
    var f := e + [SetOp(0, 2)];
    RunPush(PARITY, a, SetOp(0, 1));
    RunPush(PARITY, b, SetOp(5, 0));
    RunPush(PARITY, c, CheckpointOp);
    RunPush(PARITY, d, SetOp(5, 1));
    RunPush(PARITY, e, SetOp(0, 2));
    RunPush(PARITY, f, SetOp(0, 3));
    DriftStarts();
    DriftGoesOn();
    DriftEnds();
    DriftEndState();
  }

  lemma DriftEndState()
    ensures var m := Map(Pair(Entry(0, 3), Entry(5, 1)), Pair(Entry(0, 1), Entry(5, 0)), Single(Change(5, Some(0), Some(1))));
      && ChangeOf(PARITY, m, 0).None?
      && ValueOf(Then(PARITY, m, 0)) == Some(1) && ValueOf(Now(PARITY, m, 0)) == Some(3)
  {
  }
}
