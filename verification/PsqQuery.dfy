/** The pruned range query of the priority search queue. */
module PsqQuery {
  import opened Comparisons
  import opened KeyOrder
  import opened SortedEntries
  import opened PsqTree
  import opened PrioritySearchQueue

  datatype Result<V> = Success(value: V) | InvalidArgument | InconsistentPolicy

  /** The two key bounds and the priority bound. */
  datatype Bounds<K, P> = Bounds(low: K, high: K, priority: P)

  /** What a subtree contributes. */
  function Query<K, P, V>(pol: Policy<K, P, V>, q: Bounds<K, P>, t: Tree<K, P, V>): seq<Item<K, P, V>> {
    if t.Empty? || pol.priorities(t.winner.priority, q.priority) > 0 then []
    else
      var lower, upper := pol.keys(t.entry.key, q.low), pol.keys(t.entry.key, q.high);
      (if lower > 0 then Query(pol, q, t.left) else [])
      + (if lower >= 0 && upper <= 0 && pol.priorities(t.entry.priority, q.priority) <= 0 then [t.entry] else [])
      + (if upper < 0 then Query(pol, q, t.right) else [])
  }

  // ----- The query is exact -----

  /** low <= key <= high, and the priority is at most the bound. */
  ghost predicate Within<K, P, V>(pol: Policy<K, P, V>, q: Bounds<K, P>, e: Item<K, P, V>) {
    pol.keys(q.low, e.key) <= 0 && pol.keys(e.key, q.high) <= 0 && pol.priorities(e.priority, q.priority) <= 0
  }

  /** The test of the walk. */
  lemma WithinTest<K(!new), P(!new), V(!new)>(pol: Policy<K, P, V>, q: Bounds<K, P>, e: Item<K, P, V>)
    requires LawfulPolicy(pol)
    ensures Within(pol, q, e) <==>
      pol.keys(e.key, q.low) >= 0 && pol.keys(e.key, q.high) <= 0 && pol.priorities(e.priority, q.priority) <= 0
  {
    OrderFacts(pol.keys, q.low, e.key, q.low);
    OrderFacts(pol.keys, e.key, q.low, q.low);
  }

  /** `found` is ascending by key and holds exactly the entries of s within all bounds. */
  ghost predicate Exactly<K(!new), P(!new), V(!new)>(pol: Policy<K, P, V>, q: Bounds<K, P>, s: seq<Item<K, P, V>>, found: seq<Item<K, P, V>>) {
    && Sorted(pol.ByKey(), found)
    && (forall e :: e in found <==> e in s && Within(pol, q, e))
  }

  lemma NothingWithin<K(!new), P(!new), V(!new)>(pol: Policy<K, P, V>, q: Bounds<K, P>, s: seq<Item<K, P, V>>)
    requires forall i :: 0 <= i < |s| ==> !Within(pol, q, s[i])
    ensures Exactly(pol, q, s, [])
  {
  }

  /** A winner beyond the priority bound rules out its whole subtree. */
  lemma PrunedByWinner<K(!new), P(!new), V(!new)>(pol: Policy<K, P, V>, q: Bounds<K, P>, t: Tree<K, P, V>)
    requires LawfulPolicy(pol) && Cached(pol, t) && t.Branch? && pol.priorities(t.winner.priority, q.priority) > 0
    ensures Exactly(pol, q, InOrder(t), [])
  {
    WinnerIsFirst(pol, t);
    var s, w, cmp := InOrder(t), t.winner.priority, pol.priorities;
    hide TotalPreorder, Cached, InOrder;
    forall i | 0 <= i < |s| ensures !Within(pol, q, s[i]) {
      var p := s[i].priority;
      OrderFacts(cmp, w, q.priority, p);
      OrderFacts(cmp, q.priority, w, p);
      OrderFacts(cmp, w, p, q.priority);
      OrderFacts(cmp, q.priority, p, w);
      OrderFacts(cmp, p, q.priority, w);
    }
    NothingWithin(pol, q, s);
  }

  lemma LeftOutside<K(!new), P(!new), V(!new)>(pol: Policy<K, P, V>, q: Bounds<K, P>, s: seq<Item<K, P, V>>, x: K)
    requires LawfulPolicy(pol) && AllBelow(pol.ByKey(), s, x) && pol.keys(x, q.low) <= 0
    ensures Exactly(pol, q, s, [])
  {
    hide TotalPreorder;
    var ord := pol.ByKey();
    forall i | 0 <= i < |s| ensures !Within(pol, q, s[i]) {
      OrderFacts(ord.cmp, s[i].key, x, q.low);
      OrderFacts(ord.cmp, x, q.low, s[i].key);
      OrderFacts(ord.cmp, q.low, s[i].key, x);
    }
    NothingWithin(pol, q, s);
  }

  lemma RightOutside<K(!new), P(!new), V(!new)>(pol: Policy<K, P, V>, q: Bounds<K, P>, s: seq<Item<K, P, V>>, x: K)
    requires LawfulPolicy(pol) && AllAbove(pol.ByKey(), s, x) && pol.keys(x, q.high) >= 0
    ensures Exactly(pol, q, s, [])
  {
    var ord := pol.ByKey();
    assert pol.keys(x, q.high) > 0 ==> ord.Less(q.high, x) by { OrderFacts(ord.cmp, q.high, x, x); }
    forall i | 0 <= i < |s| ensures !Within(pol, q, s[i]) {
      OrderFacts(ord.cmp, q.high, x, s[i].key);
      OrderFacts(ord.cmp, x, q.high, s[i].key);
      OrderFacts(ord.cmp, s[i].key, q.high, x);
      OrderFacts(ord.cmp, q.high, s[i].key, x);
    }
    NothingWithin(pol, q, s);
  }

  lemma JoinExact<K(!new), P(!new), V(!new)>(
    pol: Policy<K, P, V>, q: Bounds<K, P>, l: seq<Item<K, P, V>>, x: Item<K, P, V>, r: seq<Item<K, P, V>>,
    lf: seq<Item<K, P, V>>, rf: seq<Item<K, P, V>>)
    requires LawfulPolicy(pol) && AllBelow(pol.ByKey(), l, x.key) && AllAbove(pol.ByKey(), r, x.key)
    requires Exactly(pol, q, l, lf) && Exactly(pol, q, r, rf)
    ensures Exactly(pol, q, l + [x] + r, lf + (if Within(pol, q, x) then [x] else []) + rf)
  {
    var ord := pol.ByKey();
    assert AllBelow(ord, lf, x.key) by {
      forall i | 0 <= i < |lf| ensures ord.Less(lf[i].key, x.key) { assert lf[i] in l; }
    }
    assert AllAbove(ord, rf, x.key) by {
      forall i | 0 <= i < |rf| ensures ord.Less(x.key, rf[i].key) { assert rf[i] in r; }
    }
    SortedJoin(ord, lf, x, rf);
    assert Sorted(ord, lf + rf) by { WithoutMiddle(ord, lf, x, rf); }
    assert lf + [] + rf == lf + rf;
    hide TotalPreorder, Sorted, AllBelow, AllAbove, Within;
  }

  /** The pruned query finds exactly the entries within both key bounds and the priority bound, ascending. */
  lemma {:induction false} QueryIsExact<K(!new), P(!new), V(!new)>(pol: Policy<K, P, V>, q: Bounds<K, P>, t: Tree<K, P, V>)
    requires LawfulPolicy(pol) && Valid(pol, t)
    ensures Exactly(pol, q, InOrder(t), Query(pol, q, t))
  {
    if t.Empty? {
    } else if pol.priorities(t.winner.priority, q.priority) > 0 {
      PrunedByWinner(pol, q, t);
    } else {
      ValidParts(pol, t);
      WithinTest(pol, q, t.entry);
      hide LawfulPolicy, Valid, AllBelow, AllAbove, Exactly, Within;
      var lower, upper := pol.keys(t.entry.key, q.low), pol.keys(t.entry.key, q.high);
      if lower > 0 { QueryIsExact(pol, q, t.left); } else { LeftOutside(pol, q, InOrder(t.left), t.entry.key); }
      if upper < 0 { QueryIsExact(pol, q, t.right); } else { RightOutside(pol, q, InOrder(t.right), t.entry.key); }
      JoinExact(pol, q, InOrder(t.left), t.entry, InOrder(t.right),
                if lower > 0 then Query(pol, q, t.left) else [], if upper < 0 then Query(pol, q, t.right) else []);
    }
  }

  // ----- The loop -----

  datatype Frame<K, P, V> = Frame(node: Tree<K, P, V>, emit: bool)

  /** What a frame still has to emit. */
  ghost function Yield<K, P, V>(pol: Policy<K, P, V>, q: Bounds<K, P>, f: Frame<K, P, V>): seq<Item<K, P, V>>
    requires f.node.Branch?
  {
    if f.emit then [f.node.entry] else Query(pol, q, f.node)
  }

  /** Everything the stack still has to emit, top first. */
  ghost function Pending<K, P, V>(pol: Policy<K, P, V>, q: Bounds<K, P>, stack: seq<Frame<K, P, V>>): seq<Item<K, P, V>>
    requires forall i :: 0 <= i < |stack| ==> stack[i].node.Branch?
  {
    if stack == [] then [] else Yield(pol, q, stack[|stack| - 1]) + Pending(pol, q, stack[..|stack| - 1])
  }

  /** The frame at position i leaves room for all that its subtree can push. */
  ghost predicate Fits<K, P, V>(pol: Policy<K, P, V>, stack: seq<Frame<K, P, V>>, capacity: nat) {
    forall i :: 0 <= i < |stack| ==>
      && stack[i].node.Branch? && Sound(pol, stack[i].node)
      && i + (if stack[i].emit then 0 else 2 * Height(stack[i].node)) + 1 <= capacity
  }

  lemma PendingPush<K, P, V>(pol: Policy<K, P, V>, q: Bounds<K, P>, stack: seq<Frame<K, P, V>>, f: Frame<K, P, V>)
    requires (forall i :: 0 <= i < |stack| ==> stack[i].node.Branch?) && f.node.Branch?
    ensures Pending(pol, q, stack + [f]) == Yield(pol, q, f) + Pending(pol, q, stack)
  {
    assert (stack + [f])[..|stack|] == stack;
  }

  lemma FitsPush<K, P, V>(pol: Policy<K, P, V>, stack: seq<Frame<K, P, V>>, f: Frame<K, P, V>, capacity: nat)
    requires Fits(pol, stack, capacity) && f.node.Branch? && Sound(pol, f.node)
    requires |stack| + (if f.emit then 0 else 2 * Height(f.node)) + 1 <= capacity
    ensures Fits(pol, stack + [f], capacity)
  {
    hide Sound;
  }

  ghost function Nodes<K, P, V>(t: Tree<K, P, V>): nat {
    if t.Empty? then 0 else 1 + Nodes(t.left) + Nodes(t.right)
  }

  ghost function Work<K, P, V>(stack: seq<Frame<K, P, V>>): nat {
    if stack == [] then 0
    else
      var f := stack[|stack| - 1];
      Work(stack[..|stack| - 1]) + (if f.emit then 1 else 1 + 3 * Nodes(f.node))
  }

  lemma WorkPush<K, P, V>(stack: seq<Frame<K, P, V>>, f: Frame<K, P, V>)
    ensures Work(stack + [f]) == Work(stack) + (if f.emit then 1 else 1 + 3 * Nodes(f.node))
  {
    assert (stack + [f])[..|stack|] == stack;
  }

  /** The loop state: what is out, then what is pending, is the whole answer. */
  ghost predicate Progress<K, P, V>(
    pol: Policy<K, P, V>, q: Bounds<K, P>, stack: seq<Frame<K, P, V>>, out: seq<Item<K, P, V>>, capacity: nat, goal: seq<Item<K, P, V>>)
  {
    Fits(pol, stack, capacity) && out + Pending(pol, q, stack) == goal
  }

  /** Pushes a frame that fits, if it is wanted. The capacity test in front of each push never fires. */
  method PushIf<K, P, V>(
    pol: Policy<K, P, V>, ghost q: Bounds<K, P>, stack: seq<Frame<K, P, V>>, wanted: bool, f: Frame<K, P, V>, capacity: nat)
    returns (ok: bool, next: seq<Frame<K, P, V>>)
    requires Fits(pol, stack, capacity)
    requires wanted ==> f.node.Branch? && Sound(pol, f.node)
                        && |stack| + (if f.emit then 0 else 2 * Height(f.node)) + 1 <= capacity
    ensures ok && Fits(pol, next, capacity) && |next| == |stack| + (if wanted then 1 else 0)
    ensures Pending(pol, q, next) == (if wanted then Yield(pol, q, f) else []) + Pending(pol, q, stack)
    ensures Work(next) == Work(stack) + (if !wanted then 0 else if f.emit then 1 else 1 + 3 * Nodes(f.node))
  {
    if !wanted {
      assert [] + Pending(pol, q, stack) == Pending(pol, q, stack);
      return true, stack;
    }
    if |stack| == capacity {
      assert false;
    }
    PendingPush(pol, q, stack, f);
    FitsPush(pol, stack, f, capacity);
    WorkPush(stack, f);
    return true, stack + [f];
  }

  lemma PoppedFits<K, P, V>(pol: Policy<K, P, V>, q: Bounds<K, P>, stack: seq<Frame<K, P, V>>, capacity: nat)
    requires Fits(pol, stack, capacity) && stack != []
    ensures forall i :: 0 <= i < |stack| ==> stack[i].node.Branch?
    ensures var n := |stack| - 1; var f := stack[n];
      && Fits(pol, stack[..n], capacity) && f.node.Branch? && Sound(pol, f.node)
      && n + (if f.emit then 0 else 2 * Height(f.node)) + 1 <= capacity
      && Pending(pol, q, stack) == Yield(pol, q, f) + Pending(pol, q, stack[..n])
      && Work(stack) == Work(stack[..n]) + (if f.emit then 1 else 1 + 3 * Nodes(f.node))
  {
    hide Sound;
  }

  /** Expands one node: right subtree, the node itself, and left subtree, so that the left comes off first. */
  method Expand<K, P, V>(pol: Policy<K, P, V>, q: Bounds<K, P>, stack: seq<Frame<K, P, V>>, node: Tree<K, P, V>, capacity: nat)
    returns (ok: bool, next: seq<Frame<K, P, V>>)
    requires Fits(pol, stack, capacity) && node.Branch? && Sound(pol, node) && |stack| + 2 * Height(node) + 1 <= capacity
    requires pol.priorities(node.winner.priority, q.priority) <= 0
    ensures ok && Fits(pol, next, capacity)
    ensures Pending(pol, q, next) == Query(pol, q, node) + Pending(pol, q, stack)
    ensures Work(next) < Work(stack) + 1 + 3 * Nodes(node)
  {
    ChildHeights(pol, node);
    var lower, upper := pol.keys(node.entry.key, q.low), pol.keys(node.entry.key, q.high);
    var emit := lower >= 0 && upper <= 0 && pol.priorities(node.entry.priority, q.priority) <= 0;
    var goRight, goLeft := upper < 0 && node.right.Branch?, lower > 0 && node.left.Branch?;
    ghost var l := if goLeft then Query(pol, q, node.left) else [];
    ghost var m := if emit then [node.entry] else [];
    ghost var r := if goRight then Query(pol, q, node.right) else [];
    assert Query(pol, q, node) == l + m + r;
    ghost var bottom := Pending(pol, q, stack);
    hide Fits, Pending, Work, Sound, Height, Query;
    ok, next := PushIf(pol, q, stack, goRight, Frame(node.right, false), capacity);
    ok, next := PushIf(pol, q, next, emit, Frame(node, true), capacity);
    ok, next := PushIf(pol, q, next, goLeft, Frame(node.left, false), capacity);
    Stacked(l, m, r, bottom);
  }

  lemma Stacked<E>(l: seq<E>, m: seq<E>, r: seq<E>, bottom: seq<E>)
    ensures l + (m + (r + bottom)) == (l + m + r) + bottom
  {
  }

  lemma ChildHeights<K, P, V>(pol: Policy<K, P, V>, t: Tree<K, P, V>)
    requires Sound(pol, t) && t.Branch?
    ensures Height(t.left) < Height(t) && Height(t.right) < Height(t)
    ensures Sound(pol, t.left) && Sound(pol, t.right)
  {
    Parts(pol, t);
  }

  /** Visits exactly the entries within the bounds in ascending key order, with a stack of at most
      2 * height + 1 frames. */
  method VisitAtMost<K(!new), P(!new), V(!new)>(pol: Policy<K, P, V>, root: Tree<K, P, V>, q: Bounds<K, P>)
    returns (result: Result<seq<Item<K, P, V>>>)
    requires LawfulPolicy(pol) && Valid(pol, root)
    ensures !result.InconsistentPolicy?
    ensures result.InvalidArgument? <==> pol.keys(q.low, q.high) > 0
    ensures result.Success? ==> Exactly(pol, q, InOrder(root), result.value)
  {
    if pol.keys(q.low, q.high) > 0 {
      return InvalidArgument;
    }
    QueryIsExact(pol, q, root);
    if root.Empty? {
      return Success([]);
    }
    ghost var goal := Query(pol, q, root);
    var capacity := 2 * Height(root) + 1;
    var stack, out := [Frame(root, false)], [];
    StartPending(pol, q, root);
    hide LawfulPolicy, Valid, Exactly, Sound, Height, InOrder;
    while stack != []
      invariant Progress(pol, q, stack, out, capacity, goal)
      decreases Work(stack)
    {
      hide Progress, Work;
      var ok;
      ok, stack, out := VisitFrame(pol, q, stack, out, capacity, goal);
      if !ok {
        assert false;
      }
    }
    assert out + [] == out;
    return Success(out);
  }

  /** Takes the top frame off the stack: emits it, prunes it or expands it. */
  method VisitFrame<K, P, V>(
    pol: Policy<K, P, V>, q: Bounds<K, P>, stack: seq<Frame<K, P, V>>, out: seq<Item<K, P, V>>, capacity: nat,
    ghost goal: seq<Item<K, P, V>>)
    returns (ok: bool, next: seq<Frame<K, P, V>>, emitted: seq<Item<K, P, V>>)
    requires Progress(pol, q, stack, out, capacity, goal) && stack != []
    ensures ok && Progress(pol, q, next, emitted, capacity, goal) && Work(next) < Work(stack)
  {
    hide Fits, Pending, Work, Query, Sound, Height;
    var n := |stack| - 1;
    var frame := stack[n];
    PoppedFits(pol, q, stack, capacity);
    ghost var rest := Pending(pol, q, stack[..n]);
    ok, next, emitted := true, stack[..n], out;
    if frame.emit {
      emitted := out + [frame.node.entry];
      assert out + ([frame.node.entry] + rest) == emitted + rest;
    } else if pol.priorities(frame.node.winner.priority, q.priority) > 0 {
      PrunedYields(pol, q, frame.node);
      assert [] + rest == rest;
    } else {
      ok, next := Expand(pol, q, next, frame.node, capacity);
    }
  }

  lemma PrunedYields<K, P, V>(pol: Policy<K, P, V>, q: Bounds<K, P>, t: Tree<K, P, V>)
    requires t.Branch? && pol.priorities(t.winner.priority, q.priority) > 0
    ensures Query(pol, q, t) == []
  {
  }

  lemma StartPending<K, P, V>(pol: Policy<K, P, V>, q: Bounds<K, P>, root: Tree<K, P, V>)
    requires Sound(pol, root) && root.Branch?
    ensures Progress(pol, q, [Frame(root, false)], [], 2 * Height(root) + 1, Query(pol, q, root))
  {
    PendingPush(pol, q, [], Frame(root, false));
    assert [] + [Frame(root, false)] == [Frame(root, false)];
    hide Sound;
  }
}
