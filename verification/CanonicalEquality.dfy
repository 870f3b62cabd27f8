/** Equality of canonical sorted sets: the cached content digest, the lock-step walk, and what they decide. */
module CanonicalEquality {
  import opened Comparisons
  import opened CanonicalTree
  import opened CanonicalSet
  import opened PostorderStack

  /** The content hash: some mix of a node's content word and its children's digests. */
  function Digest<V>(mix: (nat, nat, nat) -> nat, empty: (nat, nat), t: Tree<V>): nat
    requires t.Node?
  {
    mix(t.rank.content,
        if t.left.Leaf? then empty.0 else Digest(mix, empty, t.left),
        if t.right.Leaf? then empty.1 else Digest(mix, empty, t.right))
  }

  function ContentHash<V>(mix: (nat, nat, nat) -> nat, empty: (nat, nat), t: Tree<V>): nat {
    if t.Leaf? then 0 else Digest(mix, empty, t)
  }

  lemma {:induction false} SameDigests<V(!new)>(
    pol: Policy<V>, mix: (nat, nat, nat) -> nat, empty: (nat, nat), t: Tree<V>, u: Tree<V>)
    requires Lawful(pol) && Canonical(pol, t) && Canonical(pol, u) && Same(pol, t, u)
    ensures Size(t) == Size(u) && ContentHash(mix, empty, t) == ContentHash(mix, empty, u)
  {
    if t.Node? {
      SameDigests(pol, mix, empty, t.left, u.left);
      SameDigests(pol, mix, empty, t.right, u.right);
    }
  }

  ghost predicate CollisionFree(mix: (nat, nat, nat) -> nat, empty: (nat, nat)) {
    && (forall c, l, r, c', l', r' :: mix(c, l, r) == mix(c', l', r') ==> c == c' && l == l' && r == r')
    && (forall c, l, r :: mix(c, l, r) != empty.0 && mix(c, l, r) != empty.1 && mix(c, l, r) != 0)
  }

  /** Node by node the same content words. */
  ghost predicate SameWords<V>(t: Tree<V>, u: Tree<V>) {
    if t.Leaf? || u.Leaf? then t.Leaf? && u.Leaf?
    else t.rank.content == u.rank.content && SameWords(t.left, u.left) && SameWords(t.right, u.right)
  }

  /** The digest takes in every content word of the tree and its place. */
  lemma {:induction false} DigestTells<V>(mix: (nat, nat, nat) -> nat, empty: (nat, nat), t: Tree<V>, u: Tree<V>)
    requires CollisionFree(mix, empty)
    ensures ContentHash(mix, empty, t) == ContentHash(mix, empty, u) <==> SameWords(t, u)
    decreases t
  {
    if t.Node? && u.Node? {
      DigestTells(mix, empty, t.left, u.left);
      DigestTells(mix, empty, t.right, u.right);
    }
  }

  // ----- The digest loop -----

  /** The nodes whose digest is already published. */
  type Cache<V(==)> = map<Tree<V>, nat>

  ghost predicate Honest<V>(mix: (nat, nat, nat) -> nat, empty: (nat, nat), cache: Cache<V>) {
    forall t :: t in cache ==> t.Node? && cache[t] == Digest(mix, empty, t)
  }

  /** The trees that need no more work. */
  ghost function Settled<V>(cache: Cache<V>): set<Tree<V>> {
    cache.Keys + {Leaf}
  }

  /** Expanded frames await their children, and a frame at position i that is still to be expanded has room for all
      that its subtree pushes. */
  ghost predicate Waiting<V>(stack: seq<Frame<Tree<V>>>, cache: Cache<V>, limit: nat) {
    forall i :: 0 <= i < |stack| ==> FrameWaits(stack, cache, limit, i)
  }

  ghost predicate FrameWaits<V>(stack: seq<Frame<Tree<V>>>, cache: Cache<V>, limit: nat, i: nat)
    requires i < |stack|
  {
    && stack[i].node.Node?
    && (stack[i].expanded ==>
          Awaited(stack, Settled(cache), i, stack[i].node.left) && Awaited(stack, Settled(cache), i, stack[i].node.right))
    && (!stack[i].expanded ==> i + 2 * Height(stack[i].node) <= limit)
  }

  ghost function Work<V>(stack: seq<Frame<Tree<V>>>): nat {
    if stack == [] then 0
    else
      var f := stack[|stack| - 1];
      Work(stack[..|stack| - 1]) + if f.expanded then 1 else 3 * Size(f.node)
  }

  lemma WorkPush<V>(stack: seq<Frame<Tree<V>>>, f: Frame<Tree<V>>)
    ensures Work(stack + [f]) == Work(stack) + if f.expanded then 1 else 3 * Size(f.node)
  {
    assert (stack + [f])[..|stack|] == stack;
  }

  /** The frames that expanding a node leaves: the node itself, then each child still to be digested. */
  function Expanded<V(==)>(rest: seq<Frame<Tree<V>>>, node: Tree<V>, cache: Cache<V>): seq<Frame<Tree<V>>>
    requires node.Node?
  {
    var self := rest + [Frame(node, true)];
    var right := if node.right.Node? && node.right !in cache then self + [Frame(node.right, false)] else self;
    if node.left.Node? && node.left !in cache then right + [Frame(node.left, false)] else right
  }

  lemma ExpandedWork<V>(rest: seq<Frame<Tree<V>>>, node: Tree<V>, cache: Cache<V>)
    requires node.Node?
    ensures Work(Expanded(rest, node, cache)) < Work(rest + [Frame(node, false)])
  {
    var self := rest + [Frame(node, true)];
    WorkPush(rest, Frame(node, true));
    WorkPush(rest, Frame(node, false));
    WorkPush(self, Frame(node.right, false));
    WorkPush(self, Frame(node.left, false));
    WorkPush(self + [Frame(node.right, false)], Frame(node.left, false));
  }

  lemma ExpandedWaits<V>(rest: seq<Frame<Tree<V>>>, node: Tree<V>, cache: Cache<V>, limit: nat)
    requires node.Node? && Waiting(rest + [Frame(node, false)], cache, limit)
    ensures Waiting(Expanded(rest, node, cache), cache, limit) && |Expanded(rest, node, cache)| <= |rest| + 3
    ensures |rest| + 2 <= limit
  {
    var before, next, n := rest + [Frame(node, false)], Expanded(rest, node, cache), |rest|;
    assert FrameWaits(before, cache, limit, n);
    assert Height(node.left) < Height(node) && Height(node.right) < Height(node);
    assert next[n] == Frame(node, true) && forall j :: 0 <= j < n ==> next[j] == rest[j];
    hide Height;
    forall i | 0 <= i < |next| ensures FrameWaits(next, cache, limit, i) {
      if i < n {
        assert FrameWaits(before, cache, limit, i) && next[i] == before[i];
        if next[i].expanded {
          StillAwaited(before, next, Settled(cache), i, next[i].node.left);
          StillAwaited(before, next, Settled(cache), i, next[i].node.right);
        }
      } else if i == n {
        if node.right.Node? && node.right !in cache { assert next[n + 1].node == node.right; }
        if node.left.Node? && node.left !in cache { assert next[|next| - 1].node == node.left; }
      }
    }
  }

  lemma DroppedWaits<V>(stack: seq<Frame<Tree<V>>>, cache: Cache<V>, more: Cache<V>, limit: nat)
    requires stack != [] && Waiting(stack, cache, limit)
    requires stack[|stack| - 1].node in more && forall t :: t in cache ==> t in more
    ensures Waiting(stack[..|stack| - 1], more, limit)
  {
    hide Height;
    var n := |stack| - 1;
    var rest := stack[..n];
    forall i | 0 <= i < n ensures FrameWaits(rest, more, limit, i) {
      assert FrameWaits(stack, cache, limit, i) && rest[i] == stack[i];
      if rest[i].expanded {
        AwaitedBelow(stack, Settled(cache), Settled(more), i, rest[i].node.left);
        AwaitedBelow(stack, Settled(cache), Settled(more), i, rest[i].node.right);
      }
    }
  }

  lemma TopIsNode<V>(stack: seq<Frame<Tree<V>>>, cache: Cache<V>, limit: nat)
    requires stack != [] && Waiting(stack, cache, limit)
    ensures stack[|stack| - 1].node.Node?
  {
    assert FrameWaits(stack, cache, limit, |stack| - 1);
  }

  /** Nothing is above the top frame, so its children are done. */
  lemma TopIsReady<V>(stack: seq<Frame<Tree<V>>>, cache: Cache<V>, limit: nat)
    requires stack != [] && Waiting(stack, cache, limit) && stack[|stack| - 1].expanded
    ensures var node := stack[|stack| - 1].node;
      node.Node? && (node.left.Leaf? || node.left in cache) && (node.right.Leaf? || node.right in cache)
  {
    var n := |stack| - 1;
    assert FrameWaits(stack, cache, limit, n);
    assert Awaited(stack, Settled(cache), n, stack[n].node.left) && Awaited(stack, Settled(cache), n, stack[n].node.right);
  }

  /** Computes the digest of a node whose children are done. */
  method Publish<V(==)>(mix: (nat, nat, nat) -> nat, empty: (nat, nat), cache: Cache<V>, node: Tree<V>) returns (next: Cache<V>)
    requires Honest(mix, empty, cache) && node.Node?
    requires (node.left.Leaf? || node.left in cache) && (node.right.Leaf? || node.right in cache)
    ensures Honest(mix, empty, next) && node in next && forall t :: t in cache ==> t in next
  {
    var leftHash := if node.left.Leaf? then empty.0 else cache[node.left];
    var rightHash := if node.right.Leaf? then empty.1 else cache[node.right];
    DigestIs(mix, empty, node);
    hide Digest;
    next := cache[node := mix(node.rank.content, leftHash, rightHash)];
  }

  lemma ExpandedBase<V>(rest: seq<Frame<Tree<V>>>, node: Tree<V>, cache: Cache<V>)
    requires node.Node?
    ensures Expanded(rest, node, cache) != [] && Expanded(rest, node, cache)[0].node == (rest + [Frame(node, false)])[0].node
  {
  }

  /** Publishes the digest of a node and of every node below it that lacks one. The stack never outgrows the
      2 * (height + 1) frames reserved for it. */
  method DigestNode<V(==)>(mix: (nat, nat, nat) -> nat, empty: (nat, nat), known: Cache<V>, root: Tree<V>)
    returns (status: Status, digest: nat, cache: Cache<V>)
    requires root.Node? && Honest(mix, empty, known)
    ensures status.Ok? && digest == Digest(mix, empty, root) && Honest(mix, empty, cache)
    ensures forall t :: t in known ==> t in cache
  {
    cache := known;
    if root in cache {
      return Ok, cache[root], cache;
    }
    var limit := 2 * Height(root);
    var capacity := 2 * (Height(root) + 1);
    var stack := [Frame(root, false)];
    assert FrameWaits(stack, cache, limit, 0);
    while stack != []
      invariant Waiting(stack, cache, limit) && Honest(mix, empty, cache) && forall t :: t in known ==> t in cache
      invariant root in cache || (stack != [] && stack[0].node == root)
      decreases Work(stack)
    {
      hide Height, Size, Digest, Waiting, Honest, Work, Expanded;
      var n := |stack| - 1;
      TopIsNode(stack, cache, limit);
      var frame, rest := stack[n], stack[..n];
      assert stack == rest + [frame];
      WorkPush(rest, frame);
      NodeWork(frame.node);
      if frame.node in cache {
        DroppedWaits(stack, cache, cache, limit);
        stack := rest;
      } else if !frame.expanded {
        ExpandedWaits(rest, frame.node, cache, limit);
        ExpandedWork(rest, frame.node, cache);
        ExpandedBase(rest, frame.node, cache);
        if |rest| + 3 > capacity {
          assert false;
        }
        stack := Expanded(rest, frame.node, cache);
      } else {
        TopIsReady(stack, cache, limit);
        var next := Publish(mix, empty, cache, frame.node);
        DroppedWaits(stack, cache, next, limit);
        cache, stack := next, rest;
      }
    }
    return Ok, cache[root], cache;
  }

  lemma NodeWork<V>(t: Tree<V>)
    ensures t.Node? ==> Size(t) > 0
  {
  }

  lemma DigestIs<V>(mix: (nat, nat, nat) -> nat, empty: (nat, nat), t: Tree<V>)
    requires t.Node?
    ensures Digest(mix, empty, t) == mix(t.rank.content,
      if t.left.Leaf? then empty.0 else Digest(mix, empty, t.left),
      if t.right.Leaf? then empty.1 else Digest(mix, empty, t.right))
  {
  }

  method HashOf<V(==)>(mix: (nat, nat, nat) -> nat, empty: (nat, nat), known: Cache<V>, t: Tree<V>)
    returns (status: Status, hash: nat, cache: Cache<V>)
    requires Honest(mix, empty, known)
    ensures status.Ok? && hash == ContentHash(mix, empty, t) && Honest(mix, empty, cache)
  {
    if t.Leaf? {
      return Ok, 0, known;
    }
    status, hash, cache := DigestNode(mix, empty, known, t);
  }

  // ----- The lock-step walk -----

  /** Still to compare: every pair must match, and the pair at position i has at most `height - i` levels left. */
  ghost predicate Pending<V>(pol: Policy<V>, stack: seq<(Tree<V>, Tree<V>)>, height: nat, verdict: bool) {
    && (forall i :: 0 <= i < |stack| ==> Height(stack[i].0) + i <= height && Height(stack[i].1) + i <= height)
    && (verdict <==> forall i :: 0 <= i < |stack| ==> Same(pol, stack[i].0, stack[i].1))
  }

  ghost function Weight<V>(stack: seq<(Tree<V>, Tree<V>)>): nat {
    if stack == [] then 0
    else Weight(stack[..|stack| - 1]) + 1 + Size(stack[|stack| - 1].0) + Size(stack[|stack| - 1].1)
  }

  lemma WeightPush<V>(stack: seq<(Tree<V>, Tree<V>)>, pair: (Tree<V>, Tree<V>))
    ensures Weight(stack + [pair]) == Weight(stack) + 1 + Size(pair.0) + Size(pair.1)
  {
    assert (stack + [pair])[..|stack|] == stack;
  }

  lemma {:induction false} SameSelf<V(!new)>(pol: Policy<V>, t: Tree<V>)
    requires Lawful(pol)
    ensures Same(pol, t, t)
  {
    if t.Node? {
      SameSelf(pol, t.left);
      SameSelf(pol, t.right);
      assert pol.Tied(t.value, t.value);
    }
  }

  lemma PopPair<V>(pol: Policy<V>, stack: seq<(Tree<V>, Tree<V>)>, height: nat, verdict: bool)
    requires stack != [] && Pending(pol, stack, height, verdict)
    ensures var n := |stack| - 1; var (l, r) := stack[n];
      && Height(l) + n <= height && Height(r) + n <= height
      && Weight(stack[..n]) < Weight(stack)
      && (!Same(pol, l, r) ==> !verdict)
      && (Same(pol, l, r) ==> Pending(pol, stack[..n], height, verdict))
  {
    hide Same, Height, Size;
  }

  lemma PushChildren<V>(pol: Policy<V>, stack: seq<(Tree<V>, Tree<V>)>, height: nat, verdict: bool)
    requires stack != [] && Pending(pol, stack, height, verdict)
    requires stack[|stack| - 1].0.Node? && stack[|stack| - 1].1.Node?
    requires pol.Tied(stack[|stack| - 1].0.value, stack[|stack| - 1].1.value)
    ensures var n := |stack| - 1; var (l, r) := stack[n];
      var next := stack[..n] + [(l.right, r.right)] + [(l.left, r.left)];
      Pending(pol, next, height, verdict) && Weight(next) < Weight(stack)
  {
    var n := |stack| - 1;
    var (l, r) := stack[n];
    var next := stack[..n] + [(l.right, r.right)] + [(l.left, r.left)];
    assert Same(pol, l, r) <==> Same(pol, next[n].0, next[n].1) && Same(pol, next[n + 1].0, next[n + 1].1);
    assert Height(l.left) < Height(l) && Height(l.right) < Height(l);
    assert Height(r.left) < Height(r) && Height(r.right) < Height(r);
    assert Weight(next) < Weight(stack) by {
      WeightPush(stack[..n], (l.right, r.right));
      WeightPush(stack[..n] + [(l.right, r.right)], (l.left, r.left));
    }
    hide Same, Height, Weight, Size;
    assert forall i :: 0 <= i < n ==> next[i] == stack[i];
  }

  /** The lock-step walk over an explicit stack of node pairs, whose capacity is never exceeded.
      `shared` is address equality: it may recognise any subset of the equal pairs. */
  method NodesEqual<V(!new)>(pol: Policy<V>, shared: (Tree<V>, Tree<V>) -> bool, left: Tree<V>, right: Tree<V>)
    returns (status: Status, equal: bool)
    requires Lawful(pol) && forall t, u :: shared(t, u) ==> t == u
    ensures status.Ok? && (equal <==> Same(pol, left, right))
  {
    var height := if Height(left) > Height(right) then Height(left) else Height(right);
    var capacity := height + 1;
    var stack := [(left, right)];
    ghost var verdict := Same(pol, left, right);
    while stack != []
      invariant Pending(pol, stack, height, verdict)
      decreases Weight(stack)
    {
      hide TotalPreorder, RanksAgree, Pending, Weight, Size;
      var n := |stack| - 1;
      var (l, r) := stack[n];
      PopPair(pol, stack, height, verdict);
      if shared(l, r) || (l.Leaf? && r.Leaf?) {
        SameSelf(pol, l);
        stack := stack[..n];
        continue;
      }
      if l.Leaf? || r.Leaf? {
        return Ok, false;
      }
      if !pol.Tied(l.value, r.value) {
        return Ok, false;
      }
      if n + 2 > capacity {
        assert false;
      }
      PushChildren(pol, stack, height, verdict);
      stack := stack[..n] + [(l.right, r.right)] + [(l.left, r.left)];
    }
    return Ok, true;
  }

  /** Size, digest and walk together decide exactly whether the two sets hold the same classes. */
  method SamePolicyEquals<V(==, !new)>(
    pol: Policy<V>, mix: (nat, nat, nat) -> nat, empty: (nat, nat), known: Cache<V>, shared: (Tree<V>, Tree<V>) -> bool,
    left: Tree<V>, right: Tree<V>)
    returns (status: Status, equal: bool, cache: Cache<V>)
    requires Lawful(pol) && Canonical(pol, left) && Canonical(pol, right) && Honest(mix, empty, known)
    requires forall t, u :: shared(t, u) ==> t == u
    ensures status.Ok? && (equal <==> SameClasses(pol, left, right)) && Honest(mix, empty, cache)
  {
    EqualContentsIsSame(pol, left, right);
    SameSelf(pol, left);
    hide TotalPreorder, RanksAgree, Canonical, Size, ContentHash, SameClasses, Same, Honest;
    if Same(pol, left, right) { SameDigests(pol, mix, empty, left, right); }
    cache := known;
    if shared(left, right) {
      return Ok, true, cache;
    }
    if Size(left) != Size(right) {
      return Ok, false, cache;
    }
    var leftHash, rightHash;
    status, leftHash, cache := HashOf(mix, empty, cache, left);
    status, rightHash, cache := HashOf(mix, empty, cache, right);
    if leftHash != rightHash {
      return Ok, false, cache;
    }
    status, equal := NodesEqual(pol, shared, left, right);
  }

  lemma EqualContentsIsSame<V(!new)>(pol: Policy<V>, t: Tree<V>, u: Tree<V>)
    requires Lawful(pol) && Canonical(pol, t) && Canonical(pol, u)
    ensures Same(pol, t, u) <==> SameClasses(pol, t, u)
  {
    hide TotalPreorder, RanksAgree, Canonical, Same, SameClasses;
    if Same(pol, t, u) {
      SameHasSameClasses(pol, t, u);
    }
    if SameClasses(pol, t, u) {
      SameClassesAreSame(pol, t, u);
    }
  }

  lemma SameHasSameClasses<V(!new)>(pol: Policy<V>, t: Tree<V>, u: Tree<V>)
    requires Lawful(pol) && Same(pol, t, u)
    ensures SameClasses(pol, t, u)
  {
    forall x ensures Has(pol, t, x) <==> Has(pol, u, x) { SameContents(pol, t, u, x); }
  }

  lemma SameClassesAreSame<V(!new)>(pol: Policy<V>, t: Tree<V>, u: Tree<V>)
    requires Lawful(pol) && Canonical(pol, t) && Canonical(pol, u) && SameClasses(pol, t, u)
    ensures Same(pol, t, u)
  {
    CanonicalIsUnique(pol, t, u);
  }

  /** The two sets have the same elements up to ties. */
  ghost predicate SameClasses<V(!new)>(pol: Policy<V>, t: Tree<V>, u: Tree<V>) {
    forall x :: Has(pol, t, x) <==> Has(pol, u, x)
  }
}
