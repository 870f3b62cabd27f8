/** The AVL tree of the priority search queue: ordered by key, each node caching its size, its height and the
    winner of its subtree, the entry that comes first by priority and then by key. */
module PsqTree {
  import opened Comparisons
  import opened Machine
  import opened KeyOrder
  import opened SortedEntries

  datatype Item<K, P, V> = Item(key: K, priority: P, value: V)

  datatype Policy<!K, !P, !V> = Policy(
    keys: (K, K) -> int, priorities: (P, P) -> int, samePriority: (P, P) -> bool, sameValue: (V, V) -> bool)
  {
    function ByKey(): Order<Item<K, P, V>, K> {
      Order((e: Item<K, P, V>) => e.key, keys)
    }

    function ByPriority(): Order<Item<K, P, V>, P> {
      Order((e: Item<K, P, V>) => e.priority, priorities)
    }
  }

  /** Keys and priorities are total preorders. */
  ghost predicate LawfulPolicy<K(!new), P(!new), V(!new)>(pol: Policy<K, P, V>) {
    Lawful(pol.ByKey()) && Lawful(pol.ByPriority())
  }

  datatype Tree<K, P, V> =
    | Empty
    | Branch(entry: Item<K, P, V>, winner: Item<K, P, V>, count: nat, height: nat, left: Tree<K, P, V>, right: Tree<K, P, V>)

  function Height<K, P, V>(t: Tree<K, P, V>): nat {
    if t.Empty? then 0 else t.height
  }

  function Count<K, P, V>(t: Tree<K, P, V>): nat {
    if t.Empty? then 0 else t.count
  }

  function InOrder<K, P, V>(t: Tree<K, P, V>): seq<Item<K, P, V>> {
    if t.Empty? then [] else InOrder(t.left) + [t.entry] + InOrder(t.right)
  }

  // ----- Building nodes -----

  predicate Wins<K, P, V>(pol: Policy<K, P, V>, x: Item<K, P, V>, y: Item<K, P, V>) {
    var c := pol.priorities(x.priority, y.priority);
    if c == 0 then pol.keys(x.key, y.key) < 0 else c < 0
  }

  function SelectWinner<K, P, V>(pol: Policy<K, P, V>, e: Item<K, P, V>, l: Tree<K, P, V>, r: Tree<K, P, V>): Item<K, P, V> {
    var first := if l.Branch? && Wins(pol, l.winner, e) then l.winner else e;
    if r.Branch? && Wins(pol, r.winner, first) then r.winner else first
  }

  function Create<K, P, V>(pol: Policy<K, P, V>, e: Item<K, P, V>, l: Tree<K, P, V>, r: Tree<K, P, V>): Tree<K, P, V> {
    Branch(e, SelectWinner(pol, e, l, r), Count(l) + Count(r) + 1,
           (if Height(l) > Height(r) then Height(l) else Height(r)) + 1, l, r)
  }

  /** Every cached field is what its children say. */
  ghost predicate Cached<K, P, V>(pol: Policy<K, P, V>, t: Tree<K, P, V>) {
    t.Branch? ==> t == Create(pol, t.entry, t.left, t.right) && Cached(pol, t.left) && Cached(pol, t.right)
  }

  ghost predicate Avl<K, P, V>(t: Tree<K, P, V>) {
    t.Branch? ==>
      && Height(t.left) <= Height(t.right) + 1 && Height(t.right) <= Height(t.left) + 1
      && Avl(t.left) && Avl(t.right)
  }

  /** Cached and height-balanced. */
  ghost predicate Sound<K, P, V>(pol: Policy<K, P, V>, t: Tree<K, P, V>) {
    Cached(pol, t) && Avl(t)
  }

  lemma CreateCached<K, P, V>(pol: Policy<K, P, V>, e: Item<K, P, V>, l: Tree<K, P, V>, r: Tree<K, P, V>)
    requires Cached(pol, l) && Cached(pol, r)
    ensures Cached(pol, Create(pol, e, l, r))
  {
  }

  function Balance<K, P, V>(pol: Policy<K, P, V>, e: Item<K, P, V>, l: Tree<K, P, V>, r: Tree<K, P, V>): (t: Tree<K, P, V>)
    requires Cached(pol, l) && Cached(pol, r)
    ensures Cached(pol, t)
  {
    if Height(l) > Height(r) + 1 then
      if Height(l.left) >= Height(l.right) then Create(pol, l.entry, l.left, Create(pol, e, l.right, r))
      else
        var middle := l.right;
        assert Cached(pol, middle);
        CreateCached(pol, l.entry, l.left, middle.left);
        CreateCached(pol, e, middle.right, r);
        Create(pol, middle.entry, Create(pol, l.entry, l.left, middle.left), Create(pol, e, middle.right, r))
    else if Height(r) > Height(l) + 1 then
      if Height(r.right) >= Height(r.left) then Create(pol, r.entry, Create(pol, e, l, r.left), r.right)
      else
        var middle := r.left;
        assert Cached(pol, middle);
        CreateCached(pol, e, l, middle.left);
        CreateCached(pol, r.entry, middle.right, r.right);
        Create(pol, middle.entry, Create(pol, e, l, middle.left), Create(pol, r.entry, middle.right, r.right))
    else Create(pol, e, l, r)
  }

  /** A cached node and its height. */
  lemma Parts<K, P, V>(pol: Policy<K, P, V>, t: Tree<K, P, V>)
    requires Sound(pol, t) && t.Branch?
    ensures Sound(pol, t.left) && Sound(pol, t.right)
    ensures Height(t) == 1 + (if Height(t.left) > Height(t.right) then Height(t.left) else Height(t.right))
    ensures Height(t.left) <= Height(t.right) + 1 && Height(t.right) <= Height(t.left) + 1
  {
  }

  lemma HeightFacts<K, P, V>(t: Tree<K, P, V>)
    ensures Height(t) > 0 ==> t.Branch?
  {
  }

  lemma Joined<K, P, V>(pol: Policy<K, P, V>, e: Item<K, P, V>, l: Tree<K, P, V>, r: Tree<K, P, V>)
    requires Sound(pol, l) && Sound(pol, r) && Height(l) <= Height(r) + 1 && Height(r) <= Height(l) + 1
    ensures Sound(pol, Create(pol, e, l, r))
    ensures Height(Create(pol, e, l, r)) == 1 + (if Height(l) > Height(r) then Height(l) else Height(r))
    ensures InOrder(Create(pol, e, l, r)) == InOrder(l) + [e] + InOrder(r)
  {
  }

  /** The heights that one insertion or deletion can leave, and those that balancing answers with. */
  ghost predicate Rebalanced<K, P, V>(pol: Policy<K, P, V>, t: Tree<K, P, V>, l: Tree<K, P, V>, r: Tree<K, P, V>) {
    var top := if Height(l) > Height(r) then Height(l) else Height(r);
    && Sound(pol, t) && top <= Height(t) <= top + 1
    && (Height(l) <= Height(r) + 1 && Height(r) <= Height(l) + 1 ==> Height(t) == top + 1)
  }

  lemma BalanceIsSound<K, P, V>(pol: Policy<K, P, V>, e: Item<K, P, V>, l: Tree<K, P, V>, r: Tree<K, P, V>)
    requires Sound(pol, l) && Sound(pol, r) && Height(l) <= Height(r) + 2 && Height(r) <= Height(l) + 2
    ensures Rebalanced(pol, Balance(pol, e, l, r), l, r)
  {
    HeightFacts(l);
    HeightFacts(r);
    if Height(l) > Height(r) + 1 {
      RotateRight(pol, e, l, r);
    } else if Height(r) > Height(l) + 1 {
      RotateLeft(pol, e, l, r);
    } else {
      Joined(pol, e, l, r);
    }
  }

  lemma RotateRight<K, P, V>(pol: Policy<K, P, V>, e: Item<K, P, V>, l: Tree<K, P, V>, r: Tree<K, P, V>)
    requires Sound(pol, l) && Sound(pol, r) && Height(l) == Height(r) + 2 && l.Branch?
    ensures Rebalanced(pol, Balance(pol, e, l, r), l, r)
  {
    Parts(pol, l);
    hide Sound, Create, Height;
    if Height(l.left) >= Height(l.right) {
      Joined(pol, e, l.right, r);
      Joined(pol, l.entry, l.left, Create(pol, e, l.right, r));
    } else {
      var middle := l.right;
      HeightFacts(middle);
      Parts(pol, middle);
      Joined(pol, l.entry, l.left, middle.left);
      Joined(pol, e, middle.right, r);
      Joined(pol, middle.entry, Create(pol, l.entry, l.left, middle.left), Create(pol, e, middle.right, r));
    }
  }

  lemma RotateLeft<K, P, V>(pol: Policy<K, P, V>, e: Item<K, P, V>, l: Tree<K, P, V>, r: Tree<K, P, V>)
    requires Sound(pol, l) && Sound(pol, r) && Height(r) == Height(l) + 2 && r.Branch?
    ensures Rebalanced(pol, Balance(pol, e, l, r), l, r)
  {
    Parts(pol, r);
    hide Sound, Create, Height;
    if Height(r.right) >= Height(r.left) {
      Joined(pol, e, l, r.left);
      Joined(pol, r.entry, Create(pol, e, l, r.left), r.right);
    } else {
      var middle := r.left;
      HeightFacts(middle);
      Parts(pol, middle);
      Joined(pol, e, l, middle.left);
      Joined(pol, r.entry, middle.right, r.right);
      Joined(pol, middle.entry, Create(pol, e, l, middle.left), Create(pol, r.entry, middle.right, r.right));
    }
  }

  lemma Rejoin<E>(a: seq<E>, x: E, b: seq<E>, y: E, c: seq<E>)
    ensures (a + [x] + b) + [y] + c == a + [x] + (b + [y] + c)
  {
  }

  lemma CreateInOrder<K, P, V>(pol: Policy<K, P, V>, e: Item<K, P, V>, l: Tree<K, P, V>, r: Tree<K, P, V>)
    ensures InOrder(Create(pol, e, l, r)) == InOrder(l) + [e] + InOrder(r)
  {
  }

  lemma BalanceInOrder<K, P, V>(pol: Policy<K, P, V>, e: Item<K, P, V>, l: Tree<K, P, V>, r: Tree<K, P, V>)
    requires Cached(pol, l) && Cached(pol, r)
    ensures InOrder(Balance(pol, e, l, r)) == InOrder(l) + [e] + InOrder(r)
  {
    HeightFacts(l);
    HeightFacts(r);
    CreateInOrder(pol, e, l, r);
    if Height(l) > Height(r) + 1 {
      RightInOrder(pol, e, l, r);
    } else if Height(r) > Height(l) + 1 {
      LeftInOrder(pol, e, l, r);
    }
  }

  lemma RightInOrder<K, P, V>(pol: Policy<K, P, V>, e: Item<K, P, V>, l: Tree<K, P, V>, r: Tree<K, P, V>)
    requires Cached(pol, l) && Cached(pol, r) && Height(l) > Height(r) + 1 && l.Branch?
    ensures InOrder(Balance(pol, e, l, r)) == InOrder(l) + [e] + InOrder(r)
  {
    hide Cached, Create;
    if Height(l.left) >= Height(l.right) {
      CreateInOrder(pol, e, l.right, r);
      CreateInOrder(pol, l.entry, l.left, Create(pol, e, l.right, r));
      Rejoin(InOrder(l.left), l.entry, InOrder(l.right), e, InOrder(r));
    } else {
      var middle := l.right;
      HeightFacts(middle);
      var a, b := Create(pol, l.entry, l.left, middle.left), Create(pol, e, middle.right, r);
      CreateInOrder(pol, l.entry, l.left, middle.left);
      CreateInOrder(pol, e, middle.right, r);
      CreateInOrder(pol, middle.entry, a, b);
      Rejoin(InOrder(l.left), l.entry, InOrder(middle.left), middle.entry, InOrder(middle.right));
      Rejoin(InOrder(l.left) + [l.entry] + InOrder(middle.left), middle.entry, InOrder(middle.right), e, InOrder(r));
    }
  }

  lemma LeftInOrder<K, P, V>(pol: Policy<K, P, V>, e: Item<K, P, V>, l: Tree<K, P, V>, r: Tree<K, P, V>)
    requires Cached(pol, l) && Cached(pol, r) && Height(r) > Height(l) + 1 && r.Branch?
    ensures InOrder(Balance(pol, e, l, r)) == InOrder(l) + [e] + InOrder(r)
  {
    hide Cached, Create;
    if Height(r.right) >= Height(r.left) {
      CreateInOrder(pol, e, l, r.left);
      CreateInOrder(pol, r.entry, Create(pol, e, l, r.left), r.right);
      Rejoin(InOrder(l), e, InOrder(r.left), r.entry, InOrder(r.right));
    } else {
      var middle := r.left;
      HeightFacts(middle);
      var a, b := Create(pol, e, l, middle.left), Create(pol, r.entry, middle.right, r.right);
      CreateInOrder(pol, e, l, middle.left);
      CreateInOrder(pol, r.entry, middle.right, r.right);
      CreateInOrder(pol, middle.entry, a, b);
      Rejoin(InOrder(middle.left), middle.entry, InOrder(middle.right), r.entry, InOrder(r.right));
      Rejoin(InOrder(l), e, InOrder(middle.left), middle.entry, InOrder(b));
    }
  }

  // ----- The cached sizes -----

  /** The longest path, counted in nodes. */
  ghost function Depth<K, P, V>(t: Tree<K, P, V>): nat {
    if t.Empty? then 0 else 1 + if Depth(t.left) > Depth(t.right) then Depth(t.left) else Depth(t.right)
  }

  /** Cached counts and heights are the real ones. */
  lemma {:induction false} CachedSizes<K, P, V>(pol: Policy<K, P, V>, t: Tree<K, P, V>)
    requires Cached(pol, t)
    ensures Count(t) == |InOrder(t)| && Height(t) == Depth(t)
  {
    if t.Branch? {
      CachedSizes(pol, t.left);
      CachedSizes(pol, t.right);
    }
  }

  /** The height is at most twice the binary logarithm of the size. */
  lemma {:induction false} HeightIsLogarithmic<K, P, V>(pol: Policy<K, P, V>, t: Tree<K, P, V>)
    requires Sound(pol, t)
    ensures Power(Depth(t) / 2) <= |InOrder(t)| + 1
  {
    if t.Branch? {
      Parts(pol, t);
      HeightIsLogarithmic(pol, t.left);
      HeightIsLogarithmic(pol, t.right);
      CachedSizes(pol, t);
      CachedSizes(pol, t.left);
      CachedSizes(pol, t.right);
      var h, l, r := Depth(t), Depth(t.left), Depth(t.right);
      if h >= 2 {
        PowerMonotone(h / 2 - 1, l / 2);
        PowerMonotone(h / 2 - 1, r / 2);
      }
    }
  }

  // ----- The cached winner -----

  lemma WinsFacts<K(!new), P(!new), V(!new)>(pol: Policy<K, P, V>, x: Item<K, P, V>, y: Item<K, P, V>, z: Item<K, P, V>)
    requires LawfulPolicy(pol)
    ensures !Wins(pol, x, x) && !(Wins(pol, x, y) && Wins(pol, y, x))
    ensures !Wins(pol, x, y) && !Wins(pol, y, z) ==> !Wins(pol, x, z)
  {
    hide TotalPreorder;
    OrderFacts(pol.priorities, x.priority, y.priority, z.priority);
    OrderFacts(pol.priorities, y.priority, x.priority, z.priority);
    OrderFacts(pol.priorities, x.priority, z.priority, y.priority);
    OrderFacts(pol.priorities, z.priority, y.priority, x.priority);
    OrderFacts(pol.keys, x.key, y.key, z.key);
    OrderFacts(pol.keys, x.key, z.key, y.key);
    OrderFacts(pol.keys, y.key, x.key, z.key);
    OrderFacts(pol.keys, z.key, y.key, x.key);
  }

  /** w is the entry of s with the least priority, and with the least key among those that tie. */
  ghost predicate First<K, P, V>(pol: Policy<K, P, V>, w: Item<K, P, V>, s: seq<Item<K, P, V>>) {
    && w in s
    && (forall i :: 0 <= i < |s| ==> pol.priorities(w.priority, s[i].priority) <= 0)
    && (forall i :: 0 <= i < |s| && pol.priorities(w.priority, s[i].priority) == 0 ==> pol.keys(w.key, s[i].key) <= 0)
  }

  /** w is an entry of s that no entry of s beats. */
  ghost predicate Unbeaten<K, P, V>(pol: Policy<K, P, V>, w: Item<K, P, V>, s: seq<Item<K, P, V>>) {
    w in s && forall i :: 0 <= i < |s| ==> !Wins(pol, s[i], w)
  }

  /** The cached winner is the first entry of its subtree by priority and then by key. */
  lemma WinnerIsFirst<K(!new), P(!new), V(!new)>(pol: Policy<K, P, V>, t: Tree<K, P, V>)
    requires LawfulPolicy(pol) && Cached(pol, t) && t.Branch?
    ensures First(pol, t.winner, InOrder(t))
  {
    WinnerIsUnbeaten(pol, t);
    var s, w := InOrder(t), t.winner;
    hide TotalPreorder, Cached, InOrder;
    forall i | 0 <= i < |s| ensures pol.priorities(w.priority, s[i].priority) <= 0
                            ensures pol.priorities(w.priority, s[i].priority) == 0 ==> pol.keys(w.key, s[i].key) <= 0
    {
      OrderFacts(pol.priorities, w.priority, s[i].priority, w.priority);
      OrderFacts(pol.keys, w.key, s[i].key, w.key);
      OrderFacts(pol.priorities, s[i].priority, w.priority, w.priority);
      OrderFacts(pol.keys, s[i].key, w.key, w.key);
    }
  }

  lemma {:induction false} WinnerIsUnbeaten<K(!new), P(!new), V(!new)>(pol: Policy<K, P, V>, t: Tree<K, P, V>)
    requires LawfulPolicy(pol) && Cached(pol, t) && t.Branch?
    ensures Unbeaten(pol, t.winner, InOrder(t))
  {
    hide LawfulPolicy, Wins;
    var l, r, e := InOrder(t.left), InOrder(t.right), t.entry;
    if t.left.Branch? { WinnerIsUnbeaten(pol, t.left); }
    if t.right.Branch? { WinnerIsUnbeaten(pol, t.right); }
    var first := if t.left.Branch? && Wins(pol, t.left.winner, e) then t.left.winner else e;
    WinsFacts(pol, e, e, e);
    if t.left.Branch? { WinsFacts(pol, t.left.winner, e, e); }
    assert Unbeaten(pol, first, l + [e]) by {
      forall i | 0 <= i < |l| ensures !Wins(pol, l[i], first) { WinsFacts(pol, l[i], t.left.winner, e); }
    }
    WinsFacts(pol, first, first, first);
    if t.right.Branch? { WinsFacts(pol, t.right.winner, first, first); }
    forall i | 0 <= i < |l + [e]| ensures !Wins(pol, (l + [e])[i], t.winner) {
      WinsFacts(pol, (l + [e])[i], first, t.winner);
    }
    forall i | 0 <= i < |r| ensures !Wins(pol, r[i], t.winner) {
      WinsFacts(pol, r[i], t.right.winner, first);
    }
    JoinUnbeaten(pol, t.winner, l + [e], r);
    assert InOrder(t) == l + [e] + r;
  }

  lemma JoinUnbeaten<K, P, V>(pol: Policy<K, P, V>, w: Item<K, P, V>, a: seq<Item<K, P, V>>, b: seq<Item<K, P, V>>)
    requires w in a || w in b
    requires forall i :: 0 <= i < |a| ==> !Wins(pol, a[i], w)
    requires forall i :: 0 <= i < |b| ==> !Wins(pol, b[i], w)
    ensures Unbeaten(pol, w, a + b)
  {
    hide Wins;
  }
}
