/** The operations of the priority search queue. Edits walk down a path array and rebuild it; the range query
    prunes by the cached winners and keeps a bounded stack. */
module PrioritySearchQueue {
  import opened Comparisons
  import opened Options
  import opened KeyOrder
  import opened SortedEntries
  import opened PsqTree

  datatype Status = Ok | InconsistentPolicy

  ghost predicate Valid<K, P, V>(pol: Policy<K, P, V>, t: Tree<K, P, V>) {
    Sound(pol, t) && Sorted(pol.ByKey(), InOrder(t))
  }

  // ----- What the edits compute -----

  function Existing<K, P, V>(pol: Policy<K, P, V>, t: Tree<K, P, V>, key: K): Option<Item<K, P, V>> {
    if t.Empty? then None
    else if pol.keys(key, t.entry.key) == 0 then Some(t.entry)
    else if pol.keys(key, t.entry.key) < 0 then Existing(pol, t.left, key)
    else Existing(pol, t.right, key)
  }

  /** A replaced entry keeps its stored key. */
  function SetTree<K, P, V>(pol: Policy<K, P, V>, t: Tree<K, P, V>, key: K, priority: P, value: V): (r: Tree<K, P, V>)
    requires Sound(pol, t)
    ensures Sound(pol, r) && Height(t) <= Height(r) <= Height(t) + 1
  {
    if t.Empty? then
      Joined(pol, Item(key, priority, value), Empty, Empty);
      Create(pol, Item(key, priority, value), Empty, Empty)
    else
      Parts(pol, t);
      if pol.keys(key, t.entry.key) == 0 then
        Joined(pol, Item(t.entry.key, priority, value), t.left, t.right);
        Create(pol, Item(t.entry.key, priority, value), t.left, t.right)
      else if pol.keys(key, t.entry.key) < 0 then
        var l := SetTree(pol, t.left, key, priority, value);
        BalanceIsSound(pol, t.entry, l, t.right);
        Balance(pol, t.entry, l, t.right)
      else
        var r := SetTree(pol, t.right, key, priority, value);
        BalanceIsSound(pol, t.entry, t.left, r);
        Balance(pol, t.entry, t.left, r)
  }

  function DeleteMin<K, P, V>(pol: Policy<K, P, V>, t: Tree<K, P, V>): (r: (Item<K, P, V>, Tree<K, P, V>))
    requires Sound(pol, t) && t.Branch?
    ensures Sound(pol, r.1) && Height(t) - 1 <= Height(r.1) <= Height(t)
  {
    Parts(pol, t);
    if t.left.Empty? then (t.entry, t.right)
    else
      var (e, l) := DeleteMin(pol, t.left);
      BalanceIsSound(pol, t.entry, l, t.right);
      (e, Balance(pol, t.entry, l, t.right))
  }

  function RemoveRoot<K, P, V>(pol: Policy<K, P, V>, t: Tree<K, P, V>): (r: Tree<K, P, V>)
    requires Sound(pol, t) && t.Branch?
    ensures Sound(pol, r) && Height(t) - 1 <= Height(r) <= Height(t)
  {
    Parts(pol, t);
    if t.left.Empty? then t.right
    else if t.right.Empty? then t.left
    else
      var (e, r) := DeleteMin(pol, t.right);
      BalanceIsSound(pol, e, t.left, r);
      Balance(pol, e, t.left, r)
  }

  function RemoveTree<K, P, V>(pol: Policy<K, P, V>, t: Tree<K, P, V>, key: K): (r: Tree<K, P, V>)
    requires Sound(pol, t)
    ensures Sound(pol, r) && Height(t) - 1 <= Height(r) <= Height(t)
  {
    if t.Empty? then Empty
    else
      Parts(pol, t);
      if pol.keys(key, t.entry.key) == 0 then RemoveRoot(pol, t)
      else if pol.keys(key, t.entry.key) < 0 then
        var l := RemoveTree(pol, t.left, key);
        BalanceIsSound(pol, t.entry, l, t.right);
        Balance(pol, t.entry, l, t.right)
      else
        var r := RemoveTree(pol, t.right, key);
        BalanceIsSound(pol, t.entry, t.left, r);
        Balance(pol, t.entry, t.left, r)
  }

  // ----- A plain sorted list as the reference -----

  function ListSet<K, P, V>(pol: Policy<K, P, V>, s: seq<Item<K, P, V>>, key: K, priority: P, value: V): seq<Item<K, P, V>> {
    if s == [] then [Item(key, priority, value)]
    else if pol.keys(key, s[0].key) == 0 then [Item(s[0].key, priority, value)] + s[1..]
    else if pol.keys(key, s[0].key) < 0 then [Item(key, priority, value)] + s
    else [s[0]] + ListSet(pol, s[1..], key, priority, value)
  }

  function ListRemove<K, P, V>(pol: Policy<K, P, V>, s: seq<Item<K, P, V>>, key: K): seq<Item<K, P, V>> {
    if s == [] then []
    else if pol.keys(key, s[0].key) == 0 then s[1..]
    else if pol.keys(key, s[0].key) < 0 then s
    else [s[0]] + ListRemove(pol, s[1..], key)
  }

  function ListFind<K, P, V>(pol: Policy<K, P, V>, s: seq<Item<K, P, V>>, key: K): Option<Item<K, P, V>> {
    if s == [] then None
    else if pol.keys(key, s[0].key) == 0 then Some(s[0])
    else ListFind(pol, s[1..], key)
  }

  /** The three list operations, in terms of the place of the key. */
  lemma {:induction false} ListCut<K(!new), P(!new), V(!new)>(
    pol: Policy<K, P, V>, s: seq<Item<K, P, V>>, key: K, priority: P, value: V,
    a: seq<Item<K, P, V>>, m: seq<Item<K, P, V>>, b: seq<Item<K, P, V>>)
    requires LawfulPolicy(pol) && Cut(pol.ByKey(), s, key, a, m, b)
    ensures ListSet(pol, s, key, priority, value) == a + [Item(if m == [] then key else m[0].key, priority, value)] + b
    ensures ListRemove(pol, s, key) == a + b
    ensures ListFind(pol, s, key) == if m == [] then None else Some(m[0])
    decreases |s|
  {
    hide TotalPreorder;
    var ord := pol.ByKey();
    if a != [] {
      assert s[0] == a[0];
      OrderFacts(ord.cmp, a[0].key, key, key);
      OrderFacts(ord.cmp, key, a[0].key, key);
      assert s[1..] == a[1..] + m + b;
      assert Cut(ord, s[1..], key, a[1..], m, b);
      ListCut(pol, s[1..], key, priority, value, a[1..], m, b);
      assert a == [a[0]] + a[1..];
    } else if m != [] {
      assert s[0] == m[0] && s[1..] == b;
    } else if b != [] {
      assert s == b;
      OrderFacts(ord.cmp, key, b[0].key, key);
      ListFindNone(pol, b, key);
    }
  }

  lemma {:induction false} ListFindNone<K(!new), P(!new), V(!new)>(pol: Policy<K, P, V>, b: seq<Item<K, P, V>>, key: K)
    requires LawfulPolicy(pol) && AllAbove(pol.ByKey(), b, key)
    ensures ListFind(pol, b, key) == None
  {
    hide TotalPreorder;
    if b != [] {
      OrderFacts(pol.keys, key, b[0].key, key);
      ListFindNone(pol, b[1..], key);
    }
  }

  /** Writing these over the entry would change nothing that the policy can see. */
  ghost predicate Repeats<K, P, V>(pol: Policy<K, P, V>, e: Item<K, P, V>, priority: P, value: V) {
    pol.priorities(priority, e.priority) == 0 && pol.samePriority(priority, e.priority) && pol.sameValue(value, e.value)
  }

  /** A lookup finds the entry of the key's class. */
  lemma {:induction false} ListFindFacts<K(!new), P(!new), V(!new)>(
    pol: Policy<K, P, V>, s: seq<Item<K, P, V>>, key: K, e: Item<K, P, V>)
    requires LawfulPolicy(pol) && Sorted(pol.ByKey(), s)
    ensures ListFind(pol, s, key) == Some(e) <==> e in s && pol.keys(key, e.key) == 0
  {
    hide TotalPreorder;
    if s != [] {
      ListFindFacts(pol, s[1..], key, e);
      if e in s[1..] {
        var i :| 0 <= i < |s[1..]| && s[1..][i] == e;
        assert pol.ByKey().Less(s[0].key, s[i + 1].key);
        OrderFacts(pol.keys, s[0].key, e.key, key);
        OrderFacts(pol.keys, key, s[0].key, e.key);
      }
    }
  }

  /** A set is seen by its own class, with the stored key, and by no other; a removal likewise. */
  lemma EditsAreRead<K(!new), P(!new), V(!new)>(
    pol: Policy<K, P, V>, s: seq<Item<K, P, V>>, key: K, priority: P, value: V, k: K)
    requires LawfulPolicy(pol) && Sorted(pol.ByKey(), s)
    ensures var found := ListFind(pol, s, key);
      ListFind(pol, ListSet(pol, s, key, priority, value), k)
      == if pol.keys(k, key) == 0 then Some(Item(if found.Some? then found.value.key else key, priority, value))
         else ListFind(pol, s, k)
    ensures ListFind(pol, ListRemove(pol, s, key), k) == if pol.keys(k, key) == 0 then None else ListFind(pol, s, k)
    decreases |s|
  {
    hide TotalPreorder;
    OrderFacts(pol.keys, k, key, key);
    if s != [] {
      var x := s[0].key;
      OrderFacts(pol.keys, k, key, x);
      OrderFacts(pol.keys, key, k, x);
      OrderFacts(pol.keys, x, key, k);
      OrderFacts(pol.keys, k, x, key);
      OrderFacts(pol.keys, key, x, k);
      EditsAreRead(pol, s[1..], key, priority, value, k);
      NotAbove(pol, s[1..], x, key);
      NotAbove(pol, s[1..], x, k);
      var edited, removed := ListSet(pol, s, key, priority, value), ListRemove(pol, s, key);
      if pol.keys(key, x) == 0 {
        assert edited[1..] == s[1..];
      } else if pol.keys(key, x) < 0 {
        assert edited[1..] == s;
      } else {
        assert edited[1..] == ListSet(pol, s[1..], key, priority, value);
        assert removed[1..] == ListRemove(pol, s[1..], key);
      }
    }
  }

  /** A key that is not above x is not found among keys above x. */
  lemma NotAbove<K(!new), P(!new), V(!new)>(pol: Policy<K, P, V>, s: seq<Item<K, P, V>>, x: K, key: K)
    requires LawfulPolicy(pol) && Sorted(pol.ByKey(), s) && AllAbove(pol.ByKey(), s, x)
    ensures pol.keys(key, x) <= 0 ==> ListFind(pol, s, key).None?
  {
    hide TotalPreorder;
    if pol.keys(key, x) <= 0 && ListFind(pol, s, key).Some? {
      var e := ListFind(pol, s, key).value;
      ListFindFacts(pol, s, key, e);
      OrderFacts(pol.keys, x, e.key, key);
      OrderFacts(pol.keys, key, x, e.key);
    }
  }

  // ----- The edits refine the list -----

  lemma ValidParts<K, P, V>(pol: Policy<K, P, V>, t: Tree<K, P, V>)
    requires Valid(pol, t) && t.Branch?
    ensures Valid(pol, t.left) && Valid(pol, t.right)
    ensures AllBelow(pol.ByKey(), InOrder(t.left), t.entry.key) && AllAbove(pol.ByKey(), InOrder(t.right), t.entry.key)
  {
    SortedParts(pol.ByKey(), InOrder(t.left), t.entry, InOrder(t.right));
  }

  lemma {:induction false} DeleteMinInOrder<K, P, V>(pol: Policy<K, P, V>, t: Tree<K, P, V>)
    requires Sound(pol, t) && t.Branch?
    ensures [DeleteMin(pol, t).0] + InOrder(DeleteMin(pol, t).1) == InOrder(t)
  {
    hide Balance;
    if t.left.Branch? {
      DeleteMinInOrder(pol, t.left);
      BalanceInOrder(pol, t.entry, DeleteMin(pol, t.left).1, t.right);
    }
  }

  lemma RemoveRootInOrder<K, P, V>(pol: Policy<K, P, V>, t: Tree<K, P, V>)
    requires Sound(pol, t) && t.Branch?
    ensures InOrder(RemoveRoot(pol, t)) == InOrder(t.left) + InOrder(t.right)
  {
    hide Balance, DeleteMin;
    if t.left.Branch? && t.right.Branch? {
      DeleteMinInOrder(pol, t.right);
      var (e, r) := DeleteMin(pol, t.right);
      BalanceInOrder(pol, e, t.left, r);
      assert InOrder(t.left) + [e] + InOrder(r) == InOrder(t.left) + ([e] + InOrder(r));
    }
  }

  /** Both edits and the lookup, in terms of the place of the key. */
  ghost predicate EditsAt<K, P, V>(
    pol: Policy<K, P, V>, t: Tree<K, P, V>, key: K, priority: P, value: V,
    a: seq<Item<K, P, V>>, m: seq<Item<K, P, V>>, b: seq<Item<K, P, V>>)
    requires Sound(pol, t)
  {
    && Cut(pol.ByKey(), InOrder(t), key, a, m, b)
    && InOrder(SetTree(pol, t, key, priority, value)) == a + [Item(if m == [] then key else m[0].key, priority, value)] + b
    && InOrder(RemoveTree(pol, t, key)) == a + b
    && Existing(pol, t, key) == if m == [] then None else Some(m[0])
  }

  /** One level of both edits, as sequences. */
  lemma EditNode<K, P, V>(pol: Policy<K, P, V>, t: Tree<K, P, V>, key: K, priority: P, value: V)
    requires Sound(pol, t) && t.Branch?
    ensures Sound(pol, t.left) && Sound(pol, t.right) && InOrder(t) == InOrder(t.left) + [t.entry] + InOrder(t.right)
    ensures var l, r, x, c := InOrder(t.left), InOrder(t.right), t.entry, pol.keys(key, t.entry.key);
      if c == 0 then
        && InOrder(SetTree(pol, t, key, priority, value)) == l + [Item(x.key, priority, value)] + r
        && InOrder(RemoveTree(pol, t, key)) == l + r && Existing(pol, t, key) == Some(x)
      else if c < 0 then
        && InOrder(SetTree(pol, t, key, priority, value)) == InOrder(SetTree(pol, t.left, key, priority, value)) + [x] + r
        && InOrder(RemoveTree(pol, t, key)) == InOrder(RemoveTree(pol, t.left, key)) + [x] + r
        && Existing(pol, t, key) == Existing(pol, t.left, key)
      else
        && InOrder(SetTree(pol, t, key, priority, value)) == l + [x] + InOrder(SetTree(pol, t.right, key, priority, value))
        && InOrder(RemoveTree(pol, t, key)) == l + [x] + InOrder(RemoveTree(pol, t.right, key))
        && Existing(pol, t, key) == Existing(pol, t.right, key)
  {
    Parts(pol, t);
    hide Balance, RemoveRoot, Sound, Create;
    var c := pol.keys(key, t.entry.key);
    if c == 0 {
      RemoveRootInOrder(pol, t);
      CreateInOrder(pol, Item(t.entry.key, priority, value), t.left, t.right);
    } else if c < 0 {
      SoundIsCached(pol, t.right);
      SoundIsCached(pol, SetTree(pol, t.left, key, priority, value));
      SoundIsCached(pol, RemoveTree(pol, t.left, key));
      BalanceInOrder(pol, t.entry, SetTree(pol, t.left, key, priority, value), t.right);
      BalanceInOrder(pol, t.entry, RemoveTree(pol, t.left, key), t.right);
    } else {
      SoundIsCached(pol, t.left);
      SoundIsCached(pol, SetTree(pol, t.right, key, priority, value));
      SoundIsCached(pol, RemoveTree(pol, t.right, key));
      BalanceInOrder(pol, t.entry, t.left, SetTree(pol, t.right, key, priority, value));
      BalanceInOrder(pol, t.entry, t.left, RemoveTree(pol, t.right, key));
    }
  }

  lemma SoundIsCached<K, P, V>(pol: Policy<K, P, V>, t: Tree<K, P, V>)
    requires Sound(pol, t)
    ensures Cached(pol, t)
  {
  }

  lemma {:induction false} EditCut<K(!new), P(!new), V(!new)>(pol: Policy<K, P, V>, t: Tree<K, P, V>, key: K, priority: P, value: V)
    returns (a: seq<Item<K, P, V>>, m: seq<Item<K, P, V>>, b: seq<Item<K, P, V>>)
    requires LawfulPolicy(pol) && Valid(pol, t)
    ensures EditsAt(pol, t, key, priority, value, a, m, b)
  {
    if t.Empty? {
      a, m, b := [], [], [];
      EmptyEdits(pol, key, priority, value);
    } else {
      ValidParts(pol, t);
      var c := pol.keys(key, t.entry.key);
      hide *;
      if c == 0 {
        a, m, b := EditHere(pol, t, key, priority, value);
      } else if c < 0 {
        a, m, b := EditCut(pol, t.left, key, priority, value);
        b := EditLeft(pol, t, key, priority, value, a, m, b);
      } else {
        a, m, b := EditCut(pol, t.right, key, priority, value);
        a := EditRight(pol, t, key, priority, value, a, m, b);
      }
    }
  }

  lemma EmptyEdits<K, P, V>(pol: Policy<K, P, V>, key: K, priority: P, value: V)
    ensures Sound(pol, Tree<K, P, V>.Empty) && EditsAt(pol, Empty, key, priority, value, [], [], [])
  {
    EmptyCut(pol.ByKey(), key);
  }

  lemma EditHere<K(!new), P(!new), V(!new)>(pol: Policy<K, P, V>, t: Tree<K, P, V>, key: K, priority: P, value: V)
    returns (a: seq<Item<K, P, V>>, m: seq<Item<K, P, V>>, b: seq<Item<K, P, V>>)
    requires LawfulPolicy(pol) && Valid(pol, t) && t.Branch? && pol.keys(key, t.entry.key) == 0
    ensures EditsAt(pol, t, key, priority, value, a, m, b)
  {
    a, m, b := InOrder(t.left), [t.entry], InOrder(t.right);
    ValidParts(pol, t);
    EditNode(pol, t, key, priority, value);
    hide TotalPreorder, Sorted, AllBelow, AllAbove, Cut, SetTree, RemoveTree, InOrder, Sound, Existing;
    var ord, x := pol.ByKey(), t.entry.key;
    assert ord.Tied(key, x);
    OrderFacts(ord.cmp, key, x, key);
    OrderFacts(ord.cmp, x, key, x);
    AllBelowTrans(ord, a, x, key);
    AllAboveTrans(ord, b, x, key);
    TiedCut(ord, key, a, t.entry, b);
  }

  lemma EditLeft<K(!new), P(!new), V(!new)>(
    pol: Policy<K, P, V>, t: Tree<K, P, V>, key: K, priority: P, value: V,
    a: seq<Item<K, P, V>>, m: seq<Item<K, P, V>>, b: seq<Item<K, P, V>>) returns (b': seq<Item<K, P, V>>)
    requires LawfulPolicy(pol) && Valid(pol, t) && t.Branch? && pol.keys(key, t.entry.key) < 0
    requires Sound(pol, t.left) && EditsAt(pol, t.left, key, priority, value, a, m, b)
    ensures EditsAt(pol, t, key, priority, value, a, m, b')
  {
    ValidParts(pol, t);
    EditNode(pol, t, key, priority, value);
    hide TotalPreorder, Sorted, AllBelow, AllAbove, Cut, SetTree, RemoveTree, InOrder, Sound, Existing;
    CutLeft(pol.ByKey(), t.entry, InOrder(t.right), key, InOrder(t.left), a, m, b);
    JoinLeft(a, [Item(if m == [] then key else m[0].key, priority, value)], b, t.entry, InOrder(t.right));
    b' := b + [t.entry] + InOrder(t.right);
  }

  lemma EditRight<K(!new), P(!new), V(!new)>(
    pol: Policy<K, P, V>, t: Tree<K, P, V>, key: K, priority: P, value: V,
    a: seq<Item<K, P, V>>, m: seq<Item<K, P, V>>, b: seq<Item<K, P, V>>) returns (a': seq<Item<K, P, V>>)
    requires LawfulPolicy(pol) && Valid(pol, t) && t.Branch? && pol.keys(key, t.entry.key) > 0
    requires Sound(pol, t.right) && EditsAt(pol, t.right, key, priority, value, a, m, b)
    ensures EditsAt(pol, t, key, priority, value, a', m, b)
  {
    ValidParts(pol, t);
    EditNode(pol, t, key, priority, value);
    assert pol.ByKey().Less(t.entry.key, key);
    hide TotalPreorder, Sorted, AllBelow, AllAbove, Cut, SetTree, RemoveTree, InOrder, Sound, Existing;
    CutRight(pol.ByKey(), t.entry, InOrder(t.left), key, InOrder(t.right), a, m, b);
    JoinRight(InOrder(t.left), t.entry, a, [Item(if m == [] then key else m[0].key, priority, value)], b);
    a' := InOrder(t.left) + [t.entry] + a;
  }

  /** Setting, removing and looking up agree with the plain list, and keep every invariant of the tree. */
  lemma EditsRefineList<K(!new), P(!new), V(!new)>(pol: Policy<K, P, V>, t: Tree<K, P, V>, key: K, priority: P, value: V)
    requires LawfulPolicy(pol) && Valid(pol, t)
    ensures Valid(pol, SetTree(pol, t, key, priority, value)) && Valid(pol, RemoveTree(pol, t, key))
    ensures InOrder(SetTree(pol, t, key, priority, value)) == ListSet(pol, InOrder(t), key, priority, value)
    ensures InOrder(RemoveTree(pol, t, key)) == ListRemove(pol, InOrder(t), key)
    ensures Existing(pol, t, key) == ListFind(pol, InOrder(t), key)
  {
    var ord := pol.ByKey();
    hide TotalPreorder, Sorted, AllBelow, AllAbove, SetTree, RemoveTree, InOrder, Sound, Existing, ListSet, ListRemove, ListFind;
    var a, m, b := EditCut(pol, t, key, priority, value);
    ListCut(pol, InOrder(t), key, priority, value, a, m, b);
    CutSorted(ord, InOrder(t), key, a, m, b);
    var e := Item(if m == [] then key else m[0].key, priority, value);
    OrderFacts(ord.cmp, key, e.key, key);
    OrderFacts(ord.cmp, e.key, key, e.key);
    AllBelowTrans(ord, a, key, e.key);
    AllAboveTrans(ord, b, key, e.key);
    SortedJoin(ord, a, e, b);
  }
}
