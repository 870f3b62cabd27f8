/** The edit loops of the priority search queue: a walk down that records its path in a bounded array, and a
    walk back up that rebalances each frame. */
module PsqEdits {
  import opened Options
  import opened Machine
  import opened KeyOrder
  import opened PsqTree
  import opened PrioritySearchQueue

  datatype Frame<K, P, V> = Frame(node: Tree<K, P, V>, wentLeft: bool)

  ghost predicate OnNodes<K, P, V>(pol: Policy<K, P, V>, path: seq<Frame<K, P, V>>) {
    forall i :: 0 <= i < |path| ==>
      path[i].node.Branch? && Cached(pol, path[i].node.left) && Cached(pol, path[i].node.right)
  }

  function Attach<K, P, V>(pol: Policy<K, P, V>, frame: Frame<K, P, V>, t: Tree<K, P, V>): (r: Tree<K, P, V>)
    requires frame.node.Branch? && Cached(pol, frame.node.left) && Cached(pol, frame.node.right) && Cached(pol, t)
    ensures Cached(pol, r)
  {
    if frame.wentLeft then Balance(pol, frame.node.entry, t, frame.node.right)
    else Balance(pol, frame.node.entry, frame.node.left, t)
  }

  /** The tree after rebalancing every frame above t. */
  ghost function Rebuilt<K, P, V>(pol: Policy<K, P, V>, path: seq<Frame<K, P, V>>, t: Tree<K, P, V>): Tree<K, P, V>
    requires OnNodes(pol, path) && Cached(pol, t)
  {
    if path == [] then t else Rebuilt(pol, path[..|path| - 1], Attach(pol, path[|path| - 1], t))
  }

  lemma RebuiltPush<K, P, V>(pol: Policy<K, P, V>, path: seq<Frame<K, P, V>>, frame: Frame<K, P, V>, t: Tree<K, P, V>)
    requires OnNodes(pol, path) && Cached(pol, t)
    requires frame.node.Branch? && Cached(pol, frame.node.left) && Cached(pol, frame.node.right)
    ensures OnNodes(pol, path + [frame])
    ensures Rebuilt(pol, path + [frame], t) == Rebuilt(pol, path, Attach(pol, frame, t))
  {
    assert (path + [frame])[..|path|] == path;
  }

  method UnwindPath<K, P, V>(pol: Policy<K, P, V>, path: seq<Frame<K, P, V>>, initial: Tree<K, P, V>)
    returns (current: Tree<K, P, V>)
    requires OnNodes(pol, path) && Cached(pol, initial)
    ensures current == Rebuilt(pol, path, initial)
  {
    current := initial;
    var n := |path|;
    assert path[..n] == path;
    while n != 0
      invariant 0 <= n <= |path| && Cached(pol, current)
      invariant Rebuilt(pol, path[..n], current) == Rebuilt(pol, path, initial)
    {
      hide Attach, Cached;
      n := n - 1;
      assert path[..n + 1][..n] == path[..n];
      current := Attach(pol, path[n], current);
    }
  }

  lemma Descend<K, P, V>(pol: Policy<K, P, V>, t: Tree<K, P, V>)
    requires Sound(pol, t) && t.Branch?
    ensures Cached(pol, t.left) && Cached(pol, t.right) && Sound(pol, t.left) && Sound(pol, t.right)
    ensures Height(t.left) < Height(t) && Height(t.right) < Height(t)
  {
    Parts(pol, t);
  }

  /** Sets a key. The path never outgrows the root's height, and an equal entry is left alone. */
  method SetNode<K(!new), P(!new), V(!new)>(
    pol: Policy<K, P, V>, root: Tree<K, P, V>, key: K, priority: P, value: V, overwrite: bool)
    returns (status: Status, added: bool, changed: bool, result: Tree<K, P, V>)
    requires LawfulPolicy(pol) && Valid(pol, root)
    ensures status.Ok? && Valid(pol, result) && (!changed ==> result == root)
    ensures var found := ListFind(pol, InOrder(root), key);
      && added == found.None?
      && changed == (found.None? || (overwrite && !Repeats(pol, found.value, priority, value)))
      && InOrder(result) == (if changed then ListSet(pol, InOrder(root), key, priority, value) else InOrder(root))
      && Existing(pol, result, key)
         == if changed then Some(Item(if found.Some? then found.value.key else key, priority, value)) else found
  {
    EditsRefineList(pol, root, key, priority, value);
    SetIsRead(pol, root, key, priority, value);
    hide LawfulPolicy, Valid, ListFind, ListSet, InOrder;
    assert Sound(pol, root) by { ValidIsSound(pol, root); }
    ghost var goal := SetTree(pol, root, key, priority, value);
    var capacity := Height(root);
    var path: seq<Frame<K, P, V>>, cursor := [], root;
    while cursor.Branch?
      invariant Sound(pol, cursor) && OnNodes(pol, path) && |path| + Height(cursor) <= capacity
      invariant Existing(pol, cursor, key) == Existing(pol, root, key)
      invariant Rebuilt(pol, path, SetTree(pol, cursor, key, priority, value)) == goal
      decreases cursor
    {
      Descend(pol, cursor);
      var c := pol.keys(key, cursor.entry.key);
      if c == 0 {
        if !overwrite {
          return Ok, false, false, root;
        }
        if pol.priorities(priority, cursor.entry.priority) == 0 && pol.samePriority(priority, cursor.entry.priority)
           && pol.sameValue(value, cursor.entry.value) {
          return Ok, false, false, root;
        }
        var current := Create(pol, Item(cursor.entry.key, priority, value), cursor.left, cursor.right);
        result := UnwindPath(pol, path, current);
        return Ok, false, true, result;
      }
      if |path| == capacity {
        assert false;
      }
      SetDescends(pol, path, cursor, key, priority, value);
      path := path + [Frame(cursor, c < 0)];
      cursor := if c < 0 then cursor.left else cursor.right;
    }
    var current := Create(pol, Item(key, priority, value), Empty, Empty);
    result := UnwindPath(pol, path, current);
    return Ok, true, true, result;
  }

  lemma SetIsRead<K(!new), P(!new), V(!new)>(pol: Policy<K, P, V>, t: Tree<K, P, V>, key: K, priority: P, value: V)
    requires LawfulPolicy(pol) && Valid(pol, t)
    ensures var found := Existing(pol, t, key);
      Existing(pol, SetTree(pol, t, key, priority, value), key)
      == Some(Item(if found.Some? then found.value.key else key, priority, value))
  {
    EditsRefineList(pol, t, key, priority, value);
    EditsRefineList(pol, SetTree(pol, t, key, priority, value), key, priority, value);
    EditsAreRead(pol, InOrder(t), key, priority, value, key);
    assert pol.keys(key, key) == 0;
  }

  lemma ValidIsSound<K, P, V>(pol: Policy<K, P, V>, t: Tree<K, P, V>)
    requires Valid(pol, t)
    ensures Sound(pol, t)
  {
  }

  lemma SetDescends<K, P, V>(
    pol: Policy<K, P, V>, path: seq<Frame<K, P, V>>, cursor: Tree<K, P, V>, key: K, priority: P, value: V)
    requires OnNodes(pol, path) && Sound(pol, cursor) && cursor.Branch? && pol.keys(key, cursor.entry.key) != 0
    ensures var left := pol.keys(key, cursor.entry.key) < 0;
      var next := if left then cursor.left else cursor.right;
      && Sound(pol, next) && OnNodes(pol, path + [Frame(cursor, left)])
      && Rebuilt(pol, path + [Frame(cursor, left)], SetTree(pol, next, key, priority, value))
         == Rebuilt(pol, path, SetTree(pol, cursor, key, priority, value))
  {
    Descend(pol, cursor);
    var left := pol.keys(key, cursor.entry.key) < 0;
    var next := if left then cursor.left else cursor.right;
    hide Balance, Create;
    RebuiltPush(pol, path, Frame(cursor, left), SetTree(pol, next, key, priority, value));
  }

  /** Takes the least key out of a nonempty tree. */
  method RemoveMinNode<K, P, V>(pol: Policy<K, P, V>, source: Tree<K, P, V>)
    returns (minimum: Item<K, P, V>, result: Tree<K, P, V>)
    requires Sound(pol, source) && source.Branch?
    ensures (minimum, result) == DeleteMin(pol, source)
  {
    ghost var goal := DeleteMin(pol, source);
    var path: seq<Frame<K, P, V>>, cursor := [], source;
    while cursor.left.Branch?
      invariant Sound(pol, cursor) && cursor.Branch? && OnNodes(pol, path)
      invariant |path| + Height(cursor) <= Height(source)
      invariant DeleteMin(pol, cursor).0 == goal.0 && Rebuilt(pol, path, DeleteMin(pol, cursor).1) == goal.1
      decreases cursor
    {
      hide Balance, Create;
      Descend(pol, cursor);
      RebuiltPush(pol, path, Frame(cursor, true), DeleteMin(pol, cursor.left).1);
      path := path + [Frame(cursor, true)];
      cursor := cursor.left;
    }
    Descend(pol, cursor);
    result := UnwindPath(pol, path, cursor.right);
    minimum := cursor.entry;
  }

  /** Removes a key, or leaves the root alone when it is absent. */
  method RemoveNode<K(!new), P(!new), V(!new)>(pol: Policy<K, P, V>, root: Tree<K, P, V>, key: K)
    returns (status: Status, removed: Option<Item<K, P, V>>, result: Tree<K, P, V>)
    requires LawfulPolicy(pol) && Valid(pol, root)
    ensures status.Ok? && Valid(pol, result)
    ensures removed == ListFind(pol, InOrder(root), key)
    ensures InOrder(result) == ListRemove(pol, InOrder(root), key)
  {
    RemoveRefinesList(pol, root, key);
    hide LawfulPolicy, Valid, ListFind, ListRemove, InOrder;
    assert Sound(pol, root) by { ValidIsSound(pol, root); }
    ghost var goal := RemoveTree(pol, root, key);
    var capacity := Height(root);
    var path: seq<Frame<K, P, V>>, cursor := [], root;
    while cursor.Branch? && pol.keys(key, cursor.entry.key) != 0
      invariant Sound(pol, cursor) && OnNodes(pol, path) && |path| + Height(cursor) <= capacity
      invariant Existing(pol, cursor, key) == Existing(pol, root, key)
      invariant Rebuilt(pol, path, RemoveTree(pol, cursor, key)) == goal
      decreases cursor
    {
      Descend(pol, cursor);
      if |path| == capacity {
        assert false;
      }
      var left := pol.keys(key, cursor.entry.key) < 0;
      RemoveDescends(pol, path, cursor, key);
      path := path + [Frame(cursor, left)];
      cursor := if left then cursor.left else cursor.right;
    }
    if cursor.Empty? {
      return Ok, None, root;
    }
    Descend(pol, cursor);
    var current;
    if cursor.left.Empty? || cursor.right.Empty? {
      current := if cursor.left.Empty? then cursor.right else cursor.left;
    } else {
      var successor, right := RemoveMinNode(pol, cursor.right);
      current := Balance(pol, successor, cursor.left, right);
    }
    result := UnwindPath(pol, path, current);
    return Ok, Some(cursor.entry), result;
  }

  /** Removal refines the list, and an absent key changes nothing. */
  lemma RemoveRefinesList<K(!new), P(!new), V(!new)>(pol: Policy<K, P, V>, t: Tree<K, P, V>, key: K)
    requires LawfulPolicy(pol) && Valid(pol, t)
    ensures Sound(pol, t) && Valid(pol, RemoveTree(pol, t, key))
    ensures InOrder(RemoveTree(pol, t, key)) == ListRemove(pol, InOrder(t), key)
    ensures Existing(pol, t, key) == ListFind(pol, InOrder(t), key)
    ensures Existing(pol, t, key).None? ==> ListRemove(pol, InOrder(t), key) == InOrder(t)
  {
    if t.Branch? {
      EditsRefineList(pol, t, key, t.entry.priority, t.entry.value);
      ListRemoveAbsent(pol, InOrder(t), key);
    }
  }

  lemma {:induction false} ListRemoveAbsent<K(!new), P(!new), V(!new)>(pol: Policy<K, P, V>, s: seq<Item<K, P, V>>, key: K)
    ensures ListFind(pol, s, key).None? ==> ListRemove(pol, s, key) == s
  {
    if s != [] && pol.keys(key, s[0].key) > 0 { ListRemoveAbsent(pol, s[1..], key); }
  }

  lemma RemoveDescends<K, P, V>(pol: Policy<K, P, V>, path: seq<Frame<K, P, V>>, cursor: Tree<K, P, V>, key: K)
    requires OnNodes(pol, path) && Sound(pol, cursor) && cursor.Branch? && pol.keys(key, cursor.entry.key) != 0
    ensures var left := pol.keys(key, cursor.entry.key) < 0;
      var next := if left then cursor.left else cursor.right;
      && Sound(pol, next) && OnNodes(pol, path + [Frame(cursor, left)])
      && Rebuilt(pol, path + [Frame(cursor, left)], RemoveTree(pol, next, key))
         == Rebuilt(pol, path, RemoveTree(pol, cursor, key))
  {
    Descend(pol, cursor);
    var left := pol.keys(key, cursor.entry.key) < 0;
    var next := if left then cursor.left else cursor.right;
    hide Balance, RemoveRoot;
    RebuiltPush(pol, path, Frame(cursor, left), RemoveTree(pol, next, key));
  }

  // ----- Runs -----

  datatype Op<K, P, V> = SetOp(key: K, priority: P, value: V, overwrite: bool) | RemoveOp(key: K)

  /** One operation on the plain list. */
  ghost function ListStep<K, P, V>(pol: Policy<K, P, V>, s: seq<Item<K, P, V>>, op: Op<K, P, V>): seq<Item<K, P, V>> {
    match op
    case SetOp(key, priority, value, overwrite) =>
      var found := ListFind(pol, s, key);
      if found.Some? && (!overwrite || Repeats(pol, found.value, priority, value)) then s
      else ListSet(pol, s, key, priority, value)
    case RemoveOp(key) => ListRemove(pol, s, key)
  }

  ghost function ListRun<K, P, V>(pol: Policy<K, P, V>, ops: seq<Op<K, P, V>>): seq<Item<K, P, V>> {
    if ops == [] then [] else ListStep(pol, ListRun(pol, ops[..|ops| - 1]), ops[|ops| - 1])
  }

  /** Any run of the tree operations holds exactly what the plain list holds, in key order, balanced, and with
      the real count and height and the entry that is first by priority and then by key cached at the root. */
  method RunAll<K(!new), P(!new), V(!new)>(pol: Policy<K, P, V>, ops: seq<Op<K, P, V>>) returns (root: Tree<K, P, V>)
    requires LawfulPolicy(pol)
    ensures Valid(pol, root) && InOrder(root) == ListRun(pol, ops)
    ensures if root.Empty? then ListRun(pol, ops) == [] else First(pol, root.winner, ListRun(pol, ops))
    ensures Count(root) == |ListRun(pol, ops)| && Height(root) == Depth(root)
    ensures Power(Height(root) / 2) <= Count(root) + 1
  {
    root := Empty;
    var n := 0;
    assert ops[..0] == [];
    while n != |ops|
      invariant 0 <= n <= |ops| && Valid(pol, root) && InOrder(root) == ListRun(pol, ops[..n])
    {
      hide Valid, LawfulPolicy, InOrder, ListFind, ListSet, ListRemove, Existing;
      assert ops[..n + 1][..n] == ops[..n];
      var status;
      match ops[n] {
        case SetOp(key, priority, value, overwrite) =>
          var added, changed;
          status, added, changed, root := SetNode(pol, root, key, priority, value, overwrite);
        case RemoveOp(key) =>
          var removed;
          status, removed, root := RemoveNode(pol, root, key);
      }
      n := n + 1;
    }
    assert ops[..n] == ops;
    CachedSizes(pol, root);
    HeightIsLogarithmic(pol, root);
    if root.Branch? {
      hide ListRun;
      WinnerIsFirst(pol, root);
    }
  }
}
