/** Adding by split and removing by merge. The path buffers of the original are the stacks below; rebuilding walks
    them back up. */
module CanonicalSet {
  import opened Comparisons
  import opened CanonicalTree

  datatype Status = Ok | Overflow | InconsistentPolicy | InvalidArgument

  // ----- What the loops compute -----

  /** The part of the tree before x and the part after it. */
  function Split<V>(pol: Policy<V>, t: Tree<V>, x: V): (Tree<V>, Tree<V>) {
    if t.Leaf? then (Leaf, Leaf)
    else if pol.Less(x, t.value) then
      var (l, r) := Split(pol, t.left, x);
      (l, Node(t.value, t.rank, r, t.right))
    else
      var (l, r) := Split(pol, t.right, x);
      (Node(t.value, t.rank, t.left, l), r)
  }

  function Insert<V>(pol: Policy<V>, t: Tree<V>, x: V, rank: Rank): Tree<V> {
    if t.Leaf? || Higher(pol, x, rank, t.value, t.rank) then
      var (l, r) := Split(pol, t, x);
      Node(x, rank, l, r)
    else if pol.Less(x, t.value) then Node(t.value, t.rank, Insert(pol, t.left, x, rank), t.right)
    else Node(t.value, t.rank, t.left, Insert(pol, t.right, x, rank))
  }

  function Merge<V>(pol: Policy<V>, l: Tree<V>, r: Tree<V>): Tree<V> {
    if l.Leaf? then r
    else if r.Leaf? then l
    else if Higher(pol, l.value, l.rank, r.value, r.rank) then Node(l.value, l.rank, l.left, Merge(pol, l.right, r))
    else Node(r.value, r.rank, Merge(pol, l, r.left), r.right)
  }

  function Remove<V>(pol: Policy<V>, t: Tree<V>, x: V): Tree<V> {
    if t.Leaf? then Leaf
    else if pol.Tied(x, t.value) then Merge(pol, t.left, t.right)
    else if pol.Less(x, t.value) then Node(t.value, t.rank, Remove(pol, t.left, x), t.right)
    else Node(t.value, t.rank, t.left, Remove(pol, t.right, x))
  }

  // ----- The results are canonical -----

  lemma {:induction false} SplitFacts<V(!new)>(pol: Policy<V>, t: Tree<V>, x: V)
    requires Lawful(pol) && Canonical(pol, t) && !Has(pol, t, x)
    ensures Canonical(pol, Split(pol, t, x).0) && Canonical(pol, Split(pol, t, x).1)
    ensures forall y :: Holds(Split(pol, t, x).0, y) <==> Holds(t, y) && pol.Less(y, x)
    ensures forall y :: Holds(Split(pol, t, x).1, y) <==> Holds(t, y) && pol.Less(x, y)
  {
    hide TotalPreorder, RanksAgree, Above;
    if t.Node? {
      var smaller := pol.Less(x, t.value);
      SplitFacts(pol, if smaller then t.left else t.right, x);
      OrderFacts(pol.cmp, x, t.value, x);
      OrderFacts(pol.cmp, t.value, x, x);
      forall y | Holds(t, y)
        ensures smaller && (y == t.value || Holds(t.right, y)) ==> pol.Less(x, y) && !pol.Less(y, x)
        ensures !smaller && (y == t.value || Holds(t.left, y)) ==> pol.Less(y, x) && !pol.Less(x, y)
      {
        OrderFacts(pol.cmp, x, t.value, y);
        OrderFacts(pol.cmp, y, t.value, x);
        OrderFacts(pol.cmp, x, y, x);
      }
    }
  }

  lemma {:induction false} InsertFacts<V(!new)>(pol: Policy<V>, t: Tree<V>, x: V)
    requires Lawful(pol) && Canonical(pol, t) && !Has(pol, t, x)
    ensures Canonical(pol, Insert(pol, t, x, pol.rank(x)))
    ensures forall y :: Holds(Insert(pol, t, x, pol.rank(x)), y) <==> y == x || Holds(t, y)
  {
    if t.Leaf? || Higher(pol, x, pol.rank(x), t.value, t.rank) {
      NewRootFacts(pol, t, x);
    } else {
      assert t.rank == pol.rank(t.value) && !Above(pol, x, t.value);
      hide TotalPreorder, RanksAgree, Above, Split;
      AboveFacts(pol, x, t.value, x);
      OrderFacts(pol.cmp, x, t.value, x);
      InsertFacts(pol, if pol.Less(x, t.value) then t.left else t.right, x);
    }
  }

  lemma NewRootFacts<V(!new)>(pol: Policy<V>, t: Tree<V>, x: V)
    requires Lawful(pol) && Canonical(pol, t) && !Has(pol, t, x)
    requires t.Leaf? || Higher(pol, x, pol.rank(x), t.value, t.rank)
    ensures var (l, r) := Split(pol, t, x);
      && Canonical(pol, Node(x, pol.rank(x), l, r))
      && forall y :: Holds(Node(x, pol.rank(x), l, r), y) <==> y == x || Holds(t, y)
  {
    SplitFacts(pol, t, x);
    assert t.Node? ==> Above(pol, x, t.value);
    hide TotalPreorder, RanksAgree, Above, Split;
    forall y | Holds(t, y) ensures Above(pol, x, y) && (pol.Less(x, y) || pol.Less(y, x)) {
      AboveFacts(pol, x, t.value, y);
      HasHolds(pol, t, x);
      OrderFacts(pol.cmp, x, y, x);
      assert !pol.Tied(x, y);
    }
  }

  lemma {:induction false} MergeFacts<V(!new)>(pol: Policy<V>, l: Tree<V>, r: Tree<V>)
    requires Lawful(pol) && Canonical(pol, l) && Canonical(pol, r)
    requires forall x, y :: Holds(l, x) && Holds(r, y) ==> pol.Less(x, y)
    ensures Canonical(pol, Merge(pol, l, r))
    ensures forall y :: Holds(Merge(pol, l, r), y) <==> Holds(l, y) || Holds(r, y)
    decreases l, r
  {
    if l.Node? && r.Node? {
      assert Higher(pol, l.value, l.rank, r.value, r.rank) == Above(pol, l.value, r.value);
      hide TotalPreorder, RanksAgree, Above, Higher;
      AboveFacts(pol, l.value, r.value, l.value);
      assert pol.Less(l.value, r.value);
      OrderFacts(pol.cmp, l.value, r.value, l.value);
      if Above(pol, l.value, r.value) {
        MergeFacts(pol, l.right, r);
        forall y | Holds(r, y) ensures Above(pol, l.value, y) {
          AboveFacts(pol, l.value, r.value, y);
        }
      } else {
        MergeFacts(pol, l, r.left);
        forall y | Holds(l, y) ensures Above(pol, r.value, y) {
          AboveFacts(pol, r.value, l.value, y);
        }
      }
    }
  }

  lemma {:induction false} RemoveFacts<V(!new)>(pol: Policy<V>, t: Tree<V>, x: V)
    requires Lawful(pol) && Canonical(pol, t)
    ensures Canonical(pol, Remove(pol, t, x))
    ensures forall y :: Holds(Remove(pol, t, x), y) <==> Holds(t, y) && !pol.Tied(x, y)
  {
    hide TotalPreorder, RanksAgree, Above;
    if t.Node? {
      OrderFacts(pol.cmp, x, t.value, x);
      forall y | Holds(t, y)
        ensures pol.Tied(x, t.value) && (Holds(t.left, y) || Holds(t.right, y)) ==> !pol.Tied(x, y)
        ensures pol.Less(x, t.value) && (y == t.value || Holds(t.right, y)) ==> !pol.Tied(x, y)
        ensures pol.Less(t.value, x) && (y == t.value || Holds(t.left, y)) ==> !pol.Tied(x, y)
      {
        OrderFacts(pol.cmp, x, y, t.value);
        OrderFacts(pol.cmp, y, t.value, x);
        OrderFacts(pol.cmp, t.value, x, y);
        OrderFacts(pol.cmp, x, t.value, y);
      }
      if pol.Tied(x, t.value) {
        forall y, z | Holds(t.left, y) && Holds(t.right, z) ensures pol.Less(y, z) {
          OrderFacts(pol.cmp, y, t.value, z);
        }
        MergeFacts(pol, t.left, t.right);
      } else {
        RemoveFacts(pol, if pol.Less(x, t.value) then t.left else t.right, x);
      }
    }
  }

  // ----- The loops -----

  datatype Step<V> = Step(node: Tree<V>, wentLeft: bool)

  function Attach<V>(step: Step<V>, below: Tree<V>): Tree<V>
    requires step.node.Node?
  {
    if step.wentLeft then Node(step.node.value, step.node.rank, below, step.node.right)
    else Node(step.node.value, step.node.rank, step.node.left, below)
  }

  ghost predicate OnNodes<V>(path: seq<Step<V>>) {
    forall i :: 0 <= i < |path| ==> path[i].node.Node?
  }

  /** The tree a path stands for, with `below` at its open end. */
  ghost function Rebuilt<V>(path: seq<Step<V>>, below: Tree<V>): Tree<V>
    requires OnNodes(path)
  {
    if path == [] then below
    else Rebuilt(path[..|path| - 1], Attach(path[|path| - 1], below))
  }

  lemma RebuiltPush<V>(path: seq<Step<V>>, step: Step<V>, below: Tree<V>)
    requires OnNodes(path) && step.node.Node?
    ensures OnNodes(path + [step]) && Rebuilt(path + [step], below) == Rebuilt(path, Attach(step, below))
  {
    assert (path + [step])[..|path|] == path;
  }

  /** Pops a path, copying one node per step. */
  method Unwind<V>(path: seq<Step<V>>, below: Tree<V>) returns (result: Tree<V>)
    requires OnNodes(path)
    ensures result == Rebuilt(path, below)
  {
    result := below;
    var n := |path|;
    assert path[..n] == path;
    while n != 0
      invariant 0 <= n <= |path|
      invariant Rebuilt(path[..n], result) == Rebuilt(path, below)
    {
      n := n - 1;
      assert path[..n + 1][..n] == path[..n];
      result := Attach(path[n], result);
    }
  }

  method Find<V(!new)>(pol: Policy<V>, root: Tree<V>, x: V) returns (found: Tree<V>)
    requires Lawful(pol) && Canonical(pol, root)
    ensures found.Node? <==> Has(pol, root, x)
    ensures found.Node? ==> pol.Tied(x, found.value) && Canonical(pol, found)
  {
    hide TotalPreorder, RanksAgree;
    found := root;
    while found.Node?
      invariant Canonical(pol, found)
      invariant Has(pol, found, x) <==> Has(pol, root, x)
      decreases found
    {
      HasSide(pol, found, x);
      OrderFacts(pol.cmp, x, found.value, x);
      if pol.Tied(x, found.value) {
        return;
      }
      found := if pol.Less(x, found.value) then found.left else found.right;
    }
  }

  ghost function SplitBack<V>(path: seq<Step<V>>, parts: (Tree<V>, Tree<V>)): (Tree<V>, Tree<V>)
    requires OnNodes(path)
  {
    if path == [] then parts
    else
      var step := path[|path| - 1];
      SplitBack(path[..|path| - 1],
                if step.wentLeft then (parts.0, Attach(step, parts.1)) else (Attach(step, parts.0), parts.1))
  }

  lemma SplitBackPush<V>(path: seq<Step<V>>, step: Step<V>, parts: (Tree<V>, Tree<V>))
    requires OnNodes(path) && step.node.Node?
    ensures OnNodes(path + [step])
    ensures SplitBack(path + [step], parts)
         == SplitBack(path, if step.wentLeft then (parts.0, Attach(step, parts.1)) else (Attach(step, parts.0), parts.1))
  {
    assert (path + [step])[..|path|] == path;
  }

  /** Splits along one search path, which never outgrows the tree's height. */
  method SplitLoop<V>(pol: Policy<V>, root: Tree<V>, x: V) returns (left: Tree<V>, right: Tree<V>)
    ensures (left, right) == Split(pol, root, x)
  {
    var path: seq<Step<V>>, cursor := [], root;
    while cursor.Node?
      invariant OnNodes(path) && |path| + Height(cursor) <= Height(root)
      invariant SplitBack(path, Split(pol, cursor, x)) == Split(pol, root, x)
      decreases cursor
    {
      var step := Step(cursor, pol.Less(x, cursor.value));
      cursor := if step.wentLeft then cursor.left else cursor.right;
      SplitBackPush(path, step, Split(pol, cursor, x));
      path := path + [step];
    }
    left, right := Leaf, Leaf;
    var n := |path|;
    assert path[..n] == path;
    while n != 0
      invariant 0 <= n <= |path|
      invariant SplitBack(path[..n], (left, right)) == Split(pol, root, x)
    {
      n := n - 1;
      assert path[..n + 1][..n] == path[..n];
      if path[n].wentLeft {
        right := Attach(path[n], right);
      } else {
        left := Attach(path[n], left);
      }
    }
  }

  method InsertLoop<V>(pol: Policy<V>, root: Tree<V>, x: V, rank: Rank) returns (result: Tree<V>)
    ensures result == Insert(pol, root, x, rank)
  {
    var path: seq<Step<V>>, cursor := [], root;
    while cursor.Node? && !Higher(pol, x, rank, cursor.value, cursor.rank)
      invariant OnNodes(path) && |path| + Height(cursor) <= Height(root)
      invariant Rebuilt(path, Insert(pol, cursor, x, rank)) == Insert(pol, root, x, rank)
      decreases cursor
    {
      hide Split, Higher;
      var step := Step(cursor, pol.Less(x, cursor.value));
      cursor := if step.wentLeft then cursor.left else cursor.right;
      RebuiltPush(path, step, Insert(pol, cursor, x, rank));
      path := path + [step];
    }
    var l, r := SplitLoop(pol, cursor, x);
    result := Unwind(path, Node(x, rank, l, r));
  }

  /** Zips two spines. The scratch path of two heights is always large enough. */
  method MergeLoop<V>(pol: Policy<V>, l: Tree<V>, r: Tree<V>, capacity: nat) returns (status: Status, result: Tree<V>)
    requires Height(l) + Height(r) <= capacity
    ensures status.Ok? && result == Merge(pol, l, r)
  {
    var path: seq<Step<V>>, left, right := [], l, r;
    while left.Node? && right.Node?
      invariant OnNodes(path) && |path| + Height(left) + Height(right) <= Height(l) + Height(r)
      invariant Rebuilt(path, Merge(pol, left, right)) == Merge(pol, l, r)
      decreases left, right
    {
      if |path| >= capacity {
        assert false;
      }
      var higher := Higher(pol, left.value, left.rank, right.value, right.rank);
      var step := Step(if higher then left else right, !higher);
      if higher {
        left := left.right;
      } else {
        right := right.left;
      }
      RebuiltPush(path, step, Merge(pol, left, right));
      path := path + [step];
    }
    result := Unwind(path, if left.Node? then left else right);
    status := Ok;
  }

  method RemoveLoop<V>(pol: Policy<V>, root: Tree<V>, x: V) returns (status: Status, result: Tree<V>)
    ensures status.Ok? && result == Remove(pol, root, x)
  {
    var capacity := 2 * (Height(root) + 1);
    var path: seq<Step<V>>, cursor := [], root;
    while cursor.Node? && !pol.Tied(x, cursor.value)
      invariant OnNodes(path) && |path| + Height(cursor) <= Height(root)
      invariant Rebuilt(path, Remove(pol, cursor, x)) == Remove(pol, root, x)
      invariant Rebuilt(path, cursor) == root
      decreases cursor
    {
      var step := Step(cursor, pol.Less(x, cursor.value));
      cursor := if step.wentLeft then cursor.left else cursor.right;
      RebuiltPush(path, step, cursor);
      RebuiltPush(path, step, Remove(pol, cursor, x));
      path := path + [step];
    }
    if cursor.Leaf? {
      return Ok, root;
    }
    var merged;
    status, merged := MergeLoop(pol, cursor.left, cursor.right, capacity);
    result := Unwind(path, merged);
  }

  // ----- The set operations -----

  /** Adds a value unless its class is present; the stored representative is never replaced. */
  method Add<V(!new)>(pol: Policy<V>, root: Tree<V>, x: V) returns (status: Status, result: Tree<V>)
    requires Lawful(pol) && Canonical(pol, root)
    ensures status.Ok? && Canonical(pol, result)
    ensures result == Added(pol, root, x)
  {
    var existing := Find(pol, root, x);
    var rank := pol.rank(x);
    if existing.Node? {
      if existing.rank != rank {
        assert false;
      }
      return Ok, root;
    }
    hide TotalPreorder, RanksAgree, Canonical, Insert;
    InsertFacts(pol, root, x);
    result := InsertLoop(pol, root, x, rank);
    status := Ok;
  }

  ghost function Added<V>(pol: Policy<V>, t: Tree<V>, x: V): Tree<V> {
    if Has(pol, t, x) then t else Insert(pol, t, x, pol.rank(x))
  }

  lemma AddedFacts<V(!new)>(pol: Policy<V>, t: Tree<V>, x: V)
    requires Lawful(pol) && Canonical(pol, t)
    ensures Canonical(pol, Added(pol, t, x))
    ensures forall y :: Has(pol, Added(pol, t, x), y) <==> pol.Tied(y, x) || Has(pol, t, y)
  {
    hide TotalPreorder, RanksAgree, Canonical, Insert;
    if !Has(pol, t, x) { InsertFacts(pol, t, x); }
    forall y ensures Has(pol, Added(pol, t, x), y) <==> pol.Tied(y, x) || Has(pol, t, y) {
      HasHolds(pol, Added(pol, t, x), y);
      HasHolds(pol, t, y);
      if Has(pol, t, x) {
        HasHolds(pol, t, x);
        var z :| Holds(t, z) && pol.Tied(x, z);
        OrderFacts(pol.cmp, y, x, z);
        assert pol.Tied(y, x) ==> pol.Tied(y, z);
      } else if pol.Tied(y, x) {
        assert Holds(Added(pol, t, x), x);
      }
    }
  }

  lemma RemovedFacts<V(!new)>(pol: Policy<V>, t: Tree<V>, x: V)
    requires Lawful(pol) && Canonical(pol, t)
    ensures Canonical(pol, Remove(pol, t, x))
    ensures forall y :: Has(pol, Remove(pol, t, x), y) <==> !pol.Tied(y, x) && Has(pol, t, y)
  {
    hide TotalPreorder, RanksAgree, Canonical, Remove;
    RemoveFacts(pol, t, x);
    forall y ensures Has(pol, Remove(pol, t, x), y) <==> !pol.Tied(y, x) && Has(pol, t, y) {
      HasHolds(pol, Remove(pol, t, x), y);
      HasHolds(pol, t, y);
      RemovedClass(pol, t, x, y);
    }
  }

  /** Untied values keep or lose their place with their whole class. */
  lemma RemovedClass<V(!new)>(pol: Policy<V>, t: Tree<V>, x: V, y: V)
    requires Lawful(pol)
    requires forall z :: Holds(Remove(pol, t, x), z) <==> Holds(t, z) && !pol.Tied(x, z)
    ensures (exists z :: Holds(Remove(pol, t, x), z) && pol.Tied(y, z))
       <==> !pol.Tied(y, x) && exists z :: Holds(t, z) && pol.Tied(y, z)
  {
    hide TotalPreorder, RanksAgree, Remove, Holds;
    forall z | pol.Tied(y, z) ensures pol.Tied(x, z) <==> pol.Tied(y, x) {
      OrderFacts(pol.cmp, y, x, z);
      OrderFacts(pol.cmp, x, y, z);
      OrderFacts(pol.cmp, y, z, x);
      OrderFacts(pol.cmp, x, z, y);
      OrderFacts(pol.cmp, z, x, y);
    }
  }

  // ----- History independence -----

  datatype Edit<V> = AddEdit(value: V) | RemoveEdit(value: V)

  ghost function Run<V>(pol: Policy<V>, edits: seq<Edit<V>>): Tree<V> {
    if edits == [] then Leaf
    else
      var before := Run(pol, edits[..|edits| - 1]);
      match edits[|edits| - 1]
      case AddEdit(x) => Added(pol, before, x)
      case RemoveEdit(x) => Remove(pol, before, x)
  }

  /** Membership by the last edit of the value's class. */
  ghost predicate Present<V>(pol: Policy<V>, edits: seq<Edit<V>>, y: V) {
    edits != [] &&
      var last := edits[|edits| - 1];
      if pol.Tied(y, last.value) then last.AddEdit? else Present(pol, edits[..|edits| - 1], y)
  }

  lemma {:induction false} RunFacts<V(!new)>(pol: Policy<V>, edits: seq<Edit<V>>)
    requires Lawful(pol)
    ensures Canonical(pol, Run(pol, edits))
    ensures forall y :: Has(pol, Run(pol, edits), y) <==> Present(pol, edits, y)
    decreases |edits|
  {
    hide TotalPreorder, RanksAgree, Added, Remove;
    if edits != [] {
      var init := edits[..|edits| - 1];
      RunFacts(pol, init);
      match edits[|edits| - 1]
      case AddEdit(x) => AddedFacts(pol, Run(pol, init), x);
      case RemoveEdit(x) => RemovedFacts(pol, Run(pol, init), x);
    }
  }

  /** Any two runs that leave the same classes present leave the same tree. */
  lemma HistoryIndependence<V(!new)>(pol: Policy<V>, one: seq<Edit<V>>, two: seq<Edit<V>>)
    requires Lawful(pol) && forall y :: Present(pol, one, y) <==> Present(pol, two, y)
    ensures Same(pol, Run(pol, one), Run(pol, two))
  {
    hide TotalPreorder, RanksAgree, Run, Canonical;
    RunFacts(pol, one);
    RunFacts(pol, two);
    CanonicalIsUnique(pol, Run(pol, one), Run(pol, two));
  }
}
