/** The persistent weight-balanced tree with parameters (3, 2) behind the checkpoint-differential map and
    vector: sizes of siblings differ at most by a factor of 3, and a factor of 2 picks the rotation. */
module WeightBalanced {
  import opened KeyOrder

  datatype Tree<E> = Nil | Node(entry: E, left: Tree<E>, right: Tree<E>)

  function Size<E>(t: Tree<E>): nat {
    if t.Nil? then 0 else 1 + Size(t.left) + Size(t.right)
  }

  function Height<E>(t: Tree<E>): nat {
    if t.Nil? then 0
    else 1 + if Height(t.left) > Height(t.right) then Height(t.left) else Height(t.right)
  }

  /** The entries in order. */
  function Flat<E>(t: Tree<E>): seq<E> {
    if t.Nil? then [] else Flat(t.left) + [t.entry] + Flat(t.right)
  }

  lemma {:induction false} FlatSize<E>(t: Tree<E>)
    ensures |Flat(t)| == Size(t)
  {
    if t.Node? {
      FlatSize(t.left);
      FlatSize(t.right);
    }
  }

  // ----- Balance -----

  /** One side outweighs the other beyond the factor 3. */
  predicate Outweighs(heavy: nat, light: nat) {
    heavy + light > 1 && heavy > 3 * light
  }

  predicate Even(l: nat, r: nat) {
    !Outweighs(l, r) && !Outweighs(r, l)
  }

  /** The inner subtree of the heavy side is light enough for a single rotation. */
  predicate Single(inner: nat, outer: nat) {
    inner < 2 * outer
  }

  ghost predicate Balanced<E>(t: Tree<E>) {
    t.Node? ==> Even(Size(t.left), Size(t.right)) && Balanced(t.left) && Balanced(t.right)
  }

  /** At every node the subtrees hold at most one entry together, or neither has more than three times the entries of
      the other. */
  ghost predicate WithinThree<E>(t: Tree<E>) {
    t.Node? ==>
      var l, r := |Flat(t.left)|, |Flat(t.right)|;
      && (l + r <= 1 || (l <= 3 * r && r <= 3 * l))
      && WithinThree(t.left) && WithinThree(t.right)
  }

  lemma {:induction false} BalancedMeans<E>(t: Tree<E>)
    ensures Balanced(t) <==> WithinThree(t)
  {
    if t.Node? {
      FlatSize(t.left);
      FlatSize(t.right);
      BalancedMeans(t.left);
      BalancedMeans(t.right);
    }
  }

  ghost function Exp(base: nat, n: nat): nat {
    if n == 0 then 1 else base * Exp(base, n - 1)
  }

  /** The height grows with the logarithm of the size to the base 4 / 3. */
  lemma {:induction false} HeightIsLogarithmic<E>(t: Tree<E>)
    requires Balanced(t)
    ensures Exp(4, Height(t)) <= Exp(3, Height(t)) * (Size(t) + 1)
  {
    if t.Node? {
      var child := if Height(t.left) > Height(t.right) then t.left else t.right;
      HeightIsLogarithmic(child);
      var a, b, n := Exp(4, Height(child)), Exp(3, Height(child)), Size(child);
      Scale(a, b, n + 1, Size(t) + 1);
    }
  }

  lemma Scale(a: nat, b: nat, n: nat, m: nat)
    requires a <= b * n && 4 * n <= 3 * m
    ensures 4 * a <= 3 * b * m
  {
    assert b * (4 * n) <= b * (3 * m);
  }

  /** One insertion or deletion away from even. */
  predicate Near(l: nat, r: nat) {
    || Even(l, r)
    || (l > 0 && Even(l - 1, r)) || Even(l + 1, r)
    || (r > 0 && Even(l, r - 1)) || Even(l, r + 1)
  }

  function RotateLeft<E>(e: E, l: Tree<E>, r: Tree<E>): Tree<E>
    requires r.Node?
    requires Single(Size(r.left), Size(r.right)) || r.left.Node?
  {
    var inner, outer := r.left, r.right;
    if Single(Size(inner), Size(outer)) then Node(r.entry, Node(e, l, inner), outer)
    else Node(inner.entry, Node(e, l, inner.left), Node(r.entry, inner.right, outer))
  }

  function RotateRight<E>(e: E, l: Tree<E>, r: Tree<E>): Tree<E>
    requires l.Node?
    requires Single(Size(l.right), Size(l.left)) || l.right.Node?
  {
    var inner, outer := l.right, l.left;
    if Single(Size(inner), Size(outer)) then Node(l.entry, outer, Node(e, inner, r))
    else Node(inner.entry, Node(l.entry, outer, inner.left), Node(e, inner.right, r))
  }

  /** A double rotation never meets an empty inner subtree. */
  lemma InnerIsNode<E>(inner: Tree<E>, outer: Tree<E>, other: nat)
    requires Even(Size(inner), Size(outer)) && Outweighs(1 + Size(inner) + Size(outer), other)
    ensures Single(Size(inner), Size(outer)) || inner.Node?
  {
  }

  function Balance<E>(e: E, l: Tree<E>, r: Tree<E>): (t: Tree<E>)
    requires Balanced(l) && Balanced(r)
    ensures Size(t) == Size(l) + 1 + Size(r)
  {
    if Outweighs(Size(r), Size(l)) then
      InnerIsNode(r.left, r.right, Size(l));
      RotateLeft(e, l, r)
    else if Outweighs(Size(l), Size(r)) then
      EvenIsSymmetric(Size(l.left), Size(l.right));
      InnerIsNode(l.right, l.left, Size(r));
      RotateRight(e, l, r)
    else Node(e, l, r)
  }

  lemma EvenIsSymmetric(l: nat, r: nat)
    ensures Even(l, r) == Even(r, l) && Near(l, r) == Near(r, l)
  {
  }

  /** One rotation repairs one insertion or deletion. */
  lemma SingleIsEven(l: nat, i: nat, o: nat)
    requires Near(l, 1 + i + o) && Even(i, o) && Outweighs(1 + i + o, l) && Single(i, o)
    ensures Even(l, i) && Even(1 + l + i, o)
  {
  }

  lemma DoubleIsEven(l: nat, a: nat, b: nat, o: nat)
    requires Near(l, 2 + a + b + o) && Even(1 + a + b, o) && Even(a, b)
    requires Outweighs(2 + a + b + o, l) && !Single(1 + a + b, o)
    ensures Even(l, a) && Even(b, o) && Even(1 + l + a, 1 + b + o)
  {
  }

  lemma BalanceFlat<E>(e: E, l: Tree<E>, r: Tree<E>)
    requires Balanced(l) && Balanced(r)
    ensures Flat(Balance(e, l, r)) == Flat(l) + [e] + Flat(r)
  {
    if Outweighs(Size(r), Size(l)) {
      InnerIsNode(r.left, r.right, Size(l));
      hide Balanced, Outweighs, Even, Single;
      RotateLeftFlat(e, l, r);
    } else if Outweighs(Size(l), Size(r)) {
      EvenIsSymmetric(Size(l.left), Size(l.right));
      InnerIsNode(l.right, l.left, Size(r));
      hide Balanced, Outweighs, Even, Single;
      RotateRightFlat(e, l, r);
    }
  }

  lemma RotateLeftFlat<E>(e: E, l: Tree<E>, r: Tree<E>)
    requires r.Node? && (Single(Size(r.left), Size(r.right)) || r.left.Node?)
    ensures Flat(RotateLeft(e, l, r)) == Flat(l) + [e] + Flat(r)
  {
  }

  lemma RotateRightFlat<E>(e: E, l: Tree<E>, r: Tree<E>)
    requires l.Node? && (Single(Size(l.right), Size(l.left)) || l.right.Node?)
    ensures Flat(RotateRight(e, l, r)) == Flat(l) + [e] + Flat(r)
  {
  }

  lemma Parts<E>(t: Tree<E>)
    requires Balanced(t) && t.Node?
    ensures Even(Size(t.left), Size(t.right)) && Balanced(t.left) && Balanced(t.right)
    ensures Size(t) == 1 + Size(t.left) + Size(t.right)
  {
  }

  lemma Joined<E>(e: E, l: Tree<E>, r: Tree<E>)
    requires Balanced(l) && Balanced(r) && Even(Size(l), Size(r))
    ensures Balanced(Node(e, l, r)) && Size(Node(e, l, r)) == 1 + Size(l) + Size(r)
  {
  }

  lemma RotateLeftIsBalanced<E>(e: E, l: Tree<E>, r: Tree<E>)
    requires Balanced(l) && Balanced(r) && Near(Size(l), Size(r)) && Outweighs(Size(r), Size(l)) && r.Node?
    ensures (Single(Size(r.left), Size(r.right)) || r.left.Node?) && Balanced(RotateLeft(e, l, r))
  {
    hide Near, Even, Outweighs, Single, Balanced, Size;
    var inner, outer := r.left, r.right;
    Parts(r);
    InnerIsNode(inner, outer, Size(l));
    if Single(Size(inner), Size(outer)) {
      SingleIsEven(Size(l), Size(inner), Size(outer));
      Joined(e, l, inner);
      Joined(r.entry, Node(e, l, inner), outer);
    } else {
      var a, b := inner.left, inner.right;
      Parts(inner);
      DoubleIsEven(Size(l), Size(a), Size(b), Size(outer));
      Joined(e, l, a);
      Joined(r.entry, b, outer);
      Joined(inner.entry, Node(e, l, a), Node(r.entry, b, outer));
    }
  }

  lemma RotateRightIsBalanced<E>(e: E, l: Tree<E>, r: Tree<E>)
    requires Balanced(l) && Balanced(r) && Near(Size(r), Size(l)) && Outweighs(Size(l), Size(r)) && l.Node?
    ensures (Single(Size(l.right), Size(l.left)) || l.right.Node?) && Balanced(RotateRight(e, l, r))
  {
    hide Near, Even, Outweighs, Single, Balanced, Size;
    var inner, outer := l.right, l.left;
    Parts(l);
    EvenIsSymmetric(Size(outer), Size(inner));
    InnerIsNode(inner, outer, Size(r));
    if Single(Size(inner), Size(outer)) {
      SingleIsEven(Size(r), Size(inner), Size(outer));
      EvenIsSymmetric(Size(inner), Size(r));
      EvenIsSymmetric(Size(outer), 1 + Size(r) + Size(inner));
      Joined(e, inner, r);
      Joined(l.entry, outer, Node(e, inner, r));
    } else {
      var a, b := inner.right, inner.left;
      Parts(inner);
      EvenIsSymmetric(Size(b), Size(a));
      DoubleIsEven(Size(r), Size(a), Size(b), Size(outer));
      EvenIsSymmetric(Size(r), Size(a));
      EvenIsSymmetric(Size(b), Size(outer));
      EvenIsSymmetric(1 + Size(r) + Size(a), 1 + Size(b) + Size(outer));
      Joined(l.entry, outer, b);
      Joined(e, a, r);
      Joined(inner.entry, Node(l.entry, outer, b), Node(e, a, r));
    }
  }

  /** One rotation, single or double, repairs one insertion or deletion. */
  lemma BalanceIsBalanced<E>(e: E, l: Tree<E>, r: Tree<E>)
    requires Balanced(l) && Balanced(r) && Near(Size(l), Size(r))
    ensures Balanced(Balance(e, l, r))
  {
    EvenIsSymmetric(Size(l), Size(r));
    hide RotateLeft, RotateRight;
    if Outweighs(Size(r), Size(l)) {
      RotateLeftIsBalanced(e, l, r);
    } else if Outweighs(Size(l), Size(r)) {
      RotateRightIsBalanced(e, l, r);
    }
  }

  // ----- Edits -----

  function Set<E, K>(ord: Order<E, K>, t: Tree<E>, e: E): (r: Tree<E>)
    requires Balanced(t)
    ensures Balanced(r) && Size(t) <= Size(r) <= Size(t) + 1
  {
    if t.Nil? then Node(e, Nil, Nil)
    else
      var k, x := ord.key(e), ord.key(t.entry);
      if ord.Tied(k, x) then Node(e, t.left, t.right)
      else if ord.Less(k, x) then
        var l := Set(ord, t.left, e);
        BalanceIsBalanced(t.entry, l, t.right);
        Balance(t.entry, l, t.right)
      else
        var r := Set(ord, t.right, e);
        BalanceIsBalanced(t.entry, t.left, r);
        Balance(t.entry, t.left, r)
  }

  function DeleteLeast<E>(t: Tree<E>): (r: (E, Tree<E>))
    requires Balanced(t) && t.Node?
    ensures Balanced(r.1) && Size(r.1) == Size(t) - 1
  {
    if t.left.Nil? then (t.entry, t.right)
    else
      var (e, l) := DeleteLeast(t.left);
      BalanceIsBalanced(t.entry, l, t.right);
      (e, Balance(t.entry, l, t.right))
  }

  function DeleteGreatest<E>(t: Tree<E>): (r: (E, Tree<E>))
    requires Balanced(t) && t.Node?
    ensures Balanced(r.1) && Size(r.1) == Size(t) - 1
  {
    if t.right.Nil? then (t.entry, t.left)
    else
      var (e, r) := DeleteGreatest(t.right);
      BalanceIsBalanced(t.entry, t.left, r);
      (e, Balance(t.entry, t.left, r))
  }

  /** Joins the subtrees of a removed node. The map always takes the successor; the run index takes from the
      larger side. */
  function Glue<E>(fromLarger: bool, l: Tree<E>, r: Tree<E>): (t: Tree<E>)
    requires Balanced(l) && Balanced(r) && Even(Size(l), Size(r))
    ensures Balanced(t) && Size(t) == Size(l) + Size(r)
  {
    if l.Nil? then r
    else if r.Nil? then l
    else if fromLarger && Size(l) > Size(r) then
      var (e, rest) := DeleteGreatest(l);
      BalanceIsBalanced(e, rest, r);
      Balance(e, rest, r)
    else
      var (e, rest) := DeleteLeast(r);
      BalanceIsBalanced(e, l, rest);
      Balance(e, l, rest)
  }

  function Remove<E, K>(ord: Order<E, K>, fromLarger: bool, t: Tree<E>, k: K): (r: Tree<E>)
    requires Balanced(t)
    ensures Balanced(r) && Size(t) - 1 <= Size(r) <= Size(t)
  {
    if t.Nil? then Nil
    else
      var x := ord.key(t.entry);
      if ord.Tied(k, x) then Glue(fromLarger, t.left, t.right)
      else if ord.Less(k, x) then
        var l := Remove(ord, fromLarger, t.left, k);
        BalanceIsBalanced(t.entry, l, t.right);
        Balance(t.entry, l, t.right)
      else
        var r := Remove(ord, fromLarger, t.right, k);
        BalanceIsBalanced(t.entry, t.left, r);
        Balance(t.entry, t.left, r)
  }

  lemma {:induction false} DeleteLeastFlat<E>(t: Tree<E>)
    requires Balanced(t) && t.Node?
    ensures [DeleteLeast(t).0] + Flat(DeleteLeast(t).1) == Flat(t)
  {
    hide Balance, Even;
    if t.left.Node? {
      DeleteLeastFlat(t.left);
      BalanceFlat(t.entry, DeleteLeast(t.left).1, t.right);
    }
  }

  lemma {:induction false} DeleteGreatestFlat<E>(t: Tree<E>)
    requires Balanced(t) && t.Node?
    ensures Flat(DeleteGreatest(t).1) + [DeleteGreatest(t).0] == Flat(t)
  {
    hide Balance, Even;
    if t.right.Node? {
      DeleteGreatestFlat(t.right);
      BalanceFlat(t.entry, t.left, DeleteGreatest(t.right).1);
    }
  }

  lemma GlueFlat<E>(fromLarger: bool, l: Tree<E>, r: Tree<E>)
    requires Balanced(l) && Balanced(r) && Even(Size(l), Size(r))
    ensures Flat(Glue(fromLarger, l, r)) == Flat(l) + Flat(r)
  {
    hide Balance, DeleteLeast, DeleteGreatest;
    if l.Node? && r.Node? {
      DeleteGreatestFlat(l);
      DeleteLeastFlat(r);
      BalanceFlat(DeleteGreatest(l).0, DeleteGreatest(l).1, r);
      BalanceFlat(DeleteLeast(r).0, l, DeleteLeast(r).1);
    }
  }
}
