/** Canonical skew-binary numbers, least weight first: weights 2^k - 1, strictly ascending except that the
    first two may be equal. They say where a jump link goes and what an ancestor query costs. */
module SkewBinary {
  import opened Machine

  /** The floor of the binary logarithm. */
  function Log2(n: nat): nat
    requires n > 0
  {
    if n == 1 then 0 else 1 + Log2(n / 2)
  }

  lemma {:induction false} Log2Bound(n: nat, k: nat)
    requires n > 0 && Power(k) <= n
    ensures k <= Log2(n)
  {
    if k > 0 { Log2Bound(n / 2, k - 1); }
  }

  lemma {:induction false} Log2IsFloor(n: nat)
    requires n > 0
    ensures Power(Log2(n)) <= n < Power(Log2(n) + 1)
  {
    if n > 1 { Log2IsFloor(n / 2); }
  }

  ghost predicate IsWeight(w: nat) {
    w == 1 || (w > 1 && w % 2 == 1 && IsWeight((w - 1) / 2))
  }

  /** The k with w = 2^k - 1. */
  ghost function Exponent(w: nat): (k: nat)
    requires IsWeight(w)
    ensures k >= 1 && w + 1 == Power(k)
  {
    if w == 1 then
      assert Power(1) == 2 * Power(0);
      1
    else
      var h := (w - 1) / 2;
      assert w == 2 * h + 1;
      assert Power(1 + Exponent(h)) == 2 * Power(Exponent(h));
      1 + Exponent(h)
  }

  ghost predicate Ascending(d: seq<nat>) {
    && (forall i :: 0 <= i < |d| ==> IsWeight(d[i]))
    && (forall i :: 0 <= i < |d| - 1 ==> d[i] < d[i + 1])
  }

  ghost predicate Canonical(d: seq<nat>) {
    d == [] || (IsWeight(d[0]) && Ascending(d[1..]) && (|d| > 1 ==> d[0] <= d[1]))
  }

  function Sum(d: seq<nat>): nat {
    if d == [] then 0 else d[0] + Sum(d[1..])
  }

  // ----- Counting up and down -----

  function Increment(d: seq<nat>): seq<nat> {
    if |d| >= 2 && d[1] <= d[0] then [1 + d[0] + d[1]] + d[2..] else [1] + d
  }

  function Decrement(d: seq<nat>): seq<nat>
    requires d != [] && d[0] > 0
  {
    if d[0] == 1 then d[1..] else [(d[0] - 1) / 2, (d[0] - 1) / 2] + d[1..]
  }

  /** Two weights in strict order leave room for the merged one. */
  lemma {:induction false} WeightGap(v: nat, w: nat)
    requires IsWeight(v) && IsWeight(w) && v < w
    ensures 2 * v + 1 <= w
  {
    if v > 1 { WeightGap((v - 1) / 2, (w - 1) / 2); }
  }

  lemma SumHead(w: nat, d: seq<nat>)
    ensures Sum([w] + d) == w + Sum(d)
  {
    assert ([w] + d)[1..] == d;
  }

  lemma IncrementFacts(d: seq<nat>)
    requires Canonical(d)
    ensures Canonical(Increment(d)) && Sum(Increment(d)) == Sum(d) + 1
  {
    if |d| >= 2 && d[1] <= d[0] {
      assert d[1..][0] == d[1];
      SumHead(1 + d[0] + d[1], d[2..]);
      assert d[1..][1..] == d[2..];
      assert IsWeight(1 + d[0] + d[1]);
      if |d| > 2 {
        assert d[1..][1] == d[2];
        WeightGap(d[1], d[2]);
      }
    } else {
      SumHead(1, d);
      assert ([1] + d)[1..] == d;
      if |d| > 1 { assert d[1..][0] == d[1]; }
    }
  }

  lemma DecrementFacts(d: seq<nat>)
    requires Canonical(d) && d != []
    ensures Canonical(Decrement(d)) && Sum(Decrement(d)) + 1 == Sum(d) && Increment(Decrement(d)) == d
  {
    var rest := d[1..];
    assert d == [d[0]] + rest;
    if d[0] > 1 {
      var h := (d[0] - 1) / 2;
      assert Decrement(d) == [h] + ([h] + rest);
      SumHead(h, rest);
      SumHead(h, [h] + rest);
      assert Decrement(d)[1..] == [h] + rest && Decrement(d)[2..] == rest;
    } else if |d| > 2 {
      assert rest[1] > rest[0];
      assert rest[1..] == d[2..];
    }
  }

  /** The canonical form of n. */
  function Digits(n: nat): seq<nat> {
    if n == 0 then [] else Increment(Digits(n - 1))
  }

  lemma {:induction false} DigitsAreCanonical(n: nat)
    ensures Canonical(Digits(n)) && Sum(Digits(n)) == n
  {
    if n > 0 {
      DigitsAreCanonical(n - 1);
      IncrementFacts(Digits(n - 1));
    }
  }

  /** Every number has exactly one canonical form. */
  lemma {:induction false} CanonicalIsUnique(d: seq<nat>, n: nat)
    requires Canonical(d) && Sum(d) == n
    ensures d == Digits(n)
    decreases n
  {
    if d != [] {
      DecrementFacts(d);
      CanonicalIsUnique(Decrement(d), n - 1);
    }
  }

  lemma PredecessorIsDecrement(d: seq<nat>, e: seq<nat>)
    requires Canonical(d) && Canonical(e) && Sum(d) == Sum(e) + 1
    ensures d != [] && d[0] > 0 && e == Decrement(d)
  {
    DecrementFacts(d);
    CanonicalIsUnique(Decrement(d), Sum(e));
    CanonicalIsUnique(e, Sum(e));
  }

  // ----- What a query costs -----

  /** The hops of a walk up r levels from a node whose chain of jump lengths is d. */
  ghost function Hops(d: seq<nat>, r: nat): nat
    requires Canonical(d) && r <= Sum(d)
    decreases r
  {
    if r == 0 then 0
    else if d[0] <= r then TailFacts(d); 1 + Hops(d[1..], r - d[0])
    else DecrementFacts(d); 1 + Hops(Decrement(d), r - 1)
  }

  lemma TailFacts(d: seq<nat>)
    requires Canonical(d) && d != []
    ensures Ascending(d[1..]) && Canonical(d[1..]) && Sum(d[1..]) + d[0] == Sum(d)
  {
    var rest := d[1..];
    if |rest| > 1 { assert rest[0] < rest[1] && rest[1..][0] == rest[1]; }
  }

  /** Once the first jump overshoots, each halving costs at most two hops. */
  lemma {:induction false} DescentCost(d: seq<nat>, r: nat)
    requires Canonical(d) && d != [] && r < d[0] && r <= Sum(d)
    ensures Hops(d, r) <= 2 * (Exponent(d[0]) - 1)
    decreases r
  {
    if r > 0 {
      DecrementFacts(d);
      var e := Decrement(d);
      var h := e[0];
      assert e == [h, h] + d[1..];
      if h <= r - 1 {
        TailFacts(e);
        assert Hops(e, r - 1) == 1 + Hops(e[1..], r - 1 - h);
        DescentCost(e[1..], r - 1 - h);
      } else {
        DescentCost(e, r - 1);
      }
    }
  }

  /** Jumps climb strictly growing weights until one overshoots. */
  lemma {:induction false} AscentCost(d: seq<nat>, r: nat)
    requires Ascending(d) && Canonical(d) && d != [] && r <= Sum(d)
    ensures Hops(d, r) + Exponent(d[0]) <= 3 * Exponent(d[|d| - 1])
    decreases |d|
  {
    ExponentOrder(d, 0, |d| - 1);
    if r < d[0] {
      DescentCost(d, r);
    } else {
      TailFacts(d);
      if |d| > 1 {
        AscentCost(d[1..], r - d[0]);
        ExponentStep(d[0], d[1]);
      }
    }
  }

  lemma {:induction false} ExponentStep(v: nat, w: nat)
    requires IsWeight(v) && IsWeight(w) && v < w
    ensures Exponent(v) < Exponent(w)
  {
    if v > 1 { ExponentStep((v - 1) / 2, (w - 1) / 2); }
  }

  lemma {:induction false} ExponentOrder(d: seq<nat>, i: nat, j: nat)
    requires Ascending(d) && i <= j < |d|
    ensures Exponent(d[i]) <= Exponent(d[j])
    decreases j
  {
    if i < j {
      ExponentOrder(d, i, j - 1);
      assert d[j - 1] < d[j - 1 + 1];
      ExponentStep(d[j - 1], d[j]);
    }
  }

  lemma {:induction false} WeightBelowSum(d: seq<nat>, i: nat)
    requires i < |d|
    ensures d[i] <= Sum(d)
  {
    if i > 0 { WeightBelowSum(d[1..], i - 1); }
  }

  /** A walk of any length from level n takes at most 3 * floor(log2(n + 1)) hops. */
  lemma HopBound(d: seq<nat>, r: nat)
    requires Canonical(d) && r <= Sum(d)
    ensures Hops(d, r) <= 3 * Log2(Sum(d) + 1)
  {
    if r > 0 {
      assert d != [];
      hide *;
      var k := LastExponent(d);
      HopsByLast(d, r, k);
    }
  }

  lemma LastExponent(d: seq<nat>) returns (k: nat)
    requires Canonical(d) && d != []
    ensures IsWeight(d[|d| - 1]) && k == Exponent(d[|d| - 1]) <= Log2(Sum(d) + 1)
  {
    hide Canonical, Sum, Exponent, Log2;
    FirstExponent(d);
    WeightBelowSum(d, |d| - 1);
    k := Exponent(d[|d| - 1]);
    Log2Bound(Sum(d) + 1, k);
  }

  lemma HopsByLast(d: seq<nat>, r: nat, k: nat)
    requires Canonical(d) && d != [] && r <= Sum(d) && IsWeight(d[|d| - 1]) && k == Exponent(d[|d| - 1])
    ensures Hops(d, r) <= 3 * k
  {
    FirstExponent(d);
    if r < d[0] {
      hide *;
      DescentCost(d, r);
    } else {
      assert d[0] > 0;
      hide *;
      HopsJump(d, r);
      TailFacts(d);
      if |d| > 1 {
        var rest := d[1..];
        assert rest[|rest| - 1] == d[|d| - 1];
        AscentCost(rest, r - d[0]);
      }
    }
  }

  lemma HopsJump(d: seq<nat>, r: nat)
    requires Canonical(d) && d != [] && d[0] <= r <= Sum(d) && r > 0
    ensures Canonical(d[1..]) && r - d[0] <= Sum(d[1..]) && Hops(d, r) == 1 + Hops(d[1..], r - d[0])
    ensures |d| == 1 ==> Hops(d, r) == 1
  {
    TailFacts(d);
  }

  lemma FirstExponent(d: seq<nat>)
    requires Canonical(d) && d != []
    ensures IsWeight(d[|d| - 1]) && Exponent(d[0]) <= Exponent(d[|d| - 1])
  {
    if |d| > 1 {
      var rest := d[1..];
      ExponentOrder(rest, 0, |rest| - 1);
      assert rest[0] == d[1];
      if d[0] < d[1] { ExponentStep(d[0], d[1]); }
    }
  }
}
