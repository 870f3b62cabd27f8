/** The bit-by-bit integer square root on 64-bit words. */
module SquareRoot {
  import opened Machine

  ghost predicate IsRoot(n: nat, r: nat) {
    r * r <= n < (r + 1) * (r + 1)
  }

  /** The square tried when the root is known up to an error below 2^k. */
  ghost function Trial(k: nat): nat {
    if k == 0 then 0 else Power(k - 1) * Power(k - 1)
  }

  /** The loop state: q is the root found so far, up to an error below 2^k. */
  ghost predicate Narrowed(value: nat, remainder: nat, root: nat, bit: nat, k: nat, q: nat) {
    && q + Power(k) <= Power(32)
    && bit == Trial(k) && root == Power(k) * q
    && q * q + remainder == value < (q + Power(k)) * (q + Power(k))
  }

  lemma TrialFacts(k: nat)
    ensures k > 0 ==> Trial(k) / 4 == Trial(k - 1)
    ensures Trial(k) == 0 <==> k == 0
  {
    if k > 1 {
      var h := Power(k - 2);
      assert Trial(k) == (2 * h) * (2 * h) == 4 * (h * h);
      Product(h, h);
    } else {
      assert k == 1 ==> Trial(k) == 1 * 1;
    }
  }

  lemma Product(x: nat, y: nat)
    ensures x > 0 && y > 0 ==> x * y > 0
  {
  }

  lemma SquareOrder(x: nat, y: nat)
    requires x <= y
    ensures x * x <= y * y
  {
    MulOrder(x, y, x);
    MulOrder(x, y, y);
  }

  lemma Expand(q: nat, h: nat)
    ensures (q + h) * (q + h) == q * q + 2 * (h * q) + h * h
  {
  }

  /** A first bit above the value is skipped. */
  lemma SkipBit(value: nat, bit: nat, k: nat)
    requires Narrowed(value, value, 0, bit, k, 0) && bit > value
    ensures k > 0 && Narrowed(value, value, 0, bit / 4, k - 1, 0)
  {
    TrialFacts(k);
  }

  /** One trial, whichever way it goes. No addition leaves the machine word. */
  lemma TryBit(value: nat, remainder: nat, root: nat, bit: nat, k: nat, q: nat)
    requires Narrowed(value, remainder, root, bit, k, q) && bit != 0
    ensures k > 0 && root + bit < WORD
    ensures remainder >= root + bit ==>
      Narrowed(value, remainder - (root + bit), root / 2 + bit, bit / 4, k - 1, q + Power(k - 1))
    ensures remainder < root + bit ==> Narrowed(value, remainder, root / 2, bit / 4, k - 1, q)
  {
    TrialFacts(k);
    var h := Power(k - 1);
    assert Power(k) == 2 * h && bit == h * h;
    hide Trial, Power;
    Halve(value, remainder, root, q, h);
    NoWrap(q, h);
  }

  lemma Halve(value: nat, remainder: nat, root: nat, q: nat, h: nat)
    requires root == (2 * h) * q && q * q + remainder == value < (q + 2 * h) * (q + 2 * h)
    ensures root == 2 * (h * q) && root / 2 == h * q && root / 2 + h * h == h * (q + h)
    ensures remainder >= root + h * h ==> (q + h) * (q + h) + (remainder - (root + h * h)) == value
    ensures value < (q + h + h) * (q + h + h)
    ensures remainder < root + h * h ==> value < (q + h) * (q + h)
  {
    Expand(q, h);
    Double(q, h);
    assert q + h + h == q + 2 * h;
  }

  lemma Double(q: nat, h: nat)
    ensures (2 * h) * q == 2 * (h * q) && h * (q + h) == h * q + h * h
  {
  }

  lemma NoWrap(q: nat, h: nat)
    requires q + 2 * h <= Power(32)
    ensures 2 * (h * q) + h * h <= Power(32) * Power(32) && (h > 0 ==> 2 * (h * q) + h * h < WORD)
  {
    hide Power;
    Expand(q, 2 * h);
    SquareOrder(q + 2 * h, Power(32));
    assert (2 * h) * q == 2 * (h * q) && (2 * h) * (2 * h) == 4 * (h * h);
    Product(h, h);
    PowerWord();
  }

  /** The exact floor root of every machine word. */
  method IntegerSquareRoot(value: nat) returns (root: nat)
    requires value < WORD
    ensures IsRoot(value, root)
  {
    hide *;
    var remainder: nat := value;
    root := 0;
    var bit: nat := 0x4000_0000_0000_0000;
    ghost var k: nat, q: nat := 32, 0;
    FirstBit(value);
    while bit > remainder
      invariant remainder == value && Narrowed(value, remainder, root, bit, k, q) && root == q == 0
    {
      SkipBit(value, bit, k);
      bit := bit / 4;
      k := k - 1;
    }
    while bit != 0
      invariant Narrowed(value, remainder, root, bit, k, q)
    {
      TryBit(value, remainder, root, bit, k, q);
      if remainder >= root + bit {
        remainder := remainder - (root + bit);
        root := root / 2 + bit;
        q := q + Power(k - 1);
      } else {
        root := root / 2;
      }
      bit := bit / 4;
      k := k - 1;
    }
    LastBit(value, remainder, root, k, q);
  }

  lemma FirstBit(value: nat)
    requires value < WORD
    ensures Narrowed(value, value, 0, 0x4000_0000_0000_0000, 32, 0)
  {
    PowerWord();
    assert 2 * Power(31) == Power(32);
    assert Power(31) == 0x8000_0000;
  }

  lemma LastBit(value: nat, remainder: nat, root: nat, k: nat, q: nat)
    requires Narrowed(value, remainder, root, 0, k, q)
    ensures IsRoot(value, root)
  {
    TrialFacts(k);
  }

  lemma RootIsUnique(n: nat, r: nat, s: nat)
    requires IsRoot(n, r) && IsRoot(n, s)
    ensures r == s
  {
    if r < s { SquareOrder(r + 1, s); }
    if s < r { SquareOrder(s + 1, r); }
  }
}
