/** The 64-bit words that sizes and counters are kept in, and powers of two. */
module Machine {
  const WORD: nat := 0x1_0000_0000_0000_0000
  const SIZE_MAX: nat := WORD - 1
  const POINTER_SIZE: nat := 8

  /** Whether the product of two sizes does not fit a word. */
  predicate MultiplyOverflows(x: nat, y: nat) {
    x != 0 && y > SIZE_MAX / x
  }

  lemma MultiplyOverflowsMeans(x: nat, y: nat)
    ensures MultiplyOverflows(x, y) <==> x * y > SIZE_MAX
  {
    if x != 0 {
      var q := SIZE_MAX / x;
      assert x * q <= SIZE_MAX < x * (q + 1);
      if y <= q { MulOrder(y, q, x); } else { MulOrder(q + 1, y, x); }
    }
  }

  lemma MulOrder(a: nat, b: nat, x: nat)
    requires a <= b
    ensures x * a <= x * b
  {
  }

  function Power(k: nat): (p: nat)
    ensures p > 0
  {
    if k == 0 then 1 else 2 * Power(k - 1)
  }

  lemma {:induction false} PowerMonotone(m: nat, n: nat)
    requires m <= n
    ensures Power(m) <= Power(n)
  {
    if m < n { PowerMonotone(m, n - 1); }
  }

  lemma PowerEight(n: nat)
    ensures Power(n + 8) == 256 * Power(n)
  {
    assert Power(n + 2) == 4 * Power(n);
    assert Power(n + 4) == 4 * Power(n + 2);
    assert Power(n + 6) == 4 * Power(n + 4);
  }

  lemma PowerWord()
    ensures Power(32) == 0x1_0000_0000 && Power(64) == WORD == SIZE_MAX + 1
  {
    assert Power(0) == 1;
    hide Power;
    PowerEight(0);
    PowerEight(8);
    PowerEight(16);
    PowerEight(24);
    PowerEight(32);
    PowerEight(40);
    PowerEight(48);
    PowerEight(56);
  }
}
