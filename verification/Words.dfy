/**
 Unsigned 32-bit machine words over unbounded integers, the bitwise `and` of the
 source, and the facts that turn `x & (size - 1)` into a remainder.
 */
module Words {

  /** 2^32: the modulus of a uint32_t. */
  const U32: nat := 0x1_0000_0000

  type u32 = x: nat | x < 0x1_0000_0000

  /** The value a uint32_t expression has when its exact value is `x`. */
  function Wrap(x: int): (r: u32)
  {
    x % U32
  }

  function Pow2(k: nat): (r: nat)
    ensures r > 0
  {
    if k == 0 then 1 else 2 * Pow2(k - 1)
  }

  /** Bitwise `and`, one bit at a time. */
  function And(x: nat, y: nat): (r: nat)
  {
    if x == 0 || y == 0 then 0
    else 2 * And(x / 2, y / 2) + (if x % 2 == 1 && y % 2 == 1 then 1 else 0)
  }

  lemma {:induction false} AndSelf(x: nat)
    ensures And(x, x) == x
  {
    if x == 0 {
    } else {
      AndSelf(x / 2);
    }
  }

  lemma AndOdd(x: nat, y: nat)
    ensures And(x, 2 * y + 1) == 2 * And(x / 2, y) + x % 2
  {
    assert (2 * y + 1) / 2 == y;
  }

  lemma MaskStep(x: nat, m: nat, h: nat)
    requires m > 0 && h == x / 2 && And(h, m - 1) == h % m
    ensures And(x, 2 * m - 1) == 2 * (h % m) + x % 2
  {
    AndOdd(x, m - 1);
  }

  /** Masking with 2^k - 1 keeps the remainder modulo 2^k. */
  lemma {:induction false} AndMask(x: nat, k: nat)
    ensures And(x, Pow2(k) - 1) == x % Pow2(k)
  {
    if k == 0 {
    } else {
      AndMask(x / 2, k - 1);
      MaskStep(x, Pow2(k - 1), x / 2);
      ModDouble(x, Pow2(k - 1));
    }
  }

  lemma ModDouble(x: nat, m: nat)
    requires m > 0
    ensures x % (2 * m) == 2 * ((x / 2) % m) + x % 2
  {
    var q, r := (x / 2) / m, (x / 2) % m;
    assert x / 2 == q * m + r;
    assert x == q * (2 * m) + (2 * r + x % 2);
    ModUnique(x, 2 * m, q, 2 * r + x % 2);
  }

  /** A multiple of m that lies strictly between -m and m is zero. */
  lemma SmallMultiple(d: int, m: nat)
    ensures -(m as int) < d * m < m ==> d == 0
  {
    if d >= 1 {
      assert d * m == m + (d - 1) * m;
      assert (d - 1) * m >= 0;
    } else if d <= -1 {
      assert d * m == -1 * m - (-1 - d) * m;
      assert (-1 - d) * m >= 0;
    }
  }

  /** A quotient and an in-range remainder are the ones `/` and `%` give. */
  lemma ModUnique(x: int, m: nat, q: int, r: nat)
    requires x == q * m + r && r < m
    ensures x % m == r && x / m == q
  {
    DivMod(x, m);
    assert (q - x / m) * m == q * m - (x / m) * m;
    SmallMultiple(q - x / m, m);
  }

  lemma DivMod(x: int, m: nat)
    requires m > 0
    ensures x == (x / m) * m + x % m && 0 <= x % m < m
  {
  }

  /** Reducing first modulo a multiple of the modulus changes nothing. */
  lemma ModOfMultiple(x: int, a: nat, m: nat)
    requires a > 0 && m > 0
    ensures a * m > 0
    ensures (x % (a * m)) % m == x % m
  {
    assert a * m > 0;
    var q, r := x / (a * m), x % (a * m);
    assert x == (a * m) * q + r;
    var q', r' := r / m, r % m;
    assert r == m * q' + r';
    assert x == (a * q + q') * m + r';
    ModUnique(x, m, a * q + q', r');
  }

  lemma {:induction false} Pow2Add(a: nat, b: nat)
    ensures Pow2(a + b) == Pow2(a) * Pow2(b)
  {
    if a == 0 {
    } else {
      Pow2Add(a - 1, b);
    }
  }

  lemma {:induction false} Pow2Monotone(a: nat, b: nat)
    ensures a <= b ==> Pow2(a) <= Pow2(b)
  {
    if b <= a {
    } else {
      Pow2Monotone(a, b - 1);
    }
  }

  lemma Pow2Small()
    ensures Pow2(8) == 0x100 && Pow2(16) == 0x1_0000 && Pow2(27) == 0x800_0000
    ensures Pow2(28) == 0x1000_0000 && Pow2(32) == U32
  {
    assert Pow2(4) == 16;
    assert Pow2(8) == 256 by { Pow2Add(4, 4); }
    assert Pow2(16) == 65536 by { Pow2Add(8, 8); }
    Pow2Add(16, 16);
    assert Pow2(12) == 4096 by { Pow2Add(8, 4); }
    assert Pow2(28) == 0x1000_0000 by { Pow2Add(16, 12); }
  }

  /** A wrapped position masked with 2^k - 1 gives the position modulo 2^k. */
  lemma WrappedMask(p: nat, k: nat)
    requires k <= 32
    ensures And(Wrap(p), Pow2(k) - 1) == p % Pow2(k)
  {
    AndMask(Wrap(p), k);
    Pow2Small();
    Pow2Add(32 - k, k);
    ModOfMultiple(p, Pow2(32 - k), Pow2(k));
  }

  /** Two positions less than one modulus apart have equal remainders only if equal. */
  lemma ModInjective(p: int, q: int, m: nat)
    requires m > 0 && p <= q < p + m && p % m == q % m
    ensures p == q
  {
    DivMod(p, m);
    DivMod(q, m);
    assert (q / m - p / m) * m == (q / m) * m - (p / m) * m;
    SmallMultiple(q / m - p / m, m);
  }

  /** Different positions less than one modulus apart have different remainders. */
  lemma ModDistinct(p: int, q: int, m: nat)
    requires m > 0 && p != q && p - m < q < p + m
    ensures p % m != q % m
  {
    if p % m == q % m {
      if p < q { ModInjective(p, q, m); } else { ModInjective(q, p, m); }
    }
  }

  /** Wrapping the operands first does not change a wrapped sum or difference. */
  lemma WrapArith(a: int, b: int, c: int)
    ensures Wrap(a + Wrap(b) - Wrap(c)) == Wrap(a + b - c)
  {
    var x := a + Wrap(b) - Wrap(c);
    var y := a + b - c;
    assert b == U32 * (b / U32) + Wrap(b);
    assert c == U32 * (c / U32) + Wrap(c);
    var d := b / U32 - c / U32;
    assert y == x + U32 * d;
    var q := x / U32;
    assert x == U32 * q + Wrap(x);
    ModUnique(y, U32, q + d, Wrap(x));
  }

  lemma WrapPlus(x: int, n: int)
    ensures Wrap(Wrap(x) + n) == Wrap(x + n)
  {
    WrapArith(n, x, 0);
  }

  /** A 32-bit difference whose exact value fits a word is that exact value. */
  lemma ExactDifference(a: int, b: int, c: int)
    requires 0 <= a + b - c < U32
    ensures Wrap(a + Wrap(b) - Wrap(c)) == a + b - c
  {
    WrapArith(a, b, c);
  }

  ghost predicate IsPow2(x: nat)
  {
    exists k: nat :: Pow2(k) == x
  }

  /** The source's power-of-two test, exact for every non-zero count. */
  lemma {:induction false} PowerTest(x: nat)
    requires x > 0
    ensures And(x - 1, x) == 0 <==> IsPow2(x)
  {
    if x == 1 {
      assert Pow2(0) == 1;
    } else if x % 2 == 1 {
      AndSelf(x / 2);
      assert forall k: nat :: k > 0 ==> Pow2(k) % 2 == 0;
    } else {
      PowerTest(x / 2);
      assert (x - 1) / 2 == x / 2 - 1;
      if IsPow2(x) {
        var k: nat :| Pow2(k) == x;
        assert k > 0 && Pow2(k - 1) == x / 2;
      } else if IsPow2(x / 2) {
        var k: nat :| Pow2(k) == x / 2;
        assert Pow2(k + 1) == x;
      }
    }
  }
}

/** Counting sets of thread numbers below n. */
module ThreadSets {

  /** A set of thread numbers smaller than n misses one of them. */
  lemma {:induction false} Missing(a: set<nat>, n: nat) returns (t: nat)
    requires |a| < n && forall x :: x in a ==> x < n
    ensures t < n && t !in a
  {
    if n - 1 in a {
      t := Missing(a - {n - 1}, n - 1);
    } else {
      t := n - 1;
    }
  }

  lemma {:induction false} AtMost(a: set<nat>, n: nat)
    requires forall x :: x in a ==> x < n
    ensures |a| <= n
    decreases n
  {
    if n == 0 {
      assert a == {};
    } else {
      AtMost(a - {n - 1}, n - 1);
    }
  }
}
