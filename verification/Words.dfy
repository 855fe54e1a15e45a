/** 64-bit unsigned arithmetic as the ring's index registers use it. */
module Words {
  const TWO64: nat := 0x1_0000_0000_0000_0000

  function Wrap(n: int): (w: nat)
    ensures w < TWO64
  {
    n % TWO64
  }

  function Pow2(k: nat): (r: nat)
    ensures r > 0
  {
    if k == 0 then 1 else 2 * Pow2(k - 1)
  }

  /** Bitwise and of two unsigned words, bit by bit. */
  function BitAnd(x: nat, y: nat): nat
  {
    if x == 0 || y == 0 then 0
    else (if x % 2 == 1 && y % 2 == 1 then 1 else 0) + 2 * BitAnd(x / 2, y / 2)
  }

  lemma {:induction false} AndWithLowMask(x: nat, k: nat)
    ensures BitAnd(x, Pow2(k) - 1) == x % Pow2(k)
  {
    if k == 0 || x == 0 {
      RemainderUnique(0, Pow2(k), 0, 0);
    } else {
      hide BitAnd, Pow2;
      AndWithLowMask(x / 2, k - 1);
      AndHalved(x, k);
      HalvedRemainder(x, Pow2(k - 1), Pow2(k));
    }
  }

  lemma AndHalved(x: nat, k: nat)
    requires k > 0 && x > 0
    ensures Pow2(k) == 2 * Pow2(k - 1)
    ensures BitAnd(x, Pow2(k) - 1) == x % 2 + 2 * BitAnd(x / 2, Pow2(k - 1) - 1)
  {
    var m := Pow2(k - 1);
    assert Pow2(k) == 2 * m;
    hide Pow2;
    assert (2 * m - 1) / 2 == m - 1 && (2 * m - 1) % 2 == 1;
    if m == 1 {
      assert x / 2 == 0 || m - 1 == 0;
    }
  }

  lemma HalvedRemainder(x: nat, m: nat, p: nat)
    requires m > 0 && p == 2 * m
    ensures x % p == x % 2 + 2 * (x / 2 % m)
  {
    var half := x / 2;
    var q, r := half / m, half % m;
    Division(half, m);
    Twice(m, q);
    RemainderUnique(x, p, q, x % 2 + 2 * r);
  }

  lemma Division(x: nat, m: nat)
    requires m > 0
    ensures x == m * (x / m) + x % m
  {
  }

  lemma Twice(m: int, q: int)
    ensures 2 * m * q == 2 * (m * q)
  {
  }

  lemma SmallMultipleIsZero(n: int, k: int)
    requires n >= 0
    requires -n < n * k < n
    ensures k == 0
  {
  }

  lemma RemainderUnique(x: int, n: nat, q: int, r: nat)
    requires r < n && x == n * q + r
    ensures x % n == r && x / n == q
  {
    var q', r' := x / n, x % n;
    assert x == n * q' + r';
    Distribute(n, q, q');
    SmallMultipleIsZero(n, q - q');
  }

  lemma Distribute(n: int, a: int, b: int)
    ensures n * (a - b) == n * a - n * b
  {
  }

  lemma {:induction false} Pow2Grows(j: nat, k: nat)
    requires j <= k
    ensures Pow2(j) <= Pow2(k)
    ensures Pow2(k) % Pow2(j) == 0
  {
    if j < k {
      Pow2Grows(j, k - 1);
      var q := Pow2(k - 1) / Pow2(j);
      assert Pow2(k) == Pow2(j) * (2 * q);
      RemainderUnique(Pow2(k), Pow2(j), 2 * q, 0);
    } else {
      RemainderUnique(Pow2(k), Pow2(j), 1, 0);
    }
  }

  lemma Pow2Of64()
    ensures Pow2(64) == TWO64
  {
    assert Pow2(8) == 0x100;
    assert Pow2(16) == 0x1_0000;
    assert Pow2(24) == 0x100_0000;
    assert Pow2(32) == 0x1_0000_0000;
    assert Pow2(40) == 0x100_0000_0000;
    assert Pow2(48) == 0x1_0000_0000_0000;
    assert Pow2(56) == 0x100_0000_0000_0000;
  }

  lemma Regroup(p: int, d: int, q: int, e: int)
    ensures p * d * q + p * e == p * (d * q + e)
  {
  }

  lemma RemainderOfRemainder(n: nat, p: nat, d: nat, m: nat)
    requires p > 0 && d > 0 && m == p * d && m > 0
    ensures n % m % p == n % p
  {
    var q, w := n / m, n % m;
    assert n == m * q + w;
    var e, r := w / p, w % p;
    assert w == p * e + r;
    Regroup(p, d, q, e);
    RemainderUnique(n, p, d * q + e, r);
  }

  lemma WrapIsRemainder(n: nat)
    ensures Wrap(n) == n % TWO64
  {
  }

  /** Reducing modulo 2^64 first does not change the remainder by a smaller power of two. */
  lemma WrapKeepsLowBits(n: nat, k: nat)
    requires k <= 64
    ensures Wrap(n) % Pow2(k) == n % Pow2(k)
  {
    hide Pow2, Wrap;
    Pow2Of64();
    Pow2Grows(k, 64);
    WrapIsRemainder(n);
    var p := Pow2(k);
    var d := TWO64 / p;
    assert TWO64 == p * d + TWO64 % p;
    RemainderOfRemainder(n, p, d, TWO64);
  }

  /** Two numbers less than n apart have different remainders. */
  lemma CloseNumbersDiffer(a: int, b: int, n: nat)
    requires 0 < a - b < n
    ensures a % n != b % n
  {
    if a % n == b % n {
      var qa, qb := a / n, b / n;
      assert a == n * qa + a % n && b == n * qb + b % n;
      Distribute(n, qa, qb);
      SmallMultipleIsZero(n, qa - qb);
      assert false;
    }
  }

  lemma WrapNext(n: nat)
    ensures Wrap(Wrap(n) + 1) == Wrap(n + 1)
  {
  }

  lemma WrapDistinguishes(a: nat, b: nat)
    requires 0 <= b - a < TWO64
    ensures Wrap(a) == Wrap(b) <==> a == b
    ensures Wrap(Wrap(b) - Wrap(a)) == b - a
  {
  }
}
