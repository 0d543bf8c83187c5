/** Bitwise operations on natural numbers, and their arithmetic meaning for the masks and shifts
    the virtual machine uses. */
module Bits {

  function Pow2(k: nat): (p: nat)
    ensures p >= 1
  {
    if k == 0 then 1 else 2 * Pow2(k - 1)
  }

  function And(a: nat, b: nat): (r: nat)
    ensures r <= a && r <= b
  {
    if a == 0 || b == 0 then 0 else 2 * And(a / 2, b / 2) + (if a % 2 == 1 && b % 2 == 1 then 1 else 0)
  }

  function Or(a: nat, b: nat): (r: nat)
    ensures a <= r <= a + b && b <= r
  {
    if a == 0 then b
    else if b == 0 then a
    else 2 * Or(a / 2, b / 2) + (if a % 2 == 1 || b % 2 == 1 then 1 else 0)
  }

  function Xor(a: nat, b: nat): (r: nat)
    ensures r <= a + b
  {
    if a == 0 then b
    else if b == 0 then a
    else 2 * Xor(a / 2, b / 2) + (if a % 2 != b % 2 then 1 else 0)
  }

  lemma {:induction false} Pow2Add(j: nat, k: nat)
    ensures Pow2(j + k) == Pow2(j) * Pow2(k)
  {
    if j > 0 {
      Pow2Add(j - 1, k);
      assert Pow2(j) * Pow2(k) == 2 * (Pow2(j - 1) * Pow2(k));
    }
  }

  lemma SmallPowers()
    ensures Pow2(1) == 2 && Pow2(2) == 4 && Pow2(3) == 8 && Pow2(4) == 16
  {
  }

  lemma Pow2Values()
    ensures Pow2(3) == 8 && Pow2(4) == 16 && Pow2(6) == 64 && Pow2(8) == 256
    ensures Pow2(16) == 0x1_0000 && Pow2(32) == 0x1_0000_0000
    ensures Pow2(63) == 0x8000_0000_0000_0000 && Pow2(64) == 0x1_0000_0000_0000_0000
  {
    hide Pow2;
    SmallPowers();
    Pow2Add(3, 3);
    Pow2Add(4, 4);
    Pow2Add(8, 8);
    Pow2Add(16, 16);
    Pow2Add(32, 32);
    Pow2Add(1, 63);
  }

  /** One binary digit of a conjunction, also where an operand is zero */
  lemma AndStep(a: nat, b: nat)
    ensures And(a, b) == 2 * And(a / 2, b / 2) + (if a % 2 == 1 && b % 2 == 1 then 1 else 0)
  {
  }

  /** Joining an even number with `b` keeps `b`'s lowest digit. */
  lemma OrEven(a: nat, b: nat)
    ensures Or(2 * a, b) == 2 * Or(a, b / 2) + b % 2
  {
  }

  /** Masking with ones in the `k` lowest places takes the remainder. */
  lemma {:induction false} AndLowMask(x: nat, k: nat)
    ensures And(x, Pow2(k) - 1) == x % Pow2(k)
  {
    if k > 0 {
      AndLowMask(x / 2, k - 1);
      AndLowStep(x, Pow2(k - 1));
    }
  }

  lemma AndLowStep(x: nat, m: nat)
    requires m > 0 && And(x / 2, m - 1) == x / 2 % m
    ensures And(x, 2 * m - 1) == x % (2 * m)
  {
    hide And;
    AndStep(x, 2 * m - 1);
    assert (2 * m - 1) / 2 == m - 1 && (2 * m - 1) % 2 == 1;
    HalfMod(x, m);
  }

  lemma HalfMod(x: nat, m: nat)
    requires m > 0
    ensures x % (2 * m) == 2 * (x / 2 % m) + x % 2
  {
    var q := x / 2 / m;
    assert x / 2 == q * m + x / 2 % m;
    assert x == q * (2 * m) + (2 * (x / 2 % m) + x % 2);
    DivModUnique(x, 2 * m, q, 2 * (x / 2 % m) + x % 2);
  }

  lemma DivModUnique(x: int, d: int, q: int, r: int)
    requires d > 0 && 0 <= r < d && x == q * d + r
    ensures x / d == q && x % d == r
  {
    QuotientUnique(d, q, r, x / d, x % d);
  }

  lemma QuotientUnique(d: int, q: int, r: int, q': int, r': int)
    requires 0 <= r < d && 0 <= r' < d && q * d + r == q' * d + r'
    ensures q == q' && r == r'
  {
    if q > q' {
      AtLeastOnce(q - q', d);
    } else if q < q' {
      AtLeastOnce(q' - q, d);
    }
  }

  lemma AtLeastOnce(k: int, d: int)
    requires k >= 1 && d > 0
    ensures k * d >= d
  {
  }

  /** Masking with ones in places `k` up to `n` takes those places. */
  lemma {:induction false} AndMask(x: nat, k: nat, n: nat)
    requires k <= n
    ensures Pow2(k) <= Pow2(n)
    ensures And(x, Pow2(n) - Pow2(k)) == x % Pow2(n) - x % Pow2(k)
  {
    if k == 0 {
      AndLowMask(x, n);
    } else {
      AndMask(x / 2, k - 1, n - 1);
      AndMaskStep(x, Pow2(k - 1), Pow2(n - 1));
      hide And, Pow2;
      assert Pow2(n) - Pow2(k) == 2 * (Pow2(n - 1) - Pow2(k - 1));
    }
  }

  lemma AndMaskStep(x: nat, p: nat, q: nat)
    requires 0 < p <= q && And(x / 2, q - p) == x / 2 % q - x / 2 % p
    ensures And(x, 2 * (q - p)) == x % (2 * q) - x % (2 * p)
  {
    AndStep(x, 2 * (q - p));
    HalfMod(x, p);
    HalfMod(x, q);
    hide And;
  }

  /** Masking away the `k` lowest places of an `n`-bit number rounds down. */
  lemma AndHighMask(x: nat, k: nat, n: nat)
    requires k <= n && x < Pow2(n)
    ensures Pow2(k) <= Pow2(n)
    ensures And(x, Pow2(n) - Pow2(k)) == x - x % Pow2(k)
  {
    AndMask(x, k, n);
    SmallMod(x, Pow2(n));
  }

  /** The places `2^k` up to `m * 2^k` of a number, shifted down */
  lemma MiddleDigits(x: nat, p: nat, m: nat)
    requires p > 0 && m > 0
    ensures p * m > 0 && (x % (p * m) - x % p) / p == x / p % m
  {
    var y, z := x / p, x % p;
    var q, r := y / m, y % m;
    ProductPositive(p, m);
    Divided(x, p);
    Divided(y, m);
    Distribute(q, m, r, p);
    AtMost(r, m - 1, p);
    DivModUnique(x, p * m, q, r * p + z);
    DivModUnique(r * p, p, r, 0);
  }

  lemma ProductPositive(p: nat, m: nat)
    requires p > 0 && m > 0
    ensures p * m > 0
  {
  }

  lemma Divided(x: nat, d: nat)
    requires d > 0
    ensures x == x / d * d + x % d && 0 <= x % d < d && x / d >= 0
  {
  }

  lemma Distribute(q: nat, m: nat, r: nat, p: nat)
    ensures (q * m + r) * p == q * (p * m) + r * p
  {
    assert (q * m) * p == q * (m * p);
  }

  lemma AtMost(r: nat, s: int, p: nat)
    requires r <= s
    ensures 0 <= r * p <= s * p == p * (s + 1) - p
  {
  }

  lemma ModAdd(x: int, y: int, n: int)
    requires n > 0
    ensures (x % n + y) % n == (x + y) % n
  {
    var q, r := x / n, x % n;
    var q', r' := (r + y) / n, (r + y) % n;
    assert x + y == (q + q') * n + r';
    DivModUnique(x + y, n, q + q', r');
  }

  /** The remainder of a remainder, for a divisor of the divisor */
  lemma ModOfMod(x: int, n: int, m: int)
    requires n > 0 && m > 0
    ensures n * m > 0 && x % (n * m) % n == x % n
  {
    ProductPositive(n, m);
    var q, w := x / (n * m), x % (n * m);
    var q', r := w / n, w % n;
    assert q * (n * m) == (q * m) * n;
    assert x == (q * m + q') * n + r;
    DivModUnique(x, n, q * m + q', r);
  }

  lemma SmallQuotient(a: nat, b: nat)
    requires b > 0
    ensures 0 <= a / b <= a && 0 <= a % b <= a
  {
    Divided(a, b);
    Grows(a / b, b);
  }

  lemma Grows(q: nat, b: nat)
    requires b > 0
    ensures q * b >= q
  {
  }

  lemma SmallMod(x: nat, m: nat)
    requires x < m
    ensures x % m == x
  {
  }

  /** Joining a multiple of `2^k` with something below `2^k` adds. */
  lemma {:induction false} OrDisjoint(a: nat, b: nat, k: nat)
    requires b < Pow2(k)
    ensures Or(a * Pow2(k), b) == a * Pow2(k) + b
  {
    if k > 0 {
      var p := a * Pow2(k - 1);
      OrDisjoint(a, b / 2, k - 1);
      TwiceProduct(a, Pow2(k - 1));
      OrEven(p, b);
      hide Or;
      assert Or(2 * p, b) == 2 * p + b;
    } else {
      assert a * 1 == a;
    }
  }

  lemma {:induction false} OrCommutes(a: nat, b: nat)
    ensures Or(a, b) == Or(b, a)
  {
    if a > 0 && b > 0 {
      OrCommutes(a / 2, b / 2);
    }
  }

  lemma {:induction false} AndSelf(a: nat)
    ensures And(a, a) == a
  {
    if a > 0 {
      AndSelf(a / 2);
    }
  }

  lemma {:induction false} XorSelf(a: nat)
    ensures Xor(a, a) == 0
  {
    if a > 0 {
      XorSelf(a / 2);
    }
  }

  lemma TwiceProduct(a: nat, m: nat)
    ensures a * (2 * m) == 2 * (a * m)
  {
  }

  lemma {:induction false} OrBound(a: nat, b: nat, n: nat)
    requires a < Pow2(n) && b < Pow2(n)
    ensures Or(a, b) < Pow2(n)
  {
    if n > 0 && a > 0 && b > 0 {
      OrBound(a / 2, b / 2, n - 1);
    }
  }

  lemma {:induction false} XorBound(a: nat, b: nat, n: nat)
    requires a < Pow2(n) && b < Pow2(n)
    ensures Xor(a, b) < Pow2(n)
  {
    if n > 0 && a > 0 && b > 0 {
      XorBound(a / 2, b / 2, n - 1);
    }
  }
}
