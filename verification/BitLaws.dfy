/** What bitwise operations, shifts and remainders do to single bits. */
module BitLaws {
  import opened Bits

  /** Bit `k` of `x` is set. */
  predicate Bit(x: nat, k: nat) { x / Pow2(k) % 2 == 1 }

  lemma BitStep(x: nat, k: nat)
    ensures Bit(x, 0) <==> x % 2 == 1
    ensures Bit(x, k + 1) <==> Bit(x / 2, k)
  {
    DivOfDiv(x, 2, Pow2(k));
  }

  lemma DivOfDiv(x: nat, a: nat, b: nat)
    requires a > 0 && b > 0
    ensures a * b > 0 && x / (a * b) == x / a / b
  {
    ProductPositive(a, b);
    var y, r := x / a, x % a;
    var q, s := y / b, y % b;
    Divided(x, a);
    Divided(y, b);
    Distribute(q, b, s, a);
    AtMost(s, b - 1, a);
    DivModUnique(x, a * b, q, s * a + r);
  }

  lemma NoBit(k: nat)
    ensures !Bit(0, k)
  {
  }

  // ----- bitwise operations -----

  lemma {:induction false} AndBit(a: nat, b: nat, k: nat)
    ensures Bit(And(a, b), k) <==> Bit(a, k) && Bit(b, k)
  {
    NoBit(k);
    BitsOf(a, b, And(a, b), k);
    hide Bit;
    if k > 0 && a > 0 && b > 0 {
      AndBit(a / 2, b / 2, k - 1);
    }
  }

  lemma {:induction false} OrBit(a: nat, b: nat, k: nat)
    ensures Bit(Or(a, b), k) <==> Bit(a, k) || Bit(b, k)
  {
    NoBit(k);
    BitsOf(a, b, Or(a, b), k);
    hide Bit;
    if k > 0 && a > 0 && b > 0 {
      OrBit(a / 2, b / 2, k - 1);
    }
  }

  lemma {:induction false} XorBit(a: nat, b: nat, k: nat)
    ensures Bit(Xor(a, b), k) <==> Bit(a, k) != Bit(b, k)
  {
    NoBit(k);
    BitsOf(a, b, Xor(a, b), k);
    hide Bit;
    if k > 0 && a > 0 && b > 0 {
      XorBit(a / 2, b / 2, k - 1);
    }
  }

  lemma BitsOf(a: nat, b: nat, c: nat, k: nat)
    ensures Bit(a, 0) == (a % 2 == 1) && Bit(b, 0) == (b % 2 == 1) && Bit(c, 0) == (c % 2 == 1)
    ensures k > 0 ==> Bit(a, k) == Bit(a / 2, k - 1) && Bit(b, k) == Bit(b / 2, k - 1) && Bit(c, k) == Bit(c / 2, k - 1)
  {
    hide Bit;
    var j := if k > 0 then k - 1 else 0;
    BitStep(a, j);
    BitStep(b, j);
    BitStep(c, j);
  }

  /** Two numbers meet exactly if some bit is set in both. */
  lemma {:induction false} AndMeets(a: nat, b: nat)
    ensures And(a, b) != 0 <==> exists k: nat :: Bit(a, k) && Bit(b, k)
    decreases a
  {
    hide Bit;
    if a == 0 {
      forall k: nat ensures !Bit(a, k) { NoBit(k); }
    } else {
      AndMeets(a / 2, b / 2);
      AndStep(a, b);
      forall k: nat ensures BitsStep(a, b, k) { BitsOf(a, b, 0, k); }
      hide And;
      if a % 2 == 1 && b % 2 == 1 {
        assert BitsStep(a, b, 0) && Bit(a, 0) && Bit(b, 0);
      } else if k: nat :| Bit(a / 2, k) && Bit(b / 2, k) {
        assert BitsStep(a, b, k + 1) && Bit(a, k + 1) && Bit(b, k + 1);
      } else {
        forall k: nat ensures !(Bit(a, k) && Bit(b, k)) {
          assert BitsStep(a, b, k);
        }
      }
    }
  }

  ghost predicate BitsStep(a: nat, b: nat, k: nat) {
    if k == 0 then Bit(a, 0) == (a % 2 == 1) && Bit(b, 0) == (b % 2 == 1)
    else Bit(a, k) == Bit(a / 2, k - 1) && Bit(b, k) == Bit(b / 2, k - 1)
  }

  // ----- remainders and shifts -----

  lemma {:induction false} LowBits(x: nat, n: nat, k: nat)
    ensures Bit(x % Pow2(n), k) <==> k < n && Bit(x, k)
  {
    var r := x % Pow2(n);
    if n == 0 {
      NoBit(k);
    } else {
      HalfMod(x, Pow2(n - 1));
      BitsOf(x, r, 0, k);
      assert r / 2 == x / 2 % Pow2(n - 1) && r % 2 == x % 2;
      hide Bit;
      if k > 0 {
        LowBits(x / 2, n - 1, k - 1);
      }
    }
  }

  lemma HighBits(x: nat, n: nat, k: nat, high: nat)
    requires high == x / Pow2(n)
    ensures Bit(high, k) <==> Bit(x, k + n)
  {
    Pow2Add(n, k);
    DivOfDiv(x, Pow2(n), Pow2(k));
  }

  lemma {:induction false} UpBits(x: nat, n: nat, k: nat)
    ensures Bit(x * Pow2(n), k) <==> k >= n && Bit(x, k - n)
  {
    if n > 0 {
      var y := x * Pow2(n - 1);
      TwiceProduct(x, Pow2(n - 1));
      BitsOf(2 * y, 0, 0, k);
      hide Bit;
      if k > 0 {
        UpBits(x, n - 1, k - 1);
      }
    } else {
      assert x * 1 == x;
    }
  }
}
