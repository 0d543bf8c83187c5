/** The implicit binary search tree laid out in breadth-first order: node `k` has children `2k + 1`
    and `2k + 2`, and an in-order walk visits the sorted positions `0, 1, 2, ...`. */
module Eytzinger {
  import opened Bits

  /** Number of nodes below and including `k` */
  ghost function Size(n: nat, k: nat): nat
    decreases if k < n then n - k else 0
  {
    if k >= n then 0 else 1 + Size(n, 2 * k + 1) + Size(n, 2 * k + 2)
  }

  /** The first sorted position that belongs to the subtree of `k` */
  ghost function Start(n: nat, k: nat): nat
    decreases k
  {
    if k == 0 then 0
    else
      var p := (k - 1) / 2;
      if k % 2 == 1 then Start(n, p) else Start(n, p) + Size(n, 2 * p + 1) + 1
  }

  /** The sorted position held by node `k` */
  ghost function InPos(n: nat, k: nat): nat {
    Start(n, k) + Size(n, 2 * k + 1)
  }

  ghost predicate Below(k: nat, j: nat)
    decreases j
  {
    j == k || (j > k && Below(k, (j - 1) / 2))
  }

  lemma StartChildren(n: nat, k: nat)
    ensures Start(n, 2 * k + 1) == Start(n, k)
    ensures Start(n, 2 * k + 2) == InPos(n, k) + 1
  {
    assert (2 * k + 1 - 1) / 2 == k && (2 * k + 1) % 2 == 1;
    assert (2 * k + 2 - 1) / 2 == k && (2 * k + 2) % 2 == 0;
  }

  /** A proper descendant lies below exactly one child. */
  lemma {:induction false} BelowChild(k: nat, j: nat)
    requires j > k
    ensures Below(k, j) <==> Below(2 * k + 1, j) || Below(2 * k + 2, j)
    ensures !(Below(2 * k + 1, j) && Below(2 * k + 2, j))
    decreases j
  {
    var p := (j - 1) / 2;
    if p > k {
      BelowChild(k, p);
    } else {
      assert p == k ==> j == 2 * k + 1 || j == 2 * k + 2;
    }
  }

  lemma {:induction false} AllBelowRoot(j: nat)
    ensures Below(0, j)
  {
    if j > 0 { AllBelowRoot((j - 1) / 2); }
  }

  lemma {:induction false} SizeGrows(n: nat, k: nat)
    ensures Size(n + 1, k) == Size(n, k) + (if Below(k, n) then 1 else 0)
    decreases if k < n then n - k else 0
  {
    if k < n {
      SizeGrows(n, 2 * k + 1);
      SizeGrows(n, 2 * k + 2);
      BelowChild(k, n);
    } else if k == n {
      assert Size(n + 1, 2 * n + 1) == 0 && Size(n + 1, 2 * n + 2) == 0;
    }
  }

  /** The whole tree holds all positions. */
  lemma {:induction false} RootSize(n: nat)
    ensures Size(n, 0) == n
  {
    if n > 0 {
      RootSize(n - 1);
      SizeGrows(n - 1, 0);
      AllBelowRoot(n - 1);
    }
  }

  /** Subtrees of nodes and of their missing children stay inside the sorted positions. */
  lemma {:induction false} SubtreeInRange(n: nat, k: nat)
    requires k == 0 || (k - 1) / 2 < n
    ensures Start(n, k) + Size(n, k) <= n
    decreases k
  {
    if k == 0 {
      RootSize(n);
    } else {
      var p := (k - 1) / 2;
      SubtreeInRange(n, p);
      ChildInRange(n, p, k);
    }
  }

  lemma ChildInRange(n: nat, p: nat, k: nat)
    requires p < n && Start(n, p) + Size(n, p) <= n && (k == 2 * p + 1 || k == 2 * p + 2)
    ensures Start(n, k) + Size(n, k) <= n
  {
    hide Start;
    StartChildren(n, p);
  }

  /** Every position below a node belongs to some node. */
  lemma {:induction false} NodeOf(n: nat, k: nat, p: nat) returns (j: nat)
    requires Start(n, k) <= p < Start(n, k) + Size(n, k)
    ensures j < n && InPos(n, j) == p
    decreases if k < n then n - k else 0
  {
    StartChildren(n, k);
    hide Start;
    if p == InPos(n, k) {
      j := k;
    } else {
      j := NodeOf(n, if p < InPos(n, k) then 2 * k + 1 else 2 * k + 2, p);
    }
  }

  function TrailingZeros(i: nat): nat
    requires i > 0
  {
    if i % 2 == 1 then 0 else 1 + TrailingZeros(i / 2)
  }

  /** Shifting out the trailing zeros and one more digit undoes a right turn followed by left turns. */
  lemma {:induction false} UndoTurns(i: nat, m: nat, z: nat)
    requires i == (2 * m + 1) * Pow2(z)
    ensures i > 0 && i / Pow2(TrailingZeros(i) + 1) == m
  {
    if z == 0 {
      assert i % 2 == 1 && Pow2(1) == 2;
    } else {
      var h := (2 * m + 1) * Pow2(z - 1);
      TwiceProduct(2 * m + 1, Pow2(z - 1));
      ProductPositive(2 * m + 1, Pow2(z - 1));
      UndoTurns(h, m, z - 1);
      UndoLeft(h, m);
    }
  }

  lemma UndoLeft(h: nat, m: nat)
    requires h > 0 && h / Pow2(TrailingZeros(h) + 1) == m
    ensures (2 * h) / Pow2(TrailingZeros(2 * h) + 1) == m
  {
    assert TrailingZeros(2 * h) == 1 + TrailingZeros(h);
    assert Pow2(TrailingZeros(2 * h) + 1) == 2 * Pow2(TrailingZeros(h) + 1);
    DoubleShift(h, Pow2(TrailingZeros(h) + 1));
  }

  lemma DoubleShift(h: nat, d: nat)
    requires d > 0
    ensures (2 * h) / (2 * d) == h / d
  {
    assert h == h / d * d + h % d;
    assert 2 * h == h / d * (2 * d) + 2 * (h % d);
    DivModUnique(2 * h, 2 * d, h / d, 2 * (h % d));
  }
}
