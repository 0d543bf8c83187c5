/** What the interpreter's instructions compute, in terms of the numbers and bits of their operands. */
module InstructionLaws {
  import opened Words
  import opened Bits
  import opened BitLaws
  import opened Ebpf
  import opened Alu
  import opened Faults
  import opened Interpreter

  /** The number that the second operand stands for */
  function Second(insn: Insn, reg: bool, d: Registers): int
    requires NamesRegisters(insn)
  {
    if reg then d[insn.src] else insn.imm
  }

  function Width(wide: bool): nat { if wide then 64 else 32 }

  function Modulus(wide: bool): int { if wide then TWO64 else TWO32 }

  lemma OperandIs(insn: Insn, reg: bool, d: Registers)
    requires NamesRegisters(insn)
    ensures Operand(insn, reg, d) == Second(insn, reg, d) % TWO64
    ensures Low32(Operand(insn, reg, d)) == Second(insn, reg, d) % TWO32
  {
    assert TWO32 * TWO32 == TWO64;
    ModOfMod(Second(insn, reg, d), TWO32, TWO32);
  }

  // ----- sums, differences and products -----

  /** The 64-bit number that `x` leaves */
  ghost predicate Is64(c: Computed, x: int) { c == Value(x % TWO64) }

  /** A number with the low half that `x` leaves, sign-extended before version 2 and zero-extended in it */
  ghost predicate Is32(v: Version, c: Computed, x: int) {
    && c.Value? && c.value % TWO32 == x % TWO32
    && if v.ExplicitSignExtensionOfResults() then c.value < TWO32 else -TWO31 <= Signed64(c.value) < TWO31
  }

  lemma SumLaws(v: Version, reg: bool, insn: Insn, d: Registers)
    requires NamesRegisters(insn)
    ensures Is64(Compute(v, Alu(Add, true, reg), insn, d), d[insn.dst] + Second(insn, reg, d))
    ensures Is32(v, Compute(v, Alu(Add, false, reg), insn, d), d[insn.dst] + Second(insn, reg, d))
  {
    hide SignExtension, Is32;
    var a, b := d[insn.dst], Second(insn, reg, d);
    OperandIs(insn, reg, d);
    ModAdd(b, a, TWO64);
    NarrowSum(v, a, b);
  }

  lemma NarrowSum(v: Version, x: int, y: int)
    ensures Is32(v, Value(SignExtension(v, Wrap32(x % TWO32 + y % TWO32))), x + y)
  {
    hide SignExtension;
    ModAdd(x, y % TWO32, TWO32);
    ModAdd(y, x, TWO32);
    Extended(v, Wrap32(x + y));
  }

  /** Subtracts the second operand, except that version 2 subtracts from an immediate. */
  lemma DifferenceLaws(v: Version, reg: bool, insn: Insn, d: Registers)
    requires NamesRegisters(insn)
    ensures var a, b := d[insn.dst], Second(insn, reg, d);
      var x := if v == V2 && !reg then b - a else a - b;
      && Is64(Compute(v, Alu(Sub, true, reg), insn, d), x)
      && Is32(v, Compute(v, Alu(Sub, false, reg), insn, d), x)
  {
    hide SignExtension, Is32;
    var a, b := d[insn.dst], Second(insn, reg, d);
    OperandIs(insn, reg, d);
    SmallMod(a, TWO64);
    if v == V2 && !reg {
      ModSub(b, a, TWO64);
      NarrowDifference(v, b, a);
    } else {
      ModSub(a, b, TWO64);
      NarrowDifference(v, a, b);
    }
  }

  lemma NarrowDifference(v: Version, x: int, y: int)
    ensures Is32(v, Value(SignExtension(v, Wrap32(x % TWO32 - y % TWO32))), x - y)
  {
    hide SignExtension;
    ModSub(x, y, TWO32);
    Extended(v, Wrap32(x - y));
  }

  lemma ProductLaws(v: Version, reg: bool, insn: Insn, d: Registers)
    requires NamesRegisters(insn)
    ensures Is64(Compute(v, Alu(Mul, true, reg), insn, d), d[insn.dst] * Second(insn, reg, d))
    ensures Is32(v, Compute(v, Alu(Mul, false, reg), insn, d), d[insn.dst] * Second(insn, reg, d))
  {
    hide SignExtension, Is32;
    var a, b := d[insn.dst], Second(insn, reg, d);
    OperandIs(insn, reg, d);
    SmallMod(a, TWO64);
    ModMul(a, b, TWO64);
    NarrowProduct(v, a, b);
  }

  lemma NarrowProduct(v: Version, x: int, y: int)
    ensures Is32(v, Value(SignExtension(v, Wrap32((x % TWO32) * (y % TWO32)))), x * y)
  {
    hide SignExtension;
    ModMul(x, y, TWO32);
    Extended(v, Wrap32(x * y));
  }

  lemma ModSub(x: int, y: int, n: int)
    requires n > 0
    ensures (x % n - y % n) % n == (x - y) % n
  {
    var q, r := x / n - y / n, x % n - y % n;
    assert x - y == q * n + r;
    ModAdd(q * n, r, n);
    DivModUnique(q * n, n, q, 0);
  }

  lemma ModMul(x: int, y: int, n: int)
    requires n > 0
    ensures ((x % n) * (y % n)) % n == (x * y) % n
  {
    var p, a, q, b := x / n, x % n, y / n, y % n;
    var m := p * y + a * q;
    calc {
      x * y;
      (p * n + a) * y;
      p * n * y + a * (q * n + b);
      { assert p * n * y == p * y * n && a * (q * n) == a * q * n; }
      m * n + a * b;
    }
    ModAdd(m * n, a * b, n);
    DivModUnique(m * n, n, m, 0);
  }

  lemma Extended(v: Version, r: u32)
    ensures Is32(v, Value(SignExtension(v, r)), r)
  {
    if r >= TWO31 {
      DivModUnique(r - TWO32, TWO64, -1, r - TWO32 + TWO64);
      DivModUnique(r - TWO32 + TWO64, TWO32, TWO32 - 1, r);
    }
  }

  // ----- quotients and remainders -----

  lemma QuotientLaws(v: Version, wide: bool, reg: bool, insn: Insn, d: Registers)
    requires NamesRegisters(insn)
    ensures var a, b := d[insn.dst] % Modulus(wide), Second(insn, reg, d) % Modulus(wide);
      var q, r := Compute(v, Alu(Div, wide, reg), insn, d), Compute(v, Alu(Mod, wide, reg), insn, d);
      if b == 0 then q == r == Fault(if reg then DivideByZero else HostPanic)
      else q.Value? && r.Value? && a == q.value * b + r.value && r.value < b
  {
    hide Compute, Modulus;
    DivisionIs(v, wide, reg, insn, d);
    ModulusPositive(wide);
    var a, b := d[insn.dst] % Modulus(wide), Second(insn, reg, d) % Modulus(wide);
    if b != 0 {
      Divided(a, b);
    }
  }

  lemma ModulusPositive(wide: bool)
    ensures Modulus(wide) > 0
  {
  }

  lemma DivisionIs(v: Version, wide: bool, reg: bool, insn: Insn, d: Registers)
    requires NamesRegisters(insn)
    ensures var a, b := d[insn.dst] % Modulus(wide), Second(insn, reg, d) % Modulus(wide);
      var q, r := Compute(v, Alu(Div, wide, reg), insn, d), Compute(v, Alu(Mod, wide, reg), insn, d);
      if b == 0 then q == r == Fault(if reg then DivideByZero else HostPanic)
      else q.Value? && r.Value? && q.value == a / b && r.value == a % b
  {
    OperandIs(insn, reg, d);
    SmallMod(d[insn.dst], TWO64);
    var a, b := d[insn.dst] % Modulus(wide), Second(insn, reg, d) % Modulus(wide);
    if b != 0 {
      SmallQuotient(a, b);
    }
  }

  // ----- bits -----

  ghost predicate BitIs(c: Computed, k: nat, on: bool) { c.Value? && (Bit(c.value, k) <==> on) }

  lemma BitwiseLaws(v: Version, wide: bool, reg: bool, insn: Insn, d: Registers, k: nat)
    requires NamesRegisters(insn) && k < 64
    ensures var a, b := Bit(d[insn.dst], k), Bit(Second(insn, reg, d) % TWO64, k);
      && BitIs(Compute(v, Alu(BitOr, wide, reg), insn, d), k, k < Width(wide) && (a || b))
      && BitIs(Compute(v, Alu(BitAnd, wide, reg), insn, d), k, k < Width(wide) && a && b)
      && BitIs(Compute(v, Alu(BitXor, wide, reg), insn, d), k, k < Width(wide) && a != b)
  {
    hide And, Or, Xor, Bit, Pow2;
    var a, b := d[insn.dst], Operand(insn, reg, d);
    OperandIs(insn, reg, d);
    Pow2Values();
    if wide {
      OrBit(a, b, k);
      AndBit(a, b, k);
      XorBit(a, b, k);
    } else {
      var x, y := Low32(a), Low32(b);
      LowBits(a, 32, k);
      LowBits(b, 32, k);
      OrBit(x, y, k);
      AndBit(x, y, k);
      XorBit(x, y, k);
      LowBits(Or64(x, y), 32, k);
      LowBits(Xor64(x, y), 32, k);
    }
  }

  /** The count is taken modulo the width; bits that are shifted out are lost, and zeros come in. */
  lemma ShiftLaws(v: Version, wide: bool, reg: bool, insn: Insn, d: Registers, k: nat)
    requires NamesRegisters(insn) && k < 64
    ensures var a, n, w := d[insn.dst], Second(insn, reg, d) % Width(wide), Width(wide);
      && BitIs(Compute(v, Alu(Lsh, wide, reg), insn, d), k, n <= k < w && Bit(a, k - n))
      && BitIs(Compute(v, Alu(Rsh, wide, reg), insn, d), k, k + n < w && Bit(a, k + n))
  {
    hide Bit, Pow2, Compute, Width;
    ShiftIs(v, wide, reg, insn, d);
    var a, n, w := d[insn.dst], Second(insn, reg, d) % Width(wide), Width(wide);
    var x := a % Pow2(w);
    UpBits(x, n, k);
    LowBits(x * Pow2(n), w, k);
    HighBits(x, n, k, Shift(x, n));
    LowBits(a, w, k + n);
    if k >= n {
      LowBits(a, w, k - n);
    }
  }

  lemma ShiftIs(v: Version, wide: bool, reg: bool, insn: Insn, d: Registers)
    requires NamesRegisters(insn)
    ensures Width(wide) > 0
    ensures var x, n, w := d[insn.dst] % Pow2(Width(wide)), Second(insn, reg, d) % Width(wide), Width(wide);
      var l, r := Compute(v, Alu(Lsh, wide, reg), insn, d), Compute(v, Alu(Rsh, wide, reg), insn, d);
      l.Value? && l.value == x * Pow2(n) % Pow2(w) && r.Value? && r.value == Shift(x, n)
  {
    hide Pow2, Shift;
    CountIs(wide, reg, insn, d);
    Pow2Values();
    SmallMod(d[insn.dst], TWO64);
  }

  lemma CountIs(wide: bool, reg: bool, insn: Insn, d: Registers)
    requires NamesRegisters(insn)
    ensures (if wide then Operand(insn, reg, d) else Low32(Operand(insn, reg, d))) % Width(wide) ==
            Second(insn, reg, d) % Width(wide)
  {
    OperandIs(insn, reg, d);
    var b := Second(insn, reg, d);
    ModOfMod(b, 64, TWO64 / 64);
    ModOfMod(b, 32, TWO32 / 32);
  }

  function SignedAt(wide: bool, x: u64): int { if wide then Signed64(x) else Signed32(Low32(x)) }

  /** The arithmetic shift divides the signed number by a power of two and rounds down. */
  lemma ArithmeticShiftLaw(v: Version, wide: bool, reg: bool, insn: Insn, d: Registers)
    requires NamesRegisters(insn)
    ensures var a, p := SignedAt(wide, d[insn.dst]), Pow2(Second(insn, reg, d) % Width(wide));
      var c := Compute(v, Alu(Arsh, wide, reg), insn, d);
      && c.Value? && c.value < Modulus(wide)
      && SignedAt(wide, c.value) * p <= a < (SignedAt(wide, c.value) + 1) * p
  {
    hide Pow2, Compute, SignedAt, Modulus;
    ArithmeticShiftIs(v, wide, reg, insn, d);
    var a, p := SignedAt(wide, d[insn.dst]), Pow2(Second(insn, reg, d) % Width(wide));
    RoundedDown(a, p);
    SmallerQuotient(a, p);
    SignedBound(wide, d[insn.dst]);
    SignedBack(wide, a / p);
  }

  lemma ArithmeticShiftIs(v: Version, wide: bool, reg: bool, insn: Insn, d: Registers)
    requires NamesRegisters(insn)
    ensures var a, p := SignedAt(wide, d[insn.dst]), Pow2(Second(insn, reg, d) % Width(wide));
      && 0 <= a / p % Modulus(wide) < Modulus(wide) <= TWO64
      && Compute(v, Alu(Arsh, wide, reg), insn, d) == Value(a / p % Modulus(wide))
  {
    hide Pow2;
    CountIs(wide, reg, insn, d);
  }

  lemma RoundedDown(a: int, p: nat)
    requires p >= 1
    ensures (a / p) * p <= a < (a / p + 1) * p
  {
    assert a == a / p * p + a % p;
  }

  lemma SignedBound(wide: bool, x: u64)
    ensures -Modulus(wide) / 2 <= SignedAt(wide, x) < Modulus(wide) / 2
  {
  }

  lemma SmallerQuotient(a: int, p: nat)
    requires p >= 1
    ensures (if a < 0 then a else 0) <= a / p <= (if a < 0 then 0 else a)
  {
    var q, r := a / p, a % p;
    assert a == q * p + r && 0 <= r < p;
    if q >= 0 {
      Grows(q, p);
    } else {
      Grows(-(q + 1), p);
      NegatedProduct(q + 1, p);
    }
  }

  lemma NegatedProduct(x: int, p: nat)
    ensures (-x) * p == -(x * p) == -((x - 1) * p) - p
  {
  }

  lemma SignedBack(wide: bool, q: int)
    requires -Modulus(wide) / 2 <= q < Modulus(wide) / 2
    ensures SignedAt(wide, q % Modulus(wide)) == q
  {
  }

  // ----- moves, negation and bytes -----

  lemma MoveLaws(v: Version, reg: bool, insn: Insn, d: Registers)
    requires NamesRegisters(insn)
    ensures Is64(Compute(v, Alu(Mov, true, reg), insn, d), Second(insn, reg, d))
    ensures var c := Compute(v, Alu(Mov, false, reg), insn, d);
      && c.Value? && c.value % TWO32 == Second(insn, reg, d) % TWO32
      && if reg && v == V2 then -TWO31 <= Signed64(c.value) < TWO31 else c.value < TWO32
  {
    OperandIs(insn, reg, d);
  }

  lemma NegationLaws(v: Version, wide: bool, insn: Insn, d: Registers)
    requires NamesRegisters(insn)
    ensures var c := Compute(v, Neg(wide), insn, d);
      c.Value? && c.value < Modulus(wide) && (c.value + d[insn.dst]) % Modulus(wide) == 0
  {
    var a := d[insn.dst];
    if wide {
      Negated(a, TWO64);
    } else {
      Negated(Low32(a), TWO32);
      ModAdd(a, Alu.Neg(false, a), TWO32);
    }
  }

  lemma Negated(a: nat, n: nat)
    requires a < n
    ensures ((n - a) % n + a) % n == 0
  {
    ModAdd(n - a, a, n);
  }

  /** Sets bits of the upper half. */
  lemma HighOrLaw(v: Version, insn: Insn, d: Registers, k: nat)
    requires NamesRegisters(insn) && k < 64
    ensures BitIs(Compute(v, HighOr, insn, d), k, Bit(d[insn.dst], k) || (k >= 32 && Bit(insn.imm % TWO64, k - 32)))
  {
    hide Or, Bit, Pow2;
    Pow2Values();
    var b := insn.imm % TWO64;
    OrBit(d[insn.dst], Shl64(b, 32), k);
    UpBits(b, 32, k);
    LowBits(b * Pow2(32), 64, k);
  }

  function Byte(x: nat, k: nat): nat { x / Pow2(8 * k) % 256 }

  lemma ByteStep(x: nat, k: nat)
    ensures Byte(x, 0) == x % 256
    ensures Byte(x, k + 1) == Byte(x / 256, k)
  {
    Pow2Values();
    Pow2Add(8, 8 * k);
    DivOfDiv(x, 256, Pow2(8 * k));
    assert Pow2(0) == 1;
    hide Pow2;
    assert 8 * (k + 1) == 8 + 8 * k;
  }

  lemma BytePower(n: nat)
    requires n > 0
    ensures Pow2(8 * n) == 256 * Pow2(8 * (n - 1))
  {
    hide Pow2;
    Pow2Values();
    Pow2Add(8, 8 * (n - 1));
  }

  /** A number's bytes above its length are zero. */
  lemma {:induction false} BytesEnd(x: nat, n: nat, k: nat)
    requires x < Pow2(8 * n) && n <= k
    ensures Byte(x, k) == 0
  {
    var p := Pow2(8 * n);
    Pow2Add(8 * n, 8 * (k - n));
    AtLeastOnce(Pow2(8 * (k - n)), p);
    SmallDiv(x, Pow2(8 * k));
  }

  lemma SmallDiv(x: nat, m: nat)
    requires x < m
    ensures x / m == 0
  {
  }

  lemma {:induction false} LowBytes(x: nat, n: nat, k: nat)
    ensures Byte(x % Pow2(8 * n), k) == if k < n then Byte(x, k) else 0
  {
    hide Pow2, Byte;
    var r := x % Pow2(8 * n);
    if n <= k {
      BytesEnd(r, n, k);
    } else {
      BytePower(n);
      SplitMod(x, 256, Pow2(8 * (n - 1)));
      var j := if k > 0 then k - 1 else 0;
      ByteStep(x, j);
      ByteStep(r, j);
      if k > 0 {
        LowBytes(x / 256, n - 1, k - 1);
      }
    }
  }

  /** The remainder by a product, digit by digit */
  lemma SplitMod(x: nat, a: nat, b: nat)
    requires a > 0 && b > 0
    ensures a * b > 0 && x % (a * b) % a == x % a && x % (a * b) / a == x / a % b
  {
    ModOfMod(x, a, b);
    MiddleDigits(x, a, b);
    var r := x % (a * b);
    Divided(r, a);
    DivModUnique(r - r % a, a, r / a, 0);
  }

  lemma {:induction false} ReversedBound(x: nat, n: nat)
    ensures Reversed(x, n) < Pow2(8 * n)
  {
    hide Pow2;
    if n > 0 {
      ReversedBound(x / 256, n - 1);
      BytePower(n);
      AtMost(x % 256, 255, Pow2(8 * (n - 1)));
    }
  }

  /** The bytes stand in the opposite order. */
  lemma {:induction false} ReversedBytes(x: nat, n: nat, k: nat)
    requires k < n
    ensures Byte(Reversed(x, n), k) == Byte(x, n - 1 - k)
  {
    hide Byte, Pow2;
    var low := Reversed(x / 256, n - 1);
    ReversedBound(x / 256, n - 1);
    if k == n - 1 {
      TopByte(x % 256, low, n - 1);
      ByteStep(x, 0);
    } else {
      AboveBytes(x % 256, low, n - 1, k);
      ReversedBytes(x / 256, n - 1, k);
      ByteStep(x, n - 2 - k);
    }
  }

  lemma TopByte(h: nat, low: nat, m: nat)
    requires low < Pow2(8 * m) && h < 256
    ensures Byte(h * Pow2(8 * m) + low, m) == h
  {
    DivModUnique(h * Pow2(8 * m) + low, Pow2(8 * m), h, low);
  }

  lemma AboveBytes(h: nat, low: nat, m: nat, k: nat)
    requires low < Pow2(8 * m) && k < m
    ensures Byte(h * Pow2(8 * m) + low, k) == Byte(low, k)
  {
    hide Byte, Pow2;
    var p := Pow2(8 * m);
    LowBytes(h * p + low, m, k);
    DivModUnique(h * p + low, p, h, low);
  }

  /** Byte orders: bytes up to the given width are kept or reversed, those above are cleared, and there are
      three widths. */
  lemma ByteOrderLaws(v: Version, insn: Insn, d: Registers, k: nat)
    requires NamesRegisters(insn) && k < 8
    ensures var le, be := Compute(v, LittleEndian, insn, d), Compute(v, BigEndian, insn, d);
      if insn.imm in {16, 32, 64} then
        var n := insn.imm / 8;
        && le.Value? && Byte(le.value, k) == (if k < n then Byte(d[insn.dst], k) else 0)
        && be.Value? && Byte(be.value, k) == (if k < n then Byte(d[insn.dst], n - 1 - k) else 0)
      else le == be == Fault(InvalidInstruction)
  {
    hide Byte, Pow2, Reversed;
    if insn.imm in {16, 32, 64} {
      var n: nat := insn.imm / 8;
      Pow2Values();
      LowBytes(d[insn.dst], n, k);
      SmallMod(d[insn.dst], TWO64);
      ReversedBound(d[insn.dst], n);
      SmallMod(Reversed(d[insn.dst], n), TWO64);
      if k < n {
        ReversedBytes(d[insn.dst], n, k);
      } else {
        BytesEnd(Reversed(d[insn.dst], n), n, k);
      }
    }
  }
}
