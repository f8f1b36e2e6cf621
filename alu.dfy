/** What the arithmetic, logic and condition instructions compute, stated
    on W-bit words and connected to the stack-value computations of
    Semantics (Instructions.cs lines 251-361 and 399-562). */
module Alu {
  import opened Wrappers
  import opened Words
  import opened Directives
  import opened Semantics

  // ---------------------------------------------------------------------
  // Modular arithmetic on the low W bits

  /** x is its low n bits plus a multiple of 2^n. */
  lemma Split(n: nat, x: int)
    ensures x == Trunc(n, x) + (x / Pow2(n)) * Pow2(n)
  {
  }

  /** Reducing a sum modulo p. */
  lemma ModSum(a: int, b: int, p: int)
    requires p > 0
    ensures (a + b) % p == (a % p + b % p) % p
  {
    var s := a % p + b % p;
    assert a == (a / p) * p + a % p && b == (b / p) * p + b % p;
    assert s == (s / p) * p + s % p;
    assert a + b == (a / p + b / p + s / p) * p + s % p;
    ModUnique(a + b, p, a / p + b / p + s / p, s % p);
  }

  /** Reducing a difference modulo p. */
  lemma ModDifference(a: int, b: int, p: int)
    requires p > 0
    ensures (a - b) % p == (a % p - b % p) % p
  {
    var d := a % p - b % p;
    assert a == (a / p) * p + a % p && b == (b / p) * p + b % p;
    assert d == (d / p) * p + d % p;
    assert a - b == (a / p - b / p + d / p) * p + d % p;
    ModUnique(a - b, p, a / p - b / p + d / p, d % p);
  }

  /** The low n bits of a sum depend only on the low n bits of the terms. */
  lemma TruncSum(n: nat, a: int, b: int)
    ensures Trunc(n, a + b) == Trunc(n, Trunc(n, a) + Trunc(n, b))
  {
    ModSum(a, b, Pow2(n));
  }

  /** The low n bits of a difference depend only on the low n bits of the
      terms. */
  lemma TruncDifference(n: nat, a: int, b: int)
    ensures Trunc(n, a - b) == Trunc(n, Trunc(n, a) - Trunc(n, b))
  {
    ModDifference(a, b, Pow2(n));
  }

  /** (x + qa p)(y + qb p) is x y plus a multiple of p. */
  lemma ProductSplit(x: int, y: int, qa: int, qb: int, p: int)
    ensures (x + qa * p) * (y + qb * p) == x * y + (qa * y + qb * x + qa * qb * p) * p
  {
    calc {
      (x + qa * p) * (y + qb * p);
      x * y + x * (qb * p) + (qa * p) * y + (qa * p) * (qb * p);
      { assert x * (qb * p) == (qb * x) * p;
        assert (qa * p) * y == (qa * y) * p;
        assert (qa * p) * (qb * p) == (qa * qb * p) * p; }
      x * y + (qb * x) * p + (qa * y) * p + (qa * qb * p) * p;
    }
  }

  /** The low n bits of a product depend only on the low n bits of the
      factors. */
  lemma TruncProduct(n: nat, a: int, b: int)
    ensures Trunc(n, a * b) == Trunc(n, Trunc(n, a) * Trunc(n, b))
  {
    var p := Pow2(n);
    var x, y := Trunc(n, a), Trunc(n, b);
    var qa, qb := a / p, b / p;
    Split(n, a);
    Split(n, b);
    ProductSplit(x, y, qa, qb, p);
    TruncAddMultiple(n, x * y, qa * y + qb * x + qa * qb * p);
  }

  /** Negation modulo 2^n. */
  lemma TruncNegation(n: nat, a: int)
    ensures Trunc(n, -a) == Trunc(n, -(Trunc(n, a) as int))
  {
    TruncDifference(n, 0, a);
    TruncSmall(n, 0);
  }

  // ---------------------------------------------------------------------
  // The word-level reference

  /** The two-source operations that are arithmetic modulo 2^W or bitwise. */
  predicate Modular(op: Op) {
    op in {ADD, SUB, MLT, OR, NOR, AND, NAND, XOR, XNOR}
  }

  /** The word an arithmetic or logic instruction is meant to store, given
      the words x and y its sources hold: the sum, difference or product
      modulo 2^W, or the W-bit bitwise operation, complemented for NOR,
      NAND and XNOR. */
  function WordResult(op: Op, w: nat, x: nat, y: nat): (r: nat)
    requires Modular(op)
    ensures r < Pow2(w)
  {
    match op
    case ADD => Trunc(w, x + y)
    case SUB => Trunc(w, x - y)
    case MLT => Trunc(w, x * y)
    case OR => Bitwise(OrOp, x, y, w)
    case AND => Bitwise(AndOp, x, y, w)
    case XOR => Bitwise(XorOp, x, y, w)
    case NOR => Complement(Bitwise(OrOp, x, y, w), w)
    case NAND => Complement(Bitwise(AndOp, x, y, w), w)
    case XNOR => Complement(Bitwise(XorOp, x, y, w), w)
  }

  /** The one-source operations that are arithmetic modulo 2^W or bitwise. */
  predicate ModularUnary(op: Op) {
    op in {INC, DEC, NEG, NOT, LSH}
  }

  /** The word INC, DEC, NEG, NOT and LSH are meant to store for source
      word x. */
  function UnaryWord(op: Op, w: nat, x: nat): (r: nat)
    requires ModularUnary(op)
  {
    match op
    case INC => Trunc(w, x + 1)
    case DEC => Trunc(w, x - 1)
    case NEG => Trunc(w, -(x as int))
    case NOT => Complement(x, w)
    case LSH => Trunc(w, x * 2)
  }

  /** ADD, SUB, MLT and the bitwise operations: the word stored is the
      word-level result on the low W bits of the two stack values, however
      those values were widened (zero-extended from a register,
      sign-extended from a byte immediate or a memory cell). */
  lemma BinaryStoresWord(op: Op, w: nat, a: nat, b: nat)
    requires Supported(w) && Modular(op)
    ensures BinaryResult(op, w, a, b).Ok?
    ensures Trunc(w, BinaryResult(op, w, a, b).value) == WordResult(op, w, Trunc(w, a), Trunc(w, b))
  {
    var n := StackBits(w);
    assert w <= n;
    var v := BinaryResult(op, w, a, b).value;
    match op
    case ADD =>
      TruncTrunc(w, n, a + b);
      TruncSum(w, a, b);
    case SUB =>
      TruncTrunc(w, n, a - b);
      TruncDifference(w, a, b);
    case MLT =>
      TruncTrunc(w, n, a * b);
      TruncProduct(w, a, b);
    case OR => BitwiseTrunc(OrOp, a, b, w, n);
    case AND => BitwiseTrunc(AndOp, a, b, w, n);
    case XOR => BitwiseTrunc(XorOp, a, b, w, n);
    case NOR =>
      ComplementTrunc(Bitwise(OrOp, a, b, n), w, n);
      BitwiseTrunc(OrOp, a, b, w, n);
    case NAND =>
      ComplementTrunc(Bitwise(AndOp, a, b, n), w, n);
      BitwiseTrunc(AndOp, a, b, w, n);
    case XNOR =>
      ComplementTrunc(Bitwise(XorOp, a, b, n), w, n);
      BitwiseTrunc(XorOp, a, b, w, n);
  }

  /** INC, DEC, NEG, NOT and LSH: the word stored is the word-level result
      on the low W bits of the stack value. */
  lemma UnaryStoresWord(op: Op, w: nat, a: nat)
    requires Supported(w) && ModularUnary(op)
    ensures Trunc(w, UnaryResult(op, w, a)) == UnaryWord(op, w, Trunc(w, a))
  {
    var n := StackBits(w);
    assert w <= n;
    Pow2Monotone(0, n);
    TruncSmall(n, 1);
    TruncSmall(w, 1);
    match op
    case INC =>
      TruncTrunc(w, n, a + 1);
      TruncSum(w, a, 1);
    case DEC =>
      TruncTrunc(w, n, a - 1);
      TruncDifference(w, a, 1);
    case NEG =>
      TruncTrunc(w, n, -(a as int));
      TruncNegation(w, a);
    case NOT => ComplementTrunc(a, w, n);
    case LSH =>
      TruncTrunc(w, n, a * 2);
      TruncProduct(w, a, 2);
      TruncSmall(w, 2);
      Pow2Monotone(2, w);
  }

  /** DIV and MOD on two words held in registers, which load zero-extended,
      are the unsigned quotient and remainder. */
  lemma DivisionOfWords(w: nat, x: nat, y: nat)
    requires Supported(w) && x < Pow2(w) && 0 < y < Pow2(w)
    ensures BinaryResult(DIV, w, x, y) == Ok(x / y) && Trunc(w, x / y) == x / y
    ensures BinaryResult(MOD, w, x, y) == Ok(x % y) && Trunc(w, x % y) == x % y
  {
    QuotientBound(x, y);
    TruncSmall(w, x / y);
    TruncSmall(w, x % y);
  }

  /** A byte immediate of 128 or more loads sign-extended, so at W = 8
      "DIV $1 200 2" stores 228, not 100. */
  lemma ByteDivisionSignExtends()
    ensures var a, b := StackImmediate(8, 200), StackImmediate(8, 2);
      BinaryResult(DIV, 8, a, b) == Ok(2147483620) && Trunc(8, 2147483620) == 228
  {
    assert Pow2(8) == 256 && Pow2(7) == 128 && Pow2(32) == 0x1_0000_0000;
    TruncSmall(8, 200);
    TruncSmall(8, 2);
    TruncSmall(32, 4294967240);
    TruncSmall(32, 2);
    assert StackImmediate(8, 200) == SignExtend(200, 8, 32) == 4294967240;
    assert StackImmediate(8, 2) == SignExtend(2, 8, 32) == 2;
  }

  // ---------------------------------------------------------------------
  // Shifts

  /** A count below the stack width reads back unchanged through conv.i. */
  lemma CountFits(w: nat, c: nat)
    requires Supported(w) && c < StackBits(w)
    ensures ToNative(w, c) == c
  {
    Pow2Monotone(6, StackBits(w) - 1);
    assert Pow2(6) == 64;
  }

  /** A shift by a count below the stack width succeeds with the shifted
      stack value. */
  lemma ShiftBy(op: Op, w: nat, a: nat, c: nat)
    requires op in {BSR, BSS, BSL} && Supported(w) && c < StackBits(w)
    ensures BinaryResult(op, w, a, c) == Ok(Shifted(op, StackBits(w), a, c))
  {
    CountFits(w, c);
    assert BinaryResult(op, w, a, c) == ShiftResult(op, w, a, c);
  }

  /** A register word loads zero-extended, so BSR of it is the unsigned
      quotient x / 2^c, itself a word; RSH is BSR by 1. */
  lemma ShiftRightOfWords(w: nat, x: nat, c: nat)
    requires Supported(w) && x < Pow2(w) && c < StackBits(w)
    ensures BinaryResult(BSR, w, x, c) == Ok(x / Pow2(c)) && x / Pow2(c) < Pow2(w)
    ensures UnaryResult(RSH, w, x) == BinaryResult(BSR, w, x, 1).value
  {
    ShiftBy(BSR, w, x, c);
    ShiftBy(BSR, w, x, 1);
    QuotientBound(x, Pow2(c));
    assert Pow2(1) == 2;
  }

  /** BSL stores the low W bits of x * 2^c; LSH is BSL by 1. */
  lemma ShiftLeftOfWords(w: nat, x: nat, c: nat)
    requires Supported(w) && c < StackBits(w)
    ensures BinaryResult(BSL, w, x, c) == Ok(Trunc(StackBits(w), x * Pow2(c)))
    ensures Trunc(w, BinaryResult(BSL, w, x, c).value) == Trunc(w, x * Pow2(c))
    ensures UnaryResult(LSH, w, x) == BinaryResult(BSL, w, x, 1).value
  {
    var n := StackBits(w);
    ShiftBy(BSL, w, x, c);
    ShiftBy(BSL, w, x, 1);
    assert Shifted(BSL, n, x, c) == Trunc(n, x * Pow2(c));
    TruncTrunc(w, n, x * Pow2(c));
    assert Pow2(1) == 2;
    assert Shifted(BSL, n, x, 1) == Trunc(n, x * 2);
  }

  /** At W = 8 and 16 a register word is zero-extended into a 32-bit stack
      value whose sign bit is clear, so BSS and SRS shift it logically: a
      word with its top bit set loses its sign. */
  lemma NarrowSignedShiftIsLogical(w: nat, x: nat, c: nat)
    requires (w == 8 || w == 16) && x < Pow2(w) && c < 32
    ensures BinaryResult(BSS, w, x, c) == Ok(x / Pow2(c))
    ensures UnaryResult(SRS, w, x) == x / 2
  {
    ShiftBy(BSS, w, x, c);
    Pow2Monotone(w, 31);
    NarrowShiftStep(x, Pow2(c));
    NarrowShiftStep(x, 2);
    assert Shifted(BSS, 32, x, c) == Trunc(32, Signed(32, x) / Pow2(c));
  }

  lemma NarrowShiftStep(x: nat, p: int)
    requires x < Pow2(31) && p >= 1
    ensures Trunc(32, Signed(32, x) / p) == x / p
  {
    assert Signed(32, x) == x;
    QuotientBound(x, p);
    Pow2Monotone(31, 32);
    TruncSmall(32, x / p);
  }

  /** At W = 8, SRS of the word 128 (the signed byte -128) stores 64, where
      an arithmetic shift of the byte would give 192 (the signed byte -64). */
  lemma ByteShiftLosesSign()
    ensures UnaryResult(SRS, 8, 128) == 64
    ensures Trunc(8, Signed(8, 128) / 2) == 192
  {
    assert Pow2(7) == 128 && Pow2(8) == 256;
    NarrowSignedShiftIsLogical(8, 128, 0);
    assert Signed(8, 128) == -128;
    TruncAddMultiple(8, 192, -1);
    TruncSmall(8, 192);
  }

  /** At W = 32 and 64 the stack value is the word itself and BSS and SRS
      are arithmetic shifts: the signed result is the floor of the signed
      source over 2^c. */
  lemma WideSignedShift(w: nat, x: nat, c: nat)
    requires (w == 32 || w == 64) && x < Pow2(w) && c < w
    ensures BinaryResult(BSS, w, x, c).Ok?
    ensures Signed(w, BinaryResult(BSS, w, x, c).value) == Signed(w, x) / Pow2(c)
    ensures Signed(w, UnaryResult(SRS, w, x)) == Signed(w, x) / 2
  {
    assert StackBits(w) == w;
    ShiftBy(BSS, w, x, c);
    var s := Signed(w, x);
    assert Shifted(BSS, w, x, c) == Trunc(w, s / Pow2(c));
    assert UnaryResult(SRS, w, x) == Trunc(w, s / 2);
    WideShiftStep(w, s, Pow2(c));
    WideShiftStep(w, s, 2);
  }

  lemma WideShiftStep(w: nat, s: int, p: int)
    requires w >= 1 && p >= 1 && -(Pow2(w - 1) as int) <= s < Pow2(w - 1)
    ensures Signed(w, Trunc(w, s / p)) == s / p
  {
    FloorDivBounds(s, p, Pow2(w - 1));
    SignedOfTrunc(w, s / p);
  }

  // ---------------------------------------------------------------------
  // Conditions

  /** The branch and SET instructions whose conditions are opposite. */
  function Opposite(op: Op): Op {
    match op
    case BRE => BNE case BNE => BRE
    case BRG => BLE case BLE => BRG
    case BRL => BGE case BGE => BRL
    case BRC => BNC case BNC => BRC
    case BRZ => BNZ case BNZ => BRZ
    case BEV => BOD case BOD => BEV
    case BRP => BRN case BRN => BRP
    case SETE => SETNE case SETNE => SETE
    case SETLT => SETGE case SETGE => SETLT
    case SETGT => SETLE case SETLE => SETGT
    case SETC => SETNC case SETNC => SETC
    case _ => op
  }

  predicate IsCompare(op: Op) {
    op in {BRE, BNE, BRG, BGE, BRL, BLE, BRC, BNC, SETE, SETNE, SETLT, SETLE, SETGT, SETGE, SETC, SETNC}
  }

  predicate IsTest(op: Op) {
    op in {BEV, BOD, BRZ, BNZ, BRP, BRN}
  }

  /** On the same values exactly one of each branch pair jumps: BRE/BNE,
      BRG/BLE, BRL/BGE and BRC/BNC. */
  lemma OppositeBranches(w: nat, a: nat, b: nat)
    ensures Compare(BRE, w, a, b) != Compare(BNE, w, a, b)
    ensures Compare(BRG, w, a, b) != Compare(BLE, w, a, b)
    ensures Compare(BRL, w, a, b) != Compare(BGE, w, a, b)
    ensures Compare(BRC, w, a, b) != Compare(BNC, w, a, b)
  {
  }

  /** BRZ/BNZ and BEV/BOD: exactly one of each pair jumps. */
  lemma OppositeTests(w: nat, a: nat)
    requires Supported(w)
    ensures Test(BRZ, w, a) != Test(BNZ, w, a)
    ensures Test(BEV, w, a) != Test(BOD, w, a)
  {
  }

  /** BRP/BRN: exactly one of the two jumps, whatever the word width. */
  lemma OppositeSignTests(w: nat, a: nat)
    requires Supported(w)
    ensures Test(BRP, w, a) != Test(BRN, w, a)
  {
    var x := Bitwise(AndOp, a, SignMask(w), StackBits(w));
    assert Test(BRP, w, a) == Check(BRP, w, a) == (x == 0);
    assert Test(BRN, w, a) == Check(BRN, w, a) == (x != 0);
  }

  /** SETE/SETNE, SETLT/SETGE, SETGT/SETLE and SETC/SETNC store
      complementary words. */
  lemma OppositeSets(w: nat, a: nat, b: nat)
    ensures Compare(SETE, w, a, b) != Compare(SETNE, w, a, b)
    ensures Compare(SETLT, w, a, b) != Compare(SETGE, w, a, b)
    ensures Compare(SETGT, w, a, b) != Compare(SETLE, w, a, b)
    ensures Compare(SETC, w, a, b) != Compare(SETNC, w, a, b)
  {
  }

  /** SETE, SETNE, SETLT and SETLE test the conditions of BRE, BNE, BRL
      and BLE. */
  lemma SetMatchesBranch(w: nat, a: nat, b: nat)
    ensures Compare(SETE, w, a, b) == Compare(BRE, w, a, b)
    ensures Compare(SETNE, w, a, b) == Compare(BNE, w, a, b)
    ensures Compare(SETLT, w, a, b) == Compare(BRL, w, a, b)
    ensures Compare(SETLE, w, a, b) == Compare(BLE, w, a, b)
  {
  }

  /** SETGT, SETGE, SETC and SETNC test the conditions of BRG, BGE, BRC
      and BNC. */
  lemma SetMatchesBranchToo(w: nat, a: nat, b: nat)
    ensures Compare(SETGT, w, a, b) == Compare(BRG, w, a, b)
    ensures Compare(SETGE, w, a, b) == Compare(BGE, w, a, b)
    ensures Compare(SETC, w, a, b) == Compare(BRC, w, a, b)
    ensures Compare(SETNC, w, a, b) == Compare(BNC, w, a, b)
  {
  }

  /** add.ovf.un is a 32-bit add below 64 bits: two words loaded from
      registers never carry at W = 8 or 16. At W = 32 and 64 the carry is the
      word sum overflowing. */
  lemma CarryOfWords(w: nat, x: nat, y: nat)
    requires Supported(w) && x < Pow2(w) && y < Pow2(w)
    ensures w <= 16 ==> !Compare(BRC, w, x, y) && Compare(BNC, w, x, y)
    ensures w >= 32 ==> (Compare(BRC, w, x, y) <==> x + y >= Pow2(w))
  {
    if w <= 16 {
      Pow2Monotone(w, 16);
      Pow2Add(16, 16);
      assert Pow2(16) == 65536;
    }
  }

  /** Byte immediates of 128 or more load sign-extended, so at W = 8
      "BRC .x 200 200" jumps although 200 + 200 fits in 32 bits. */
  lemma ByteCarrySignExtends()
    ensures Compare(BRC, 8, StackImmediate(8, 200), StackImmediate(8, 200))
  {
    assert Pow2(8) == 256 && Pow2(7) == 128 && Pow2(32) == 0x1_0000_0000;
    TruncSmall(8, 200);
    TruncSmall(32, 4294967240);
    assert StackImmediate(8, 200) == SignExtend(200, 8, 32) == 4294967240;
  }
}
