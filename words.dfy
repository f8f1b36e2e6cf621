/** Word-width arithmetic of the generated code.

    A program word has W bits, W one of 8, 16, 32 or 64. While the generated
    code computes, values live on the evaluation stack of the runtime, where
    every short integer is widened: a stack value has 32 bits when W <= 32 and
    64 bits when W = 64. Only a store into a register or a memory cell
    narrows a value back to W bits. Stack values are modelled here as their
    unsigned bit patterns. */
module Words {

  /** The word widths the assembler accepts. */
  predicate Supported(w: nat) {
    w == 8 || w == 16 || w == 32 || w == 64
  }

  /** 2^n. It steps 32 and 8 bits at a time so that a power with a literal
      exponent such as 2^64 evaluates to its constant in a few steps; the
      one-bit step is Pow2Step. */
  function Pow2(n: nat): (r: nat)
    ensures r >= 1
  {
    if n == 0 then 1
    else if n >= 32 then 0x1_0000_0000 * Pow2(n - 32)
    else if n >= 8 then 0x100 * Pow2(n - 8)
    else 2 * Pow2(n - 1)
  }

  /** 2^31: one past the largest int32, the bound on a .NET array's length
      and on an int index. */
  const IntLimit: nat := 0x8000_0000

  lemma IntLimitIsPow2()
    ensures Pow2(31) == IntLimit
  {
  }

  lemma {:induction false} Pow2Step(n: nat)
    ensures Pow2(n + 1) == 2 * Pow2(n)
  {
    if n >= 32 {
      Pow2Step(n - 32);
    } else if n == 31 {
      assert Pow2(31) == 0x8000_0000;
    } else if n >= 8 {
      Pow2Step(n - 8);
    } else if n == 7 {
      assert Pow2(7) == 128;
    }
  }

  /** A C# shift count masked to the width of the shifted type (the low 5
      bits for int, the low 6 bits for long and ulong). */
  function ShiftCount(s: int, width: nat): (r: nat)
    requires width > 0
    ensures r < width && r == s % width
  {
    if 0 <= s < width then s else s % width
  }

  /** Width of a value on the evaluation stack for word width w. */
  function StackBits(w: nat): nat {
    if w == 64 then 64 else 32
  }

  /** Keeps the low n bits of x (two's complement truncation). */
  function Trunc(n: nat, x: int): nat {
    x % Pow2(n)
  }

  /** Largest word value, 2^W - 1. */
  function MaxWord(w: nat): nat {
    Pow2(w) - 1
  }

  /** The signed value of an n-bit pattern. */
  function Signed(n: nat, x: nat): (r: int)
    requires n >= 1
    ensures x < Pow2(n) ==> -(Pow2(n - 1) as int) <= r < Pow2(n - 1)
    ensures Trunc(n, r) == Trunc(n, x)
  {
    Pow2Step(n - 1);
    TruncAddMultiple(n, x, -1);
    if x >= Pow2(n - 1) then x - Pow2(n) else x
  }

  /** A value in the signed n-bit range is the signed reading of its own
      low n bits. */
  lemma SignedOfTrunc(n: nat, y: int)
    requires n >= 1 && -(Pow2(n - 1) as int) <= y < Pow2(n - 1)
    ensures Signed(n, Trunc(n, y)) == y
  {
    Pow2Step(n - 1);
    if y >= 0 {
      TruncSmall(n, y);
    } else {
      TruncAddMultiple(n, y + Pow2(n), -1);
      TruncSmall(n, y + Pow2(n));
    }
  }

  /** A strict inequality between multiples of a positive number holds
      between the factors. */
  lemma CancelLess(a: int, b: int, p: int)
    requires p > 0 && a * p < b * p
    ensures a < b
  {
    assert (b - a) * p > 0;
  }

  /** Floor division by a positive number keeps a value inside a range
      symmetric about zero. */
  lemma FloorDivBounds(s: int, p: int, h: int)
    requires p >= 1 && h >= 1 && -h <= s < h
    ensures -h <= s / p < h
  {
    var q, r := s / p, s % p;
    assert s == q * p + r && 0 <= r < p;
    MulAtLeast(p, h);
    CancelLess(q, h, p);
    CancelLess(-h - 1, q, p);
  }

  /** Sign extension of an n-bit pattern to m bits. */
  function SignExtend(x: nat, n: nat, m: nat): nat
    requires n >= 1
  {
    Trunc(m, Signed(n, x))
  }

  // ---------------------------------------------------------------------
  // Arithmetic facts about powers of two and truncation

  lemma ModUnique(a: int, m: int, q: int, r: int)
    requires m > 0 && 0 <= r < m && a == q * m + r
    ensures a % m == r && a / m == q
  {
    var q0, r0 := a / m, a % m;
    assert a == q0 * m + r0;
    if q0 > q {
      assert (q0 - q) * m == r - r0;
      MulAtLeast(q0 - q, m);
    } else if q0 < q {
      assert (q - q0) * m == r0 - r;
      MulAtLeast(q - q0, m);
    }
  }

  lemma DivNonNegative(x: nat, p: int)
    requires p > 0
    ensures x / p >= 0
  {
  }

  /** Multiplying by a positive number keeps the order. */
  lemma MulBounds(a: int, b: int, c: int)
    requires 0 <= a < b && c > 0
    ensures 0 <= a * c < b * c
  {
  }

  lemma MulNonNegative(a: nat, b: nat)
    ensures a * b >= 0
  {
  }

  lemma MulAtLeast(k: int, m: int)
    requires k >= 1 && m > 0
    ensures k * m >= m
  {
  }

  lemma DoubleProduct(p: int, q: int)
    ensures 2 * (p * q) == (2 * p) * q
  {
  }

  lemma {:induction false} Pow2Add(a: nat, b: nat)
    ensures Pow2(a + b) == Pow2(a) * Pow2(b)
  {
    if a > 0 {
      var p, q := Pow2(a - 1), Pow2(b);
      Pow2Add(a - 1, b);
      Pow2Step(a - 1 + b);
      Pow2Step(a - 1);
      assert a + b == (a - 1 + b) + 1;
      DoubleProduct(p, q);
    }
  }

  lemma {:induction false} Pow2Monotone(a: nat, b: nat)
    requires a <= b
    ensures Pow2(a) <= Pow2(b)
  {
    if a < b {
      Pow2Monotone(a, b - 1);
      Pow2Step(b - 1);
    }
  }

  /** Truncating to n bits peels off the lowest bit and truncates the rest
      to n - 1 bits. */
  lemma TruncStep(y: int, n: nat)
    requires n >= 1
    ensures Trunc(n, y) == y % 2 + 2 * Trunc(n - 1, y / 2)
  {
    Pow2Step(n - 1);
    ModStep(y, Pow2(n - 1));
  }

  lemma ModStep(y: int, p: int)
    requires p > 0
    ensures y % (2 * p) == y % 2 + 2 * ((y / 2) % p)
  {
    var h := y / 2;
    var q, r := h / p, h % p;
    assert h == q * p + r;
    assert y == q * (2 * p) + (2 * r + y % 2);
    ModUnique(y, 2 * p, q, 2 * r + y % 2);
  }

  /** Adding a multiple of 2^n does not change the low n bits. */
  lemma TruncAddMultiple(n: nat, x: int, k: int)
    ensures Trunc(n, x + k * Pow2(n)) == Trunc(n, x)
  {
    var p := Pow2(n);
    assert x + k * p == (x / p + k) * p + x % p;
    ModUnique(x + k * p, p, x / p + k, x % p);
  }

  /** Reducing modulo p * m and then modulo p is reducing modulo p. */
  lemma ModOfMod(x: int, p: int, m: int)
    requires p > 0 && m > 0
    ensures (x % (p * m)) % p == x % p
  {
    var q, t, s := x / (p * m), x / p, x % p;
    var r := x % (p * m);
    assert x == q * (p * m) + r;
    assert x == t * p + s;
    assert r == (t - q * m) * p + s;
    ModUnique(r, p, t - q * m, s);
  }

  /** Truncating twice keeps the narrower width. */
  lemma TruncTrunc(a: nat, b: nat, x: int)
    requires a <= b
    ensures Trunc(a, Trunc(b, x)) == Trunc(a, x)
  {
    Pow2Add(a, b - a);
    assert a + (b - a) == b;
    ModOfMod(x, Pow2(a), Pow2(b - a));
  }

  lemma TruncZero(x: int)
    ensures Trunc(0, x) == 0
  {
    ModUnique(x, 1, x, 0);
  }

  lemma TruncSmall(n: nat, x: int)
    requires 0 <= x < Pow2(n)
    ensures Trunc(n, x) == x
  {
    ModUnique(x, Pow2(n), 0, x);
  }

  /** Sign extension keeps the low bits: narrowing the widened pattern gives
      back the word. */
  lemma SignExtendTrunc(x: nat, n: nat, m: nat)
    requires 1 <= n <= m && x < Pow2(n)
    ensures SignExtend(x, n, m) < Pow2(m)
    ensures Trunc(n, SignExtend(x, n, m)) == x
    ensures x < Pow2(n - 1) ==> SignExtend(x, n, m) == x
  {
    Pow2Monotone(n, m);
    Pow2Step(n - 1);
    TruncTrunc(n, m, Signed(n, x));
    if x >= Pow2(n - 1) {
      TruncAddMultiple(n, x, -1);
    } else {
      TruncSmall(m, x);
    }
    TruncSmall(n, x);
  }

  // ---------------------------------------------------------------------
  // Loads onto the evaluation stack

  /** The stack value pushed for a 64-bit immediate (EmitLdc(ulong)): at W = 8
      the byte is pushed with a short form that sign-extends it; at W = 16
      the 16-bit value is pushed as a positive int32; at W = 32 the low 32
      bits; at W = 64 the full 64 bits. */
  function StackImmediate(w: nat, v: nat): (r: nat)
    requires Supported(w)
    ensures r < Pow2(StackBits(w))
    ensures Trunc(w, r) == Trunc(w, v)
  {
    if w == 8 then
      ByteImmediate(v);
      SignExtend(Trunc(8, v), 8, 32)
    else if w == 16 then
      ShortImmediate(v);
      Trunc(16, v)
    else
      TruncTrunc(w, w, v);
      Trunc(w, v)
  }

  lemma ByteImmediate(v: nat)
    ensures SignExtend(Trunc(8, v), 8, 32) < Pow2(32)
    ensures Trunc(8, SignExtend(Trunc(8, v), 8, 32)) == Trunc(8, v)
  {
    SignExtendTrunc(Trunc(8, v), 8, 32);
  }

  lemma ShortImmediate(v: nat)
    ensures Trunc(16, v) < Pow2(32)
    ensures Trunc(16, Trunc(16, v)) == Trunc(16, v)
  {
    Pow2Monotone(16, 32);
    TruncSmall(16, Trunc(16, v));
  }

  /** The stack value pushed for a small int32 constant (EmitLdc(int)):
      ldc.i4, followed by a sign-extending conversion at W = 64. */
  function StackInt(w: nat, n: int): (r: nat)
    ensures r < Pow2(StackBits(w))
    ensures 0 <= n < Pow2(StackBits(w)) ==> r == n
    ensures w <= StackBits(w) ==> Trunc(w, r) == Trunc(w, n)
  {
    if 0 <= n < Pow2(StackBits(w)) then TruncSmall(StackBits(w), n); Trunc(StackBits(w), n)
    else if w <= StackBits(w) then TruncTrunc(w, StackBits(w), n); Trunc(StackBits(w), n)
    else Trunc(StackBits(w), n)
  }

  /** The stack value loaded from a memory cell holding word x: ldelem.i1 and
      ldelem.i2 sign-extend at W = 8 and W = 16. */
  function LoadElement(w: nat, x: nat): (r: nat)
    requires Supported(w) && x < Pow2(w)
    ensures r < Pow2(StackBits(w))
    ensures Trunc(w, r) == x
    ensures x < Pow2(w - 1) ==> r == x
  {
    Pow2Monotone(w - 1, w);
    Pow2Monotone(w, StackBits(w));
    if w <= 16 then
      SignExtendTrunc(x, w, 32);
      SignExtend(x, w, 32)
    else
      TruncSmall(w, x);
      x
  }

  /** conv.i4: the low 32 bits of a stack value, read as a signed int32. */
  function ToInt32(x: int): (r: int)
    ensures -(Pow2(31) as int) <= r < Pow2(31)
    ensures Trunc(32, r) == Trunc(32, x)
    ensures 0 <= x < Pow2(31) ==> r == x
  {
    TruncTrunc(32, 32, x);
    Pow2Monotone(31, 32);
    if 0 <= x < Pow2(31) then TruncSmall(32, x); Signed(32, Trunc(32, x))
    else Signed(32, Trunc(32, x))
  }

  /** conv.i4 leaves a value that already fits in an int32 unchanged. */
  lemma ToInt32Identity(v: int)
    requires -(Pow2(31) as int) <= v < Pow2(31)
    ensures ToInt32(v) == v
  {
    Pow2Monotone(31, 32);
    assert Pow2(32) == 2 * Pow2(31);
    if v >= 0 {
      TruncSmall(32, v);
    } else {
      TruncAddMultiple(32, v + Pow2(32), -1);
      TruncSmall(32, v + Pow2(32));
    }
  }

  /** conv.i: a stack value read as a signed native integer (64-bit host). */
  function ToNative(w: nat, x: nat): (r: int)
    ensures -(Pow2(StackBits(w) - 1) as int) <= r < Pow2(StackBits(w) - 1)
    ensures Trunc(StackBits(w), r) == Trunc(StackBits(w), x)
    ensures x < Pow2(StackBits(w) - 1) ==> r == x
  {
    var n := StackBits(w);
    TruncTrunc(n, n, x);
    Pow2Monotone(n - 1, n);
    if x < Pow2(n - 1) then TruncSmall(n, x); Signed(n, Trunc(n, x))
    else Signed(n, Trunc(n, x))
  }

  // ---------------------------------------------------------------------
  // Bitwise operations, defined bit by bit

  datatype Logic = AndOp | OrOp | XorOp

  function BitOf(op: Logic, a: nat, b: nat): nat
    requires a < 2 && b < 2
  {
    match op
    case AndOp => a * b
    case OrOp => if a + b > 0 then 1 else 0
    case XorOp => (a + b) % 2
  }

  /** Bit i of x. */
  function Bit(x: nat, i: nat): (r: nat)
    ensures r < 2
  {
    if i == 0 then x % 2 else Bit(x / 2, i - 1)
  }

  /** An n-bit bitwise AND, OR or XOR. */
  function Bitwise(op: Logic, a: nat, b: nat, n: nat): (r: nat)
    ensures r < Pow2(n)
  {
    if n == 0 then 0
    else
      Pow2Step(n - 1);
      BitOf(op, a % 2, b % 2) + 2 * Bitwise(op, a / 2, b / 2, n - 1)
  }

  /** An n-bit bitwise NOT. */
  function Complement(a: nat, n: nat): (r: nat)
    ensures r < Pow2(n)
  {
    if n == 0 then 0
    else
      Pow2Step(n - 1);
      (1 - a % 2) + 2 * Complement(a / 2, n - 1)
  }

  /** Every bit of a bitwise result is the operation applied to the operands'
      bits. */
  lemma {:induction false} BitwiseBit(op: Logic, a: nat, b: nat, n: nat, i: nat)
    requires i < n
    ensures Bit(Bitwise(op, a, b, n), i) == BitOf(op, Bit(a, i), Bit(b, i))
  {
    var r := Bitwise(op, a, b, n);
    var rest := Bitwise(op, a / 2, b / 2, n - 1);
    assert r == BitOf(op, a % 2, b % 2) + 2 * rest;
    assert r % 2 == BitOf(op, a % 2, b % 2) && r / 2 == rest;
    if i > 0 {
      BitwiseBit(op, a / 2, b / 2, n - 1, i - 1);
    }
  }

  /** NOT over n bits is 2^n - 1 minus the low n bits. */
  lemma {:induction false} ComplementValue(a: nat, n: nat)
    ensures Complement(a, n) == Pow2(n) - 1 - Trunc(n, a)
  {
    if n > 0 {
      ComplementValue(a / 2, n - 1);
      Pow2Step(n - 1);
      TruncStep(a, n);
    }
  }

  /** Truncating a value built from a low bit c and the rest. */
  lemma TruncParts(c: nat, rest: nat, k: nat)
    requires c < 2 && k >= 1
    ensures Trunc(k, c + 2 * rest) == c + 2 * Trunc(k - 1, rest)
  {
    var y := c + 2 * rest;
    assert y % 2 == c && y / 2 == rest;
    TruncStep(y, k);
  }

  /** The low bit and the remaining bits of a truncated value. */
  lemma TruncHalves(a: nat, k: nat)
    requires k >= 1
    ensures Trunc(k, a) % 2 == a % 2 && Trunc(k, a) / 2 == Trunc(k - 1, a / 2)
  {
    TruncStep(a, k);
  }

  /** Narrowing a bitwise result equals the bitwise operation on the
      narrowed operands. */
  lemma {:induction false} BitwiseTrunc(op: Logic, a: nat, b: nat, k: nat, n: nat)
    requires k <= n
    ensures Trunc(k, Bitwise(op, a, b, n)) == Bitwise(op, Trunc(k, a), Trunc(k, b), k)
  {
    if k > 0 {
      var ta, tb := Trunc(k, a), Trunc(k, b);
      var c := BitOf(op, a % 2, b % 2);
      var rest := Bitwise(op, a / 2, b / 2, n - 1);
      calc {
        Trunc(k, Bitwise(op, a, b, n));
        Trunc(k, c + 2 * rest);
        { TruncParts(c, rest, k); }
        c + 2 * Trunc(k - 1, rest);
        { BitwiseTrunc(op, a / 2, b / 2, k - 1, n - 1); }
        c + 2 * Bitwise(op, Trunc(k - 1, a / 2), Trunc(k - 1, b / 2), k - 1);
        { TruncHalves(a, k); TruncHalves(b, k); }
        BitOf(op, ta % 2, tb % 2) + 2 * Bitwise(op, ta / 2, tb / 2, k - 1);
        Bitwise(op, ta, tb, k);
      }
    } else {
      TruncZero(Bitwise(op, a, b, n));
    }
  }

  lemma {:induction false} ComplementTrunc(a: nat, k: nat, n: nat)
    requires k <= n
    ensures Trunc(k, Complement(a, n)) == Complement(Trunc(k, a), k)
  {
    if k > 0 {
      var ta := Trunc(k, a);
      var rest := Complement(a / 2, n - 1);
      calc {
        Trunc(k, Complement(a, n));
        Trunc(k, (1 - a % 2) + 2 * rest);
        { TruncParts(1 - a % 2, rest, k); }
        (1 - a % 2) + 2 * Trunc(k - 1, rest);
        { ComplementTrunc(a / 2, k - 1, n - 1); }
        (1 - a % 2) + 2 * Complement(Trunc(k - 1, a / 2), k - 1);
        { TruncHalves(a, k); }
        (1 - ta % 2) + 2 * Complement(ta / 2, k - 1);
        Complement(ta, k);
      }
    } else {
      TruncZero(Complement(a, n));
    }
  }

  // ---------------------------------------------------------------------
  // AND with particular masks

  lemma {:induction false} AndZero(a: nat, n: nat)
    ensures Bitwise(AndOp, a, 0, n) == 0
  {
    if n > 0 {
      AndZero(a / 2, n - 1);
    }
  }

  lemma {:induction false} ZeroAnd(b: nat, n: nat)
    ensures Bitwise(AndOp, 0, b, n) == 0
  {
    if n > 0 {
      ZeroAnd(b / 2, n - 1);
    }
  }

  /** AND with 1 is the low bit. */
  lemma AndOne(a: nat, n: nat)
    requires n >= 1
    ensures Bitwise(AndOp, a, 1, n) == a % 2
  {
    AndZero(a / 2, n - 1);
  }

  /** AND of a (k+1)-bit value with a mask whose low k+1 bits are 2^k: the
      result is zero exactly when bit k of the value is clear, that is when
      the value is below 2^k. */
  lemma {:induction false} AndTopBit(x: nat, m: nat, k: nat, n: nat)
    requires k < n && x < Pow2(k + 1) && Trunc(k + 1, m) == Pow2(k)
    ensures Bitwise(AndOp, x, m, n) == 0 <==> x < Pow2(k)
  {
    if k == 0 {
      TruncStep(m, 1);
      AndLowBit(x, m, n);
    } else {
      AndHighBit(x, m, k, n);
      AndTopBit(x / 2, m / 2, k - 1, n - 1);
    }
  }

  /** The base case of AndTopBit: a one-bit value against an odd mask. */
  lemma AndLowBit(x: nat, m: nat, n: nat)
    requires n >= 1 && x < 2 && m % 2 == 1
    ensures Bitwise(AndOp, x, m, n) == x
  {
    ZeroAnd(m / 2, n - 1);
    assert x / 2 == 0 && x % 2 == x;
  }

  /** The step of AndTopBit: with the mask's low bit clear, the result is
      twice the AND of the halves, and the halves meet AndTopBit's
      requirements one bit lower. */
  lemma AndHighBit(x: nat, m: nat, k: nat, n: nat)
    requires 1 <= k < n && x < Pow2(k + 1) && Trunc(k + 1, m) == Pow2(k)
    ensures x / 2 < Pow2(k) && Trunc(k, m / 2) == Pow2(k - 1)
    ensures Bitwise(AndOp, x, m, n) == 2 * Bitwise(AndOp, x / 2, m / 2, n - 1)
    ensures x / 2 < Pow2(k - 1) <==> x < Pow2(k)
  {
    Pow2Step(k);
    Pow2Step(k - 1);
    var q := Pow2(k - 1);
    TruncStep(m, k + 1);
    EvenSplit(m % 2, Trunc(k, m / 2), q);
    HalfBelow(x, q);
    HalfBelow(x, 2 * q);
    assert Bitwise(AndOp, x, m, n) == BitOf(AndOp, x % 2, 0) + 2 * Bitwise(AndOp, x / 2, m / 2, n - 1);
  }

  lemma EvenSplit(b: int, t: int, q: int)
    requires 0 <= b < 2 && b + 2 * t == 2 * q
    ensures b == 0 && t == q
  {
  }

  lemma HalfBelow(x: nat, p: nat)
    ensures x / 2 < p <==> x < 2 * p
  {
  }

  lemma QuotientBound(x: nat, y: nat)
    requires y > 0
    ensures x / y <= x && x % y <= x
  {
    var q, r := x / y, x % y;
    assert x == q * y + r;
    MulNonNegative(q, y);
    if q >= 1 {
      MulAtLeast(y, q);
      assert q * y == y * q;
    }
  }

  /** An unsigned n-bit add carries exactly when the wrapped sum is below
      an addend. */
  lemma CarryWraps(n: nat, a: nat, b: nat)
    requires a < Pow2(n) && b < Pow2(n)
    ensures a + b >= Pow2(n) <==> Trunc(n, a + b) < a
  {
    if a + b >= Pow2(n) {
      TruncAddMultiple(n, a + b - Pow2(n), 1);
      TruncSmall(n, a + b - Pow2(n));
    } else {
      TruncSmall(n, a + b);
    }
  }

  /** The low W bits of the 64-bit all-ones pattern are all ones. */
  lemma AllOnesWord(w: nat)
    requires Supported(w)
    ensures Trunc(w, Pow2(64) - 1) == MaxWord(w)
  {
    var p := Pow2(w);
    Pow2Add(w, 64 - w);
    assert w + (64 - w) == 64;
    var q := Pow2(64 - w);
    assert Pow2(64) - 1 == (p - 1) + (q - 1) * p;
    TruncAddMultiple(w, p - 1, q - 1);
    TruncSmall(w, p - 1);
  }
}
