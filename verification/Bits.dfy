/**
  Bit arithmetic on the `u128` index type of the order book.

  Values are natural numbers. `And` and `Xor` are the bitwise operators, defined bit by bit;
  `Shr(k, p)` is `k >> p` and `Bit(k, p)` is bit `p` of `k`. `NewMask` computes the
  crit-bit mask the way the source does, through `leading_zeros` of the double-width XOR.
 */
module Bits {
  /** Width of the index type. */
  const BITS: nat := 128

  /** `1 << (BITS - 1)`: indices below it are internal nodes, indices above it are leaves. */
  const PARTITION_INDEX: nat := 0x8000_0000_0000_0000_0000_0000_0000_0000
  const MAX_INDEX: nat := 0xffff_ffff_ffff_ffff_ffff_ffff_ffff_ffff
  const CAPACITY: nat := MAX_INDEX - PARTITION_INDEX

  /** A value of the index type. */
  type Index = k: nat | k <= MAX_INDEX

  function Pow2(n: nat): (r: nat)
    ensures r > 0
  {
    if n == 0 then 1 else 2 * Pow2(n - 1)
  }

  function And(a: nat, b: nat): nat {
    if a == 0 || b == 0 then 0 else (a % 2) * (b % 2) + 2 * And(a / 2, b / 2)
  }

  function Xor(a: nat, b: nat): nat {
    if a == 0 then b else if b == 0 then a else (a + b) % 2 + 2 * Xor(a / 2, b / 2)
  }

  function Shr(k: nat, p: nat): nat {
    if p == 0 then k else Shr(k / 2, p - 1)
  }

  function Bit(k: nat, p: nat): nat {
    Shr(k, p) % 2
  }

  /** Number of bits up to and including the most significant one. */
  function BitLength(x: nat): nat {
    if x == 0 then 0 else 1 + BitLength(x / 2)
  }

  /** `leading_zeros` of `x` held in a word of `width` bits. */
  function LeadingZeros(x: nat, width: nat): nat
    requires BitLength(x) <= width
  {
    width - BitLength(x)
  }

  /** `K::new_mask`: one shifted to the most significant bit in which the keys differ. */
  function NewMask(key: Index, closestKey: Index): nat
    requires key != closestKey
  {
    CritBitBounds(key, closestKey);
    var critbit := Xor(key, closestKey);
    var pos := BITS - (LeadingZeros(critbit, 2 * BITS) - BITS);
    Pow2(pos - 1)
  }

  /** Position of the most significant bit in which two keys differ. */
  function CritBit(a: nat, b: nat): nat
    requires a != b
    decreases a + b
  {
    if a / 2 == b / 2 then 0 else 1 + CritBit(a / 2, b / 2)
  }

  lemma {:induction false} PowersGrow(p: nat, q: nat)
    ensures p < q <==> Pow2(p) < Pow2(q)
    ensures p == q <==> Pow2(p) == Pow2(q)
  {
    if p != 0 && q != 0 {
      PowersGrow(p - 1, q - 1);
    }
  }

  lemma {:induction false} ShrStep(k: nat, p: nat)
    ensures Shr(k, p + 1) == Shr(k, p) / 2
  {
    if p != 0 {
      ShrStep(k / 2, p - 1);
    }
  }

  /** Equal at bit `p` and above stays equal higher up. */
  lemma {:induction false} ShrAgreesAbove(a: nat, b: nat, p: nat, q: nat)
    requires Shr(a, p) == Shr(b, p) && p <= q
    ensures Shr(a, q) == Shr(b, q)
    decreases q
  {
    if p < q {
      ShrAgreesAbove(a, b, p, q - 1);
      ShrStep(a, q - 1);
      ShrStep(b, q - 1);
    }
  }

  /** Keys that agree above bit `p` and differ in it are ordered by it. */
  lemma {:induction false} BitDecidesOrder(a: nat, b: nat, p: nat)
    requires Shr(a, p) < Shr(b, p)
    ensures a < b
  {
    if p != 0 {
      BitDecidesOrder(a / 2, b / 2, p - 1);
    }
  }

  /** The source tests `mask & key == 0`; for a one-bit mask that is a test of that bit. */
  lemma {:induction false} MaskTestsBit(p: nat, k: nat)
    ensures And(Pow2(p), k) == 0 <==> Bit(k, p) == 0
  {
    if p != 0 && k != 0 {
      MaskTestsBit(p - 1, k / 2);
    } else if k == 0 {
      ShrZero(p);
    }
  }

  lemma {:induction false} AndCommutes(a: nat, b: nat)
    ensures And(a, b) == And(b, a)
  {
    if a != 0 && b != 0 {
      AndCommutes(a / 2, b / 2);
    }
  }

  lemma {:induction false} ShrZero(p: nat)
    ensures Shr(0, p) == 0
  {
    if p != 0 {
      ShrZero(p - 1);
    }
  }

  lemma {:induction false} XorIsZero(a: nat, b: nat)
    ensures Xor(a, b) == 0 <==> a == b
  {
    if a != 0 && b != 0 {
      XorIsZero(a / 2, b / 2);
    }
  }

  lemma {:induction false} CritBitIsTopOfXor(a: nat, b: nat)
    requires a != b
    ensures BitLength(Xor(a, b)) == CritBit(a, b) + 1
    decreases a + b
  {
    XorIsZero(a, b);
    XorIsZero(a / 2, b / 2);
    assert Xor(a, b) / 2 == Xor(a / 2, b / 2);
    if a / 2 != b / 2 {
      CritBitIsTopOfXor(a / 2, b / 2);
    }
  }

  lemma {:induction false} CritBitBelow(a: nat, b: nat, n: nat)
    requires a != b && a < Pow2(n) && b < Pow2(n)
    ensures CritBit(a, b) < n
    decreases n
  {
    if a / 2 != b / 2 {
      CritBitBelow(a / 2, b / 2, n - 1);
    }
  }

  lemma PartitionIsTopBit()
    ensures Pow2(BITS) == MAX_INDEX + 1 && Pow2(BITS - 1) == PARTITION_INDEX && CAPACITY == Pow2(BITS - 1) - 1
  {
    var x := DoublePower(4, 0x10);
    x := DoublePower(8, x);
    x := DoublePower(16, x);
    x := DoublePower(32, x);
    x := DoublePower(64, x);
  }

  lemma DoublePower(n: nat, x: nat) returns (y: nat)
    requires Pow2(n) == x
    ensures Pow2(n + n) == y == x * x
  {
    PowersMultiply(n, n);
    y := x * x;
  }

  lemma {:induction false} PowersMultiply(m: nat, n: nat)
    ensures Pow2(m + n) == Pow2(m) * Pow2(n)
  {
    if m != 0 {
      PowersMultiply(m - 1, n);
    }
  }

  lemma CritBitBounds(a: Index, b: Index)
    requires a != b
    ensures BitLength(Xor(a, b)) == CritBit(a, b) + 1 <= BITS
  {
    PartitionIsTopBit();
    CritBitIsTopOfXor(a, b);
    CritBitBelow(a, b, BITS);
  }

  /** The two keys agree above the crit bit and differ in it. */
  lemma {:induction false} CritBitSeparates(a: nat, b: nat)
    requires a != b
    ensures Shr(a, CritBit(a, b) + 1) == Shr(b, CritBit(a, b) + 1)
    ensures Bit(a, CritBit(a, b)) != Bit(b, CritBit(a, b))
    decreases a + b
  {
    if a / 2 == b / 2 {
      assert Shr(a, 1) == Shr(a / 2, 0) && Shr(b, 1) == Shr(b / 2, 0);
    } else {
      CritBitSeparates(a / 2, b / 2);
    }
  }

  /** `new_mask` is a single bit, the highest one in which the two keys differ. */
  lemma NewMaskIsCritBit(a: Index, b: Index)
    requires a != b
    ensures NewMask(a, b) == Pow2(CritBit(a, b))
    ensures Shr(a, CritBit(a, b) + 1) == Shr(b, CritBit(a, b) + 1)
    ensures Bit(a, CritBit(a, b)) != Bit(b, CritBit(a, b))
  {
    CritBitBounds(a, b);
    CritBitSeparates(a, b);
  }
}
