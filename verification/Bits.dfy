/**
 Bitwise operators of C on unsigned words, defined bit by bit on naturals, and the
 arithmetic they amount to when one operand is a mask.

 A word that fits in 64 bits keeps fitting under every operator here, so no width appears
 except where a C mask is itself 64 bits wide.
 */
module Bits {

  const WORD_LIMIT: nat := 0x1_0000_0000_0000_0000

  /** The values a uint64_t or size_t can hold. */
  type Word = w: nat | w < WORD_LIMIT

  function Pow2(k: nat): (p: nat)
    ensures p > 0
  {
    if k == 0 then 1 else 2 * Pow2(k - 1)
  }

  ghost predicate IsPow2(a: nat) {
    exists k: nat :: a == Pow2(k)
  }

  /** a & b */
  function And(a: nat, b: nat): nat {
    if a == 0 || b == 0 then 0
    else (if a % 2 == 1 && b % 2 == 1 then 1 else 0) + 2 * And(a / 2, b / 2)
  }

  /** a | b */
  function Or(a: nat, b: nat): nat {
    if a == 0 then b
    else if b == 0 then a
    else (if a % 2 == 1 || b % 2 == 1 then 1 else 0) + 2 * Or(a / 2, b / 2)
  }

  /** a & ~b */
  function AndNot(a: nat, b: nat): nat {
    if a == 0 then 0
    else (if a % 2 == 1 && b % 2 == 0 then 1 else 0) + 2 * AndNot(a / 2, b / 2)
  }

  /** a << k, before any truncation to a word. */
  function Shl(a: nat, k: nat): nat {
    if k == 0 then a else 2 * Shl(a, k - 1)
  }

  /** a >> k */
  function Shr(a: nat, k: nat): nat {
    if k == 0 then a else Shr(a / 2, k - 1)
  }

  lemma AtLeastOnce(d: nat, t: int)
    requires t >= 1
    ensures d * t >= d
  {
    assert d * t == d + d * (t - 1);
  }

  lemma AtMostZero(d: nat, t: int)
    requires t <= 0
    ensures d * t <= 0
  {
  }

  lemma Distribute(d: int, i: int, j: int)
    ensures d * (i - j) == d * i - d * j
  {
  }

  lemma QuotientForm(x: int, d: nat)
    requires d > 0
    ensures x == d * (x / d) + x % d && 0 <= x % d < d
  {
  }

  lemma DivModUnique(x: int, d: nat, q: int, r: int)
    requires x == d * q + r && 0 <= r < d
    ensures x / d == q && x % d == r
  {
    QuotientForm(x, d);
    var q' := x / d;
    if q > q' {
      Distribute(d, q, q');
      AtLeastOnce(d, q - q');
    } else if q < q' {
      Distribute(d, q', q);
      AtLeastOnce(d, q' - q);
    }
  }

  /** Splitting off the lowest bit before dividing by an even number. */
  lemma HalveFirst(x: nat, m: nat)
    requires m > 0
    ensures x / (2 * m) == (x / 2) / m
    ensures x % (2 * m) == x % 2 + 2 * ((x / 2) % m)
  {
    var q, r := (x / 2) / m, (x / 2) % m;
    assert x == 2 * (m * q + r) + x % 2;
    assert 2 * (m * q + r) == (2 * m) * q + 2 * r;
    DivModUnique(x, 2 * m, q, 2 * r + x % 2);
  }

  lemma {:induction false} AndLowMask(x: nat, k: nat)
    ensures And(x, Pow2(k) - 1) == x % Pow2(k)
  {
    if k == 0 {
    } else if x == 0 {
      DivModUnique(0, Pow2(k), 0, 0);
    } else {
      assert (Pow2(k) - 1) / 2 == Pow2(k - 1) - 1;
      AndLowMask(x / 2, k - 1);
      HalveFirst(x, Pow2(k - 1));
    }
  }

  lemma {:induction false} AndNotLowMask(x: nat, k: nat)
    ensures AndNot(x, Pow2(k) - 1) == x - x % Pow2(k)
  {
    if x == 0 {
      DivModUnique(0, Pow2(k), 0, 0);
    } else if k == 0 {
      AndNotLowMask(x / 2, 0);
      assert (Pow2(0) - 1) / 2 == 0;
    } else {
      assert (Pow2(k) - 1) / 2 == Pow2(k - 1) - 1;
      AndNotLowMask(x / 2, k - 1);
      HalveFirst(x, Pow2(k - 1));
    }
  }

  lemma AndEven(x: nat, y: nat)
    ensures And(x, 2 * y) == 2 * And(x / 2, y)
  {
  }

  lemma {:induction false} AndShiftedMask(x: nat, m: nat, k: nat)
    ensures And(x, Shl(m, k)) == Shl(And(Shr(x, k), m), k)
  {
    if k == 0 {
    } else {
      AndShiftedMask(x / 2, m, k - 1);
      AndEven(x, Shl(m, k - 1));
    }
  }

  lemma {:induction false} ShrUndoesShl(x: nat, k: nat)
    ensures Shr(Shl(x, k), k) == x
  {
    if k == 0 {
    } else {
      ShrUndoesShl(x, k - 1);
    }
  }

  lemma {:induction false} ShrIsDivision(x: nat, k: nat)
    ensures Shr(x, k) == x / Pow2(k)
  {
    if k == 0 {
    } else {
      HalveFirst(x, Pow2(k - 1));
      ShrIsDivision(x / 2, k - 1);
    }
  }

  lemma {:induction false} ShrSum(x: nat, j: nat, k: nat)
    ensures Shr(x, j + k) == Shr(Shr(x, j), k)
  {
    if j == 0 {
    } else {
      ShrSum(x / 2, j - 1, k);
    }
  }

  lemma {:induction false} ShlIsProduct(x: nat, k: nat)
    ensures Shl(x, k) == Pow2(k) * x
  {
    if k == 0 {
    } else {
      ShlIsProduct(x, k - 1);
    }
  }

  lemma {:induction false} OrDisjoint(a: nat, b: nat, k: nat)
    requires a % Pow2(k) == 0 && b < Pow2(k)
    ensures Or(a, b) == a + b
  {
    if a == 0 || b == 0 {
    } else {
      HalveFirst(a, Pow2(k - 1));
      OrDisjoint(a / 2, b / 2, k - 1);
    }
  }

  lemma {:induction false} OrHalves(a: nat, b: nat)
    ensures Or(a, b) / 2 == Or(a / 2, b / 2)
    ensures Or(a, b) % 2 == 1 <==> a % 2 == 1 || b % 2 == 1
  {
  }

  /** Or only touches the bits below the width of its smaller operand. */
  lemma {:induction false} OrKeepsHighBits(a: nat, b: nat, k: nat)
    requires b < Pow2(k)
    ensures Or(a, b) / Pow2(k) == a / Pow2(k)
  {
    if k == 0 {
    } else {
      OrHalves(a, b);
      HalveFirst(a, Pow2(k - 1));
      HalveFirst(Or(a, b), Pow2(k - 1));
      OrKeepsHighBits(a / 2, b / 2, k - 1);
    }
  }

  lemma {:induction false} OrAssociates(a: nat, b: nat, c: nat)
    ensures Or(Or(a, b), c) == Or(a, Or(b, c))
  {
    if a != 0 && b != 0 && c != 0 {
      OrAssociates(a / 2, b / 2, c / 2);
      OrHalves(a, b);
      OrHalves(b, c);
      OrHalves(Or(a, b), c);
      OrHalves(a, Or(b, c));
      hide Or;
    }
  }

  lemma {:induction false} OrFitsWord(a: nat, b: nat, k: nat)
    requires a < Pow2(k) && b < Pow2(k)
    ensures Or(a, b) < Pow2(k)
  {
    if k > 0 && a != 0 && b != 0 {
      OrFitsWord(a / 2, b / 2, k - 1);
    }
  }

  lemma PowersInUse()
    ensures Pow2(9) == 0x200 && Pow2(12) == 0x1000
  {
    assert Pow2(9) == 0x200;
  }

  lemma WordPower()
    ensures Pow2(64) == WORD_LIMIT
  {
    PowByte(0);
    PowByte(8);
    PowByte(16);
    PowByte(24);
    PowByte(32);
    PowByte(40);
    PowByte(48);
    PowByte(56);
  }

  lemma PowByte(k: nat)
    ensures Pow2(k + 8) == 0x100 * Pow2(k)
  {
    assert Pow2(k + 2) == 4 * Pow2(k);
    assert Pow2(k + 4) == 4 * Pow2(k + 2);
    assert Pow2(k + 6) == 4 * Pow2(k + 4);
  }

  lemma PowNibble(k: nat)
    ensures Pow2(k + 4) == 0x10 * Pow2(k)
  {
    assert Pow2(k + 2) == 4 * Pow2(k);
  }

  /** a | b on words */
  function OrWord(a: Word, b: Word): Word {
    WordPower();
    OrFitsWord(a, b, 64);
    Or(a, b)
  }

  // ---------------------------------------------------------------------------------------
  // ALIGN_UP

  /** The macro as written: (num + (align - 1)) & ~(align - 1). */
  function AlignUp(num: nat, align: nat): nat
    requires align > 0
  {
    AndNot(num + (align - 1), align - 1)
  }

  lemma {:induction false} AndParts(a: nat, b: nat)
    ensures AndNot(a, b) + And(a, b) == a && And(a, b) <= b
  {
    if a != 0 {
      AndParts(a / 2, b / 2);
    }
  }

  /** Whatever the alignment, the macro never goes down. */
  lemma AlignUpNotBelow(num: nat, align: nat)
    requires align > 0
    ensures num <= AlignUp(num, align)
  {
    AndParts(num + (align - 1), align - 1);
  }

  /** r is the least multiple of align that is not below num. */
  ghost predicate IsLeastMultiple(r: nat, num: nat, align: nat)
    requires align > 0
  {
    r % align == 0 && num <= r < num + align
  }

  lemma LeastMultipleIsLeast(r: nat, num: nat, align: nat, other: nat)
    requires align > 0 && IsLeastMultiple(r, num, align)
    requires other % align == 0 && num <= other
    ensures r <= other
  {
    if other < r {
      var i, j := r / align, other / align;
      QuotientForm(r, align);
      QuotientForm(other, align);
      Distribute(align, i, j);
      if i > j {
        AtLeastOnce(align, i - j);
      } else {
        AtMostZero(align, i - j);
      }
    }
  }

  lemma {:induction false} AlignUpIsLeastMultiple(num: nat, align: nat, k: nat)
    requires align == Pow2(k)
    ensures IsLeastMultiple(AlignUp(num, align), num, align)
  {
    var x := num + (align - 1);
    AndNotLowMask(x, k);
    QuotientForm(x, align);
    DivModUnique(x - x % align, align, x / align, 0);
  }

  /** Clearing from a the bits of a - 1 leaves its lowest set bit. */
  lemma {:induction false} LowestBitFixpoint(a: nat)
    requires a > 0 && AndNot(a, a - 1) == a
    ensures IsPow2(a)
    decreases a
  {
    if a % 2 == 1 {
      AndNotSelf(a / 2);
      assert (a - 1) / 2 == a / 2;
      assert a == 1 == Pow2(0);
    } else {
      assert (a - 1) / 2 == a / 2 - 1;
      LowestBitFixpoint(a / 2);
      var k: nat :| a / 2 == Pow2(k);
      assert a == Pow2(k + 1);
    }
  }

  lemma {:induction false} AndNotSelf(a: nat)
    ensures AndNot(a, a) == 0
  {
    if a != 0 {
      AndNotSelf(a / 2);
    }
  }

  /**
   The mask form of ALIGN_UP rounds every address up correctly exactly when the alignment
   is a power of two.
   */
  lemma AlignUpCorrectIffPow2(align: nat)
    requires align > 0
    ensures (forall num: nat :: IsLeastMultiple(AlignUp(num, align), num, align)) <==> IsPow2(align)
  {
    if IsPow2(align) {
      var k: nat :| align == Pow2(k);
      forall num: nat
        ensures IsLeastMultiple(AlignUp(num, align), num, align)
      {
        AlignUpIsLeastMultiple(num, align, k);
      }
    } else if forall num: nat :: IsLeastMultiple(AlignUp(num, align), num, align) {
      var r := AlignUp(1, align);
      assert IsLeastMultiple(r, 1, align);
      if r < align {
        DivModUnique(r, align, 0, r);
      }
      assert r == align;
      LowestBitFixpoint(align);
    }
  }

  /** Aligning 1 to 3 leaves it at 1. */
  lemma AlignUpFailsForThree()
    ensures AlignUp(1, 3) == 1 && !IsLeastMultiple(AlignUp(1, 3), 1, 3)
  {
    assert AndNot(3, 2) == 1 + 2 * AndNot(1, 1);
    assert AndNot(1, 1) == 2 * AndNot(0, 0);
  }
}
