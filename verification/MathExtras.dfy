/** Powers of two: the test, rounding up to a multiple, and the next one. */
module MathExtras {
  import opened Bits

  // ----- powers of two

  predicate IsPowerOfTwo(v: nat) {
    v != 0 && And(v, v - 1) == 0
  }

  lemma {:induction false} AndSelf(v: nat)
    ensures And(v, v) == v
  {
    if v > 0 {
      AndSelf(v / 2);
    }
  }

  lemma {:induction false} PowerOfTwoExponent(v: nat) returns (k: nat)
    requires IsPowerOfTwo(v)
    ensures v == Pow2(k)
  {
    if v == 1 {
      k := 0;
    } else if v % 2 == 1 {
      AndSelf(v / 2);
      assert false;
    } else {
      k := PowerOfTwoExponent(v / 2);
      k := k + 1;
    }
  }

  lemma {:induction false} Pow2IsPowerOfTwo(k: nat)
    ensures IsPowerOfTwo(Pow2(k))
  {
    if k > 0 {
      Pow2IsPowerOfTwo(k - 1);
      var p := Pow2(k - 1);
      assert Pow2(k) == 2 * p && Pow2(k) / 2 == p && (Pow2(k) - 1) / 2 == p - 1;
    }
  }

  lemma AndBelow(x: nat, align: nat)
    requires IsPowerOfTwo(align)
    ensures And(x, align - 1) == x % align
  {
    var k := PowerOfTwoExponent(align);
    AndMask(x, k);
  }

  // ----- rounding up

  /** 2^64, where a register wraps. */
  const WORD := 0x1_0000_0000_0000_0000

  /** 2^61: a size in bytes counts modulo this when in bits it counts modulo 2^64. */
  const SPAN := 0x2000_0000_0000_0000

  /** The least multiple of the alignment that is not below the value. */
  function RoundUp(value: nat, align: nat): (r: nat)
    requires align > 0
    ensures value <= r < value + align && r % align == 0
  {
    RoundedDown(value + align - 1, align);
    (value + align - 1) / align * align
  }

  /** The rounding in 64-bit arithmetic.  It rounds up unless the sum wraps; then the result
      is below the value. */
  function RoundUpToAlignment(value: nat, align: nat): (r: nat)
    requires 0 < align <= WORD && value < WORD
    ensures r % align == 0
    ensures value <= r < value + align <==> value + align <= WORD
  {
    RoundedDown((value + align - 1) % WORD, align);
    (value + align - 1) % WORD / align * align
  }

  lemma RoundedDown(value: nat, align: nat)
    requires align > 0
    ensures value / align * align <= value < value / align * align + align
    ensures (value / align * align) % align == 0
  {
    DivModUnique((value / align) * align, align, value / align, 0);
  }

  lemma AlignedStays(value: nat, align: nat)
    requires align > 0 && value % align == 0
    ensures RoundUp(value, align) == value
  {
    DivModUnique(value + align - 1, align, value / align, align - 1);
  }

  lemma AddMultiple(x: nat, d: nat, k: nat)
    requires d > 0
    ensures (x + k * d) / d * d == x / d * d + k * d
  {
    MulAdd(d, x / d, k);
    DivModUnique(x + k * d, d, x / d + k, x % d);
  }

  /** Rounding commutes with adding a multiple. */
  lemma RoundUpShift(value: nat, align: nat, q: nat, m: nat)
    requires align > 0 && m % align == 0
    ensures RoundUp(value + q * m, align) == RoundUp(value, align) + q * m
  {
    MulAssoc(q, m / align, align);
    assert m == m / align * align;
    AddMultiple(value + align - 1, align, q * (m / align));
  }

  /** A power of two divides every larger one. */
  lemma PowersDivide(a: nat, b: nat)
    requires IsPowerOfTwo(a) && IsPowerOfTwo(b) && a <= b
    ensures b % a == 0
  {
    var i := PowerOfTwoExponent(a);
    var j := PowerOfTwoExponent(b);
    if i > j {
      Pow2Monotone(j, i);
    }
    Pow2Add(i, j - i);
    DivModUnique(b, a, Pow2(j - i), 0);
  }

  lemma WordIsPower()
    ensures IsPowerOfTwo(WORD) && IsPowerOfTwo(SPAN)
  {
    Pow2Constants();
    Pow2IsPowerOfTwo(64);
    Pow2IsPowerOfTwo(61);
    assert Pow2(3) == 8;
    Pow2Add(3, 61);
  }

  lemma RoundUpOver(rest: nat, align: nat, m: nat)
    requires rest < align && m % align == 0
    ensures rest / align * align == 0 && (rest + m) / align * align == m
  {
    DivModUnique(rest, align, 0, rest);
    assert m == m / align * align;
    AddMultiple(rest, align, m / align);
  }

  lemma Wrapped(x: nat, m: nat)
    requires x < 2 * m
    ensures x % m == if x < m then x else x - m
  {
    DivModUnique(x, m, if x < m then 0 else 1, if x < m then x else x - m);
  }

  lemma RoundUpModulo(sum: nat, align: nat, m: nat)
    requires 0 < align <= m && sum < m + align && m % align == 0
    ensures sum % m / align * align == sum / align * align % m
  {
    RoundedDown(sum, align);
    Wrapped(sum, m);
    var r := sum / align * align;
    Wrapped(r, m);
    if sum >= m {
      RoundUpOver(sum - m, align, m);
      assert r == m;
    }
  }

  /** Rounding in 64-bit arithmetic is rounding and then wrapping. */
  lemma RoundUpWraps(value: nat, align: nat)
    requires IsPowerOfTwo(align) && align <= WORD && value < WORD
    ensures RoundUpToAlignment(value, align) == RoundUp(value, align) % WORD
  {
    hide And;
    WordIsPower();
    PowersDivide(align, WORD);
    RoundUpModulo(value + align - 1, align, WORD);
  }

  // ----- the next power of two

  /** The highest bit smeared over all lower ones. */
  function Smear(v: nat): nat {
    var a := Or(v, ShiftRight(v, 1));
    var b := Or(a, ShiftRight(a, 2));
    var c := Or(b, ShiftRight(b, 4));
    var d := Or(c, ShiftRight(c, 8));
    var e := Or(d, ShiftRight(d, 16));
    Or(e, ShiftRight(e, 32))
  }

  /** One more than that, in a 64-bit register. */
  function NextPowerOf2(v: nat): nat {
    (Smear(v) + 1) % Pow2(64)
  }

  predicate Bit(v: nat, i: nat) {
    if i == 0 then v % 2 == 1 else Bit(v / 2, i - 1)
  }

  lemma {:induction false} BitZero(i: nat)
    ensures !Bit(0, i)
  {
    if i > 0 {
      BitZero(i - 1);
    }
  }

  lemma {:induction false} BitOr(a: nat, b: nat, i: nat)
    ensures Bit(Or(a, b), i) == (Bit(a, i) || Bit(b, i))
  {
    if a == 0 || b == 0 {
      BitZero(i);
    } else if i > 0 {
      BitOr(a / 2, b / 2, i - 1);
    }
  }

  lemma {:induction false} BitShift(v: nat, n: nat, i: nat)
    ensures Bit(ShiftRight(v, n), i) == Bit(v, n + i)
    decreases n
  {
    if n > 0 {
      BitShift(v / 2, n - 1, i);
    }
  }

  ghost predicate SomeBit(v: nat, i: nat, n: nat) {
    exists j :: i <= j < i + n && Bit(v, j)
  }

  lemma SomeBitSplit(v: nat, i: nat, d: nat)
    ensures SomeBit(v, i, 2 * d) <==> SomeBit(v, i, d) || SomeBit(v, d + i, d)
  {
    hide Bit;
    if SomeBit(v, i, 2 * d) {
      var j :| i <= j < i + 2 * d && Bit(v, j);
      assert j < i + d ==> SomeBit(v, i, d);
      assert j >= i + d ==> SomeBit(v, d + i, d);
    }
  }

  /** Each bit of r says whether v has a bit among the d from there on. */
  ghost predicate Smeared(v: nat, r: nat, d: nat) {
    forall i: nat :: Bit(r, i) <==> SomeBit(v, i, d)
  }

  lemma SmearStep(v: nat, r: nat, d: nat)
    requires Smeared(v, r, d)
    ensures Smeared(v, Or(r, ShiftRight(r, d)), 2 * d)
  {
    forall i: nat
      ensures Bit(Or(r, ShiftRight(r, d)), i) <==> SomeBit(v, i, 2 * d)
    {
      BitOr(r, ShiftRight(r, d), i);
      BitShift(r, d, i);
      SomeBitSplit(v, i, d);
      hide Bit, Or, ShiftRight, SomeBit;
    }
  }

  lemma {:induction false} TopBit(v: nat)
    ensures forall i :: i >= BitLength(v) ==> !Bit(v, i)
    ensures BitLength(v) > 0 ==> v > 0 && Bit(v, BitLength(v) - 1) && Pow2(BitLength(v) - 1) <= v
    ensures v < Pow2(BitLength(v))
  {
    if v == 0 {
      forall i: nat
        ensures !Bit(v, i)
      {
        BitZero(i);
      }
    } else {
      TopBit(v / 2);
    }
  }

  lemma {:induction false} AllOnes(r: nat, n: nat)
    requires forall i: nat :: Bit(r, i) <==> i < n
    ensures r == Pow2(n) - 1
    decreases n
  {
    assert Bit(r, 0) <==> 0 < n;
    if n == 0 {
      if r > 0 {
        TopBit(r);
      }
    } else {
      forall i: nat
        ensures Bit(r / 2, i) <==> i < n - 1
      {
        assert Bit(r, i + 1) <==> i + 1 < n;
      }
      AllOnes(r / 2, n - 1);
    }
  }

  lemma {:induction false} LengthBound(v: nat, n: nat)
    requires v < Pow2(n)
    ensures BitLength(v) <= n
  {
    TopBit(v);
    if BitLength(v) > n {
      Pow2Monotone(n, BitLength(v) - 1);
    }
  }

  ghost predicate LeastPowerAbove(v: nat, r: nat) {
    IsPowerOfTwo(r) && r / 2 <= v < r
  }

  /** The result is the least power of two above v exactly when the highest bit is clear;
      with that bit set the addition wraps to 0. */
  lemma NextPowerOf2Least(v: nat)
    requires v < Pow2(64)
    ensures LeastPowerAbove(v, NextPowerOf2(v)) <==> v < Pow2(63)
    ensures v >= Pow2(63) ==> NextPowerOf2(v) == 0
  {
    hide Smear, Bit, BitLength, Pow2, Smeared, LeastPowerAbove;
    var n := BitLength(v);
    LengthBound(v, 64);
    TopBit(v);
    SmearWindow(v);
    SmearedOnes(v, Smear(v), n);
    NextOf(v, n);
  }

  lemma SmearWindow(v: nat)
    ensures Smeared(v, Smear(v), 64)
  {
    var a := Or(v, ShiftRight(v, 1));
    var b := Or(a, ShiftRight(a, 2));
    var c := Or(b, ShiftRight(b, 4));
    var d := Or(c, ShiftRight(c, 8));
    var e := Or(d, ShiftRight(d, 16));
    hide Or, ShiftRight, Bit;
    assert Smeared(v, v, 1);
    hide Smeared;
    SmearStep(v, v, 1);
    SmearStep(v, a, 2);
    SmearStep(v, b, 4);
    SmearStep(v, c, 8);
    SmearStep(v, d, 16);
    SmearStep(v, e, 32);
  }

  lemma SmearedOnes(v: nat, f: nat, n: nat)
    requires Smeared(v, f, 64) && n <= 64 && (n > 0 ==> Bit(v, n - 1)) && forall i :: i >= n ==> !Bit(v, i)
    ensures f == Pow2(n) - 1
  {
    hide Bit;
    forall i: nat
      ensures Bit(f, i) <==> i < n
    {
      if i < n {
        assert i <= n - 1 < i + 64 && Bit(v, n - 1);
        assert SomeBit(v, i, 64);
      }
    }
    AllOnes(f, n);
  }

  lemma NextShift(n: nat)
    ensures Pow2(n) / 2 == if n == 0 then 0 else Pow2(n - 1)
  {
  }

  /** What 2^n means for a number of n bits, in a 64-bit register. */
  lemma NextOf(v: nat, n: nat)
    requires n <= 64 && v < Pow2(n) && (n > 0 ==> Pow2(n - 1) <= v)
    ensures LeastPowerAbove(v, Pow2(n) % Pow2(64)) <==> v < Pow2(63)
    ensures v >= Pow2(63) ==> Pow2(n) % Pow2(64) == 0
  {
    hide And;
    Pow2IsPowerOfTwo(n);
    NextShift(n);
    hide Pow2;
    if n < 64 {
      Pow2Monotone(n, 64);
      Pow2Monotone(n, 63);
      DivModUnique(Pow2(n), Pow2(64), 0, Pow2(n));
    } else {
      DivModUnique(Pow2(n), Pow2(64), 1, 0);
    }
  }

  // ----- leading zeros

  lemma {:induction false} ShiftedLength(v: nat, n: nat)
    ensures ShiftRight(v, n) == 0 <==> BitLength(v) <= n
    ensures BitLength(v) >= n ==> BitLength(ShiftRight(v, n)) == BitLength(v) - n
    decreases n
  {
    if n > 0 {
      ShiftedLength(v / 2, n - 1);
    }
  }

  lemma {:induction false} OrCommutes(a: nat, b: nat)
    ensures Or(a, b) == Or(b, a)
  {
    if a > 0 && b > 0 {
      OrCommutes(a / 2, b / 2);
    }
  }

  /** A multiple of the next power of two has that bit free. */
  lemma OrFreeBit(q: nat, n: nat)
    ensures Or(q * Pow2(n + 1), Pow2(n)) == q * Pow2(n + 1) + Pow2(n)
  {
    OrCommutes(q * Pow2(n + 1), Pow2(n));
    Pow2Monotone(n, n + 1);
    OrDisjoint(Pow2(n), q, n + 1);
  }

  /** The zeros above the highest bit, by halving the window that holds it; a register has a
      power of two of digits. */
  method CountLeadingZeros(val: nat, digits: nat) returns (zeroBits: nat)
    requires IsPowerOfTwo(digits) && val < Pow2(digits)
    ensures zeroBits + BitLength(val) == digits
  {
    if val == 0 {
      return digits;
    }
    LengthBound(val, digits);
    hide BitLength, ShiftRight, Or, IsPowerOfTwo;
    ghost var n := PowerOfTwoExponent(digits);
    ghost var q := 0;
    zeroBits := 0;
    var v, shift := val, digits / 2;
    while shift != 0
      invariant 0 < BitLength(v) <= Pow2(n) && shift == (if n == 0 then 0 else Pow2(n - 1))
      invariant zeroBits == q * Pow2(n)
      invariant zeroBits + Pow2(n) - BitLength(v) == digits - BitLength(val)
      decreases n
    {
      n := n - 1;
      v, zeroBits, q := HalveWindow(v, zeroBits, shift, n, q);
      NextShift(n);
      shift := shift / 2;
    }
  }

  /** The highest bit is in the upper half of the window, or the upper half is all zeros. */
  method HalveWindow(v: nat, zeros: nat, shift: nat, ghost n: nat, ghost q: nat) returns (v': nat, zeros': nat, ghost q': nat)
    requires shift == Pow2(n) && 0 < BitLength(v) <= 2 * Pow2(n) && zeros == q * Pow2(n + 1)
    ensures 0 < BitLength(v') <= Pow2(n) && zeros' == q' * Pow2(n)
    ensures zeros' + Pow2(n) - BitLength(v') == zeros + 2 * Pow2(n) - BitLength(v)
  {
    ShiftedLength(v, shift);
    OrFreeBit(q, n);
    HalfWindows(q, n);
    hide BitLength, ShiftRight, Or, Pow2;
    var tmp := ShiftRight(v, shift);
    if tmp != 0 {
      v', zeros', q' := tmp, zeros, 2 * q;
    } else {
      v', zeros', q' := v, Or(zeros, shift), 2 * q + 1;
    }
  }

  lemma HalfWindows(q: nat, n: nat)
    ensures q * Pow2(n + 1) == 2 * q * Pow2(n) && (2 * q + 1) * Pow2(n) == q * Pow2(n + 1) + Pow2(n)
  {
    MulAssoc(2, q, Pow2(n));
    MulAdd(Pow2(n), 2 * q, 1);
  }
}
