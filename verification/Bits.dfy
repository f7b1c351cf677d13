/** Bit sequences, the numbers they spell, and the machine operations on them.

    A bit sequence is little-endian: index 0 is the least significant bit.  The
    machine's `&` and `|` are defined bit by bit on natural numbers, and the lemmas
    say when they coincide with remainder and addition. */
module Bits {

  function Pow2(n: nat): (p: nat)
    ensures p >= 1
  {
    if n == 0 then 1 else 2 * Pow2(n - 1)
  }

  function Nat(bits: seq<bool>): nat {
    if bits == [] then 0 else (if bits[0] then 1 else 0) + 2 * Nat(bits[1..])
  }

  /** The n low bits of v. */
  function BitsOf(v: nat, n: nat): (bits: seq<bool>)
    ensures |bits| == n
  {
    if n == 0 then [] else [v % 2 == 1] + BitsOf(v / 2, n - 1)
  }

  /** The bits of bytes, one after the other. */
  function BytesToBits(bytes: seq<nat>): (bits: seq<bool>)
    ensures |bits| == 8 * |bytes|
  {
    if bytes == [] then [] else BitsOf(bytes[0], 8) + BytesToBits(bytes[1..])
  }

  /** The machine's bitwise and. */
  function And(a: nat, b: nat): nat {
    if a == 0 || b == 0 then 0
    else (if a % 2 == 1 && b % 2 == 1 then 1 else 0) + 2 * And(a / 2, b / 2)
  }

  /** The machine's bitwise or. */
  function Or(a: nat, b: nat): nat {
    if a == 0 then b
    else if b == 0 then a
    else (if a % 2 == 1 || b % 2 == 1 then 1 else 0) + 2 * Or(a / 2, b / 2)
  }

  /** How many bits v takes. */
  function BitLength(v: nat): nat {
    if v == 0 then 0 else 1 + BitLength(v / 2)
  }

  /** `~word_t(0) >> (64 - n)`: the n low bits set. */
  function Mask(n: nat): (m: nat)
    ensures m == Pow2(n) - 1
  {
    if n == 0 then 0 else 1 + 2 * Mask(n - 1)
  }

  /** `x >> n`, one bit at a time. */
  function ShiftRight(x: nat, n: nat): nat {
    if n == 0 then x else ShiftRight(x / 2, n - 1)
  }

  /** `x << n` in a register of the given width, one bit at a time. */
  function ShiftLeft(x: nat, n: nat, width: nat): nat
    decreases n
  {
    if n == 0 then x else ShiftLeft((2 * x) % Pow2(width), n - 1, width)
  }

  lemma MulAssoc(a: int, b: int, c: int)
    ensures a * b * c == a * (b * c)
  {
  }

  lemma MulAdd(a: int, b: int, c: int)
    ensures a * (b + c) == a * b + a * c
  {
  }

  lemma MulOrder(a: nat, b: int, c: int)
    requires b <= c
    ensures a * b <= a * c
  {
  }

  lemma {:induction false} Pow2Add(a: nat, b: nat)
    ensures Pow2(a + b) == Pow2(a) * Pow2(b)
  {
    if a == 0 {
    } else {
      Pow2Add(a - 1, b);
      MulAssoc(2, Pow2(a - 1), Pow2(b));
    }
  }

  lemma {:induction false} Pow2Monotone(a: nat, b: nat)
    requires a <= b
    ensures Pow2(a) <= Pow2(b)
    ensures a < b ==> Pow2(a) < Pow2(b)
  {
    if a == b {
    } else {
      Pow2Monotone(a, b - 1);
    }
  }

  lemma Pow2Constants()
    ensures Pow2(5) == 32 && Pow2(6) == 64 && Pow2(8) == 256
    ensures Pow2(32) == 0x1_0000_0000 && Pow2(64) == 0x1_0000_0000_0000_0000
  {
    assert Pow2(5) == 32;
    assert Pow2(8) == 256;
    Pow2Add(8, 8);
    Pow2Add(16, 16);
    Pow2Add(32, 32);
  }

  lemma {:induction false} NatBound(bits: seq<bool>)
    ensures Nat(bits) < Pow2(|bits|)
  {
    if bits == [] {
    } else {
      NatBound(bits[1..]);
    }
  }

  lemma {:induction false} NatAppend(a: seq<bool>, b: seq<bool>)
    ensures Nat(a + b) == Nat(a) + Pow2(|a|) * Nat(b)
  {
    if a == [] {
      assert a + b == b;
    } else {
      assert (a + b)[1..] == a[1..] + b;
      NatAppend(a[1..], b);
      MulAssoc(2, Pow2(|a| - 1), Nat(b));
    }
  }

  /** Masking and shifting a number is taking and dropping its bits. */
  lemma NatSplit(bits: seq<bool>, n: nat)
    requires n <= |bits|
    ensures Nat(bits[..n]) == Nat(bits) % Pow2(n)
    ensures Nat(bits[n..]) == Nat(bits) / Pow2(n)
  {
    assert bits == bits[..n] + bits[n..];
    NatAppend(bits[..n], bits[n..]);
    NatBound(bits[..n]);
    DivModUnique(Nat(bits), Pow2(n), Nat(bits[n..]), Nat(bits[..n]));
  }

  lemma DivModUnique(x: int, d: nat, q: int, r: nat)
    requires r < d && x == r + d * q
    ensures x / d == q && x % d == r
  {
    var k := x / d - q;
    MulAdd(d, x / d, -q);
    assert d * k + x % d == r by {
      assert d * -q == -(d * q);
    }
    if k >= 1 {
      MulOrder(d, 1, k);
    } else if k <= -1 {
      MulOrder(d, k, -1);
    }
  }

  /** The quotient and remainder of v come from those of v / 2. */
  lemma HalfDivMod(v: nat, p: nat)
    requires p > 0
    ensures v / (2 * p) == (v / 2) / p
    ensures v % (2 * p) == 2 * ((v / 2) % p) + v % 2
  {
    var q, r := (v / 2) / p, (v / 2) % p;
    MulAssoc(2, p, q);
    DivModUnique(v, 2 * p, q, 2 * r + v % 2);
  }

  lemma {:induction false} NatOfBits(v: nat, n: nat)
    ensures Nat(BitsOf(v, n)) == v % Pow2(n)
  {
    if n == 0 {
      assert v % 1 == 0;
    } else {
      NatOfBits(v / 2, n - 1);
      assert BitsOf(v, n)[1..] == BitsOf(v / 2, n - 1);
      HalfDivMod(v, Pow2(n - 1));
    }
  }

  /** A value that fits is spelled exactly by its bits. */
  lemma NatOfFittingBits(v: nat, n: nat)
    requires v < Pow2(n)
    ensures Nat(BitsOf(v, n)) == v
  {
    NatOfBits(v, n);
    DivModUnique(v, Pow2(n), 0, v);
  }

  /** `a & Mask(n)` keeps the n low bits of a. */
  lemma {:induction false} AndMask(a: nat, n: nat)
    ensures And(a, Mask(n)) == a % Pow2(n)
  {
    if n == 0 {
      assert a % 1 == 0;
    } else {
      HalfDivMod(a, Pow2(n - 1));
      AndMask(a / 2, n - 1);
      assert Mask(n) % 2 == 1 && Mask(n) / 2 == Mask(n - 1);
    }
  }

  /** Testing the top bit of an (n + 1)-bit number. */
  lemma {:induction false} AndTopBit(a: nat, n: nat)
    requires a < Pow2(n + 1)
    ensures And(a, Pow2(n)) == 0 <==> a < Pow2(n)
  {
    if a == 0 {
    } else if n == 0 {
      assert Pow2(1) == 2 && a == 1;
      assert And(1, 1) == 1;
    } else {
      AndTopBit(a / 2, n - 1);
      assert Pow2(n) % 2 == 0 && Pow2(n) / 2 == Pow2(n - 1);
    }
  }

  /** Bits that do not overlap are joined by `|` as by addition. */
  lemma {:induction false} OrDisjoint(a: nat, b: nat, n: nat)
    requires a < Pow2(n)
    ensures Or(a, b * Pow2(n)) == a + b * Pow2(n)
  {
    if a == 0 || b == 0 {
    } else {
      var c := b * Pow2(n - 1);
      assert b * Pow2(n) == 2 * c;
      OrDisjoint(a / 2, b, n - 1);
      assert (2 * c) / 2 == c && (2 * c) % 2 == 0;
    }
  }

  lemma {:induction false} ShiftRightDivides(x: nat, n: nat)
    ensures ShiftRight(x, n) == x / Pow2(n)
  {
    if n == 0 {
      assert x / 1 == x;
    } else {
      ShiftRightDivides(x / 2, n - 1);
      HalfDivMod(x, Pow2(n - 1));
    }
  }

  /** A left shift in a register keeps the bits that stay inside it. */
  lemma {:induction false} ShiftLeftDrops(x: nat, n: nat, width: nat)
    requires n <= width && x < Pow2(width)
    ensures ShiftLeft(x, n, width) == (x % Pow2(width - n)) * Pow2(n)
    decreases n
  {
    if n == 0 {
      DivModUnique(x, Pow2(width), 0, x);
    } else {
      assert Pow2(n) == 2 * Pow2(n - 1);
      hide Pow2;
      ShiftLeftDrops((2 * x) % Pow2(width), n - 1, width);
      ModOfMod(2 * x, width, width - n + 1);
      DoubleMod(x, width - n + 1);
      MulAssoc(x % Pow2(width - n), 2, Pow2(n - 1));
    }
  }

  lemma DoubleMod(x: nat, n: nat)
    requires n > 0
    ensures (2 * x) % Pow2(n) == 2 * (x % Pow2(n - 1))
  {
    HalfDivMod(2 * x, Pow2(n - 1));
  }

  lemma ModOfMod(x: int, big: nat, small: nat)
    requires small <= big
    ensures (x % Pow2(big)) % Pow2(small) == x % Pow2(small)
  {
    var d, e := Pow2(small), Pow2(big - small);
    Pow2Add(small, big - small);
    ModOfModProduct(x, d, e);
  }

  lemma ModOfModProduct(x: int, d: nat, e: nat)
    requires d > 0 && e > 0 && d * e > 0
    ensures (x % (d * e)) % d == x % d
  {
    var q, r := x / (d * e), x % (d * e);
    MulAssoc(d, e, q);
    MulAdd(d, e * q, r / d);
    DivModUnique(x, d, e * q + r / d, r % d);
  }

  lemma {:induction false} ShiftedOne(n: nat, width: nat)
    requires n < width
    ensures ShiftLeft(1, n, width) == Pow2(n)
  {
    Pow2Monotone(0, width - n);
    Pow2Monotone(width - n, width);
    ShiftLeftDrops(1, n, width);
    DivModUnique(1, Pow2(width - n), 0, 1);
  }

  /** Joining a shifted piece onto the bits below it is addition in the register. */
  lemma OrShifted(low: nat, piece: nat, n: nat, width: nat)
    requires low < Pow2(n) && n <= width && piece < Pow2(width)
    ensures Or(low, ShiftLeft(piece, n, width)) == (low + Pow2(n) * piece) % Pow2(width)
  {
    hide Or, ShiftLeft;
    ShiftLeftDrops(piece, n, width);
    Pow2Add(n, width - n);
    OrDisjoint(low, piece % Pow2(width - n), n);
    AddShiftedMod(low, piece, Pow2(n), Pow2(width - n));
  }

  lemma AddShiftedMod(low: nat, x: nat, p: nat, d: nat)
    requires low < p && d > 0 && p * d > 0
    ensures (low + p * x) % (p * d) == low + (x % d) * p
  {
    var q, r := x / d, x % d;
    MulAdd(p, d * q, r);
    MulAssoc(p, d, q);
    MulAdd(p, r, 1);
    MulOrder(p, r + 1, d);
    DivModUnique(low + p * x, p * d, q, low + p * r);
  }

  lemma ShiftedSumBound(low: nat, piece: nat, n: nat, k: nat)
    requires low < Pow2(n) && piece < Pow2(k)
    ensures low + Pow2(n) * piece < Pow2(n + k)
  {
    Pow2Add(n, k);
    MulAdd(Pow2(n), piece, 1);
    MulOrder(Pow2(n), piece + 1, Pow2(k));
  }
}
