/** Integers of a fixed width as text: the parser and the printer undo each other. */
module IntegerText {
  import opened Bits

  const DIGITS := "0123456789ABCDEF"
  const NO_DIGIT := 0xFFFF_FFFF

  predicate IsRadix(radix: nat) {
    radix == 2 || radix == 8 || radix == 10 || radix == 16
  }

  /** Subtraction in an unsigned 32-bit word. */
  function Minus(c: char, base: char): nat {
    (c as int - base as int) % 0x1_0000_0000
  }

  function DecimalDigit(c: char, radix: nat): nat {
    if Minus(c, '0') < radix then Minus(c, '0') else NO_DIGIT
  }

  /** What a character is worth, in either case of letter; NO_DIGIT when it is none. */
  function Digit(c: char, radix: nat): nat {
    if radix == 16 then
      if Minus(c, '0') <= 9 then Minus(c, '0')
      else if Minus(c, 'A') <= 5 then Minus(c, 'A') + 10
      else if Minus(c, 'a') <= 5 then Minus(c, 'a') + 10
      else DecimalDigit(c, 10)
    else DecimalDigit(c, radix)
  }

  predicate AllDigits(s: string, radix: nat) {
    forall i :: 0 <= i < |s| ==> Digit(s[i], radix) < radix
  }

  lemma DigitOfChar(d: nat, radix: nat)
    requires IsRadix(radix) && d < radix
    ensures Digit(DIGITS[d], radix) == d
  {
  }

  /** Digits of either case of letter, and nothing else, have the worth they are read with. */
  lemma DigitMeans(c: char, radix: nat)
    requires IsRadix(radix)
    ensures '0' <= c <= '9' && c as nat - 48 < radix ==> Digit(c, radix) == c as nat - 48
    ensures radix == 16 && 'A' <= c <= 'F' ==> Digit(c, radix) == c as nat - 55
    ensures radix == 16 && 'a' <= c <= 'f' ==> Digit(c, radix) == c as nat - 87
    ensures Digit(c, radix) < radix ==>
      ('0' <= c <= '9' && c as nat - 48 < radix) || (radix == 16 && ('A' <= c <= 'F' || 'a' <= c <= 'f'))
  {
  }

  // ----- text and value

  function Value(s: string, radix: nat): nat {
    if s == "" then 0 else
      var k := |s| - 1; Value(s[..k], radix) * radix + Digit(s[k], radix)
  }

  /** The digits of n, the most significant first; none for 0. */
  function Text(n: nat, radix: nat): string
    requires IsRadix(radix)
  {
    if n == 0 then "" else Text(n / radix, radix) + [DIGITS[n % radix]]
  }

  lemma ValueSnoc(s: string, c: char, radix: nat)
    ensures Value(s + [c], radix) == Value(s, radix) * radix + Digit(c, radix)
  {
    assert (s + [c])[..|s|] == s;
  }

  lemma DivMod(n: nat, d: nat)
    requires d > 0
    ensures n == (n / d) * d + n % d && n % d < d
  {
  }

  lemma Shrinks(n: nat, d: nat)
    requires d > 1 && n > 0
    ensures n / d < n
  {
    DivMod(n, d);
    MulOrder(n / d, 2, d);
  }

  lemma {:induction false} TextValue(n: nat, radix: nat)
    requires IsRadix(radix)
    ensures AllDigits(Text(n, radix), radix) && Value(Text(n, radix), radix) == n
  {
    if n > 0 {
      DivMod(n, radix);
      var q, r := n / radix, n % radix;
      Shrinks(n, radix);
      DigitOfChar(r, radix);
      hide Digit, Value;
      TextValue(q, radix);
      ValueSnoc(Text(q, radix), DIGITS[r], radix);
    } else {
      assert Value("", radix) == 0;
    }
  }

  /** A text of several digits stands for a large number: b bits for each digit after the
      first. */
  lemma {:induction false} TextLow(n: nat, radix: nat, b: nat)
    requires IsRadix(radix) && n > 0 && Pow2(b) <= radix
    ensures |Text(n, radix)| > 0 && Pow2(Product(b, |Text(n, radix)| - 1)) <= n
  {
    DivMod(n, radix);
    Shrinks(n, radix);
    var q := n / radix;
    var more := |Text(q, radix)|;
    assert |Text(n, radix)| == more + 1;
    hide Text, Digit;
    if q > 0 {
      TextLow(q, radix, b);
      Pow2Add(Product(b, more - 1), b);
      Bigger(Pow2(b), Pow2(Product(b, more - 1)), radix, q);
    }
  }

  /** a * k by repeated addition. */
  function Product(a: nat, k: nat): nat {
    if k == 0 then 0 else Product(a, k - 1) + a
  }

  lemma Bigger(a: nat, b: nat, c: nat, d: nat)
    requires a <= c && b <= d
    ensures b * a <= c * d
  {
    MulOrder(b, a, c);
    MulOrder(c, b, d);
  }

  lemma {:induction false} ProductTimes(a: nat, k: nat)
    ensures Product(a, k) == a * k
  {
    if k > 0 {
      ProductTimes(a, k - 1);
      MulAdd(a, k - 1, 1);
    }
  }

  function ShiftFor(radix: nat): nat {
    if radix == 16 then 4 else if radix == 8 then 3 else if radix == 2 then 1 else 0
  }

  /** What the parser asserts of a text of so many digits: the width has room for them, and
      no shift is wider than the value. */
  predicate Fits(digits: nat, width: nat, radix: nat) {
    && digits > 0
    && (radix == 2 ==> digits <= width)
    && (radix == 8 ==> (digits - 1) * 3 <= width)
    && (radix == 16 ==> (digits - 1) * 4 <= width)
    && (radix == 10 ==> (digits - 1) * 64 / 22 <= width)
    && (digits > 1 ==> ShiftFor(radix) <= width)
  }

  function BitsPerDigit(radix: nat): nat {
    if radix == 10 then 3 else ShiftFor(radix)
  }

  lemma EnoughRoom(more: nat, width: nat, radix: nat)
    requires IsRadix(radix) && BitsPerDigit(radix) * more < width
    ensures Fits(more + 1, width, radix)
  {
    if radix == 10 {
      assert 3 * more < width;
      assert more * 64 / 22 <= 3 * more;
    }
  }

  lemma TextFits(n: nat, width: nat, radix: nat)
    requires IsRadix(radix) && 0 < n < Pow2(width)
    ensures Fits(|Text(n, radix)|, width, radix)
  {
    var b := BitsPerDigit(radix);
    assert Pow2(1) == 2 && Pow2(2) == 4 && Pow2(3) == 8 && Pow2(4) == 16;
    assert Pow2(b) <= radix;
    hide Text, Product, Fits, BitsPerDigit, Pow2;
    TextLow(n, radix, b);
    var more := |Text(n, radix)| - 1;
    ProductTimes(b, more);
    if Product(b, more) >= width {
      Pow2Monotone(width, Product(b, more));
    }
    EnoughRoom(more, width, radix);
  }

  /** The digits of a text, the last one for the ones: below ten as figures, then as capital
      letters. */
  lemma TextLast(n: nat, radix: nat)
    requires IsRadix(radix) && n > 0
    ensures Text(n, radix) != ""
    ensures var d, k := n % radix, |Text(n, radix)| - 1;
      && Text(n, radix)[k] == (if d < 10 then (48 + d) as char else (55 + d) as char)
      && Text(n, radix)[..k] == Text(n / radix, radix)
  {
    DigitChar(n % radix);
    var text, last := Text(n / radix, radix), DIGITS[n % radix];
    assert Text(n, radix) == text + [last];
    hide Text;
    assert (text + [last])[..|text|] == text;
  }

  lemma DigitChar(d: nat)
    requires d < 16
    ensures DIGITS[d] == if d < 10 then (48 + d) as char else (55 + d) as char
  {
  }

  // ----- the round trip on values

  /** Whether the value stands for a negative number, and its size. */
  predicate Negative(width: nat, val: nat, isSigned: bool) {
    isSigned && val >= Pow2(width) - val
  }

  function Magnitude(width: nat, val: nat, isSigned: bool): nat
    requires val < Pow2(width)
  {
    if Negative(width, val, isSigned) then Pow2(width) - val else val
  }

  /** The text of a value: sign, prefix, digits. */
  function Printed(width: nat, val: nat, radix: nat, isSigned: bool, prefix: string): string
    requires IsRadix(radix) && val < Pow2(width)
  {
    if val == 0 then prefix + "0"
    else (if Negative(width, val, isSigned) then "-" else "") + prefix + Text(Magnitude(width, val, isSigned), radix)
  }

  function Prefix(radix: nat, formatAsCLiteral: bool): string {
    if !formatAsCLiteral then ""
    else if radix == 2 then "0b" else if radix == 8 then "0" else if radix == 16 then "0x" else ""
  }

  predicate Signed(s: string) {
    s != "" && (s[0] == '-' || s[0] == '+')
  }

  function Body(s: string): string {
    if Signed(s) then s[1..] else s
  }

  /** The number a text stands for, in the given width. */
  function Parsed(s: string, width: nat, radix: nat): nat
    requires s != ""
  {
    var v: int := Value(Body(s), radix);
    (if s[0] == '-' then -v else v) % Pow2(width)
  }

  predicate Parseable(s: string, width: nat, radix: nat) {
    s != "" && AllDigits(Body(s), radix) && Fits(|Body(s)|, width, radix)
  }

  /** A minus sign negates the number behind it and a plus sign does not. */
  lemma SignsMean(body: string, width: nat, radix: nat)
    requires body != "" && body[0] != '-' && body[0] != '+'
    ensures Parsed(body, width, radix) == Value(body, radix) % Pow2(width)
    ensures Parsed("+" + body, width, radix) == Value(body, radix) % Pow2(width)
    ensures var v: int := Value(body, radix); Parsed("-" + body, width, radix) == (-v) % Pow2(width)
  {
    hide Value, Pow2;
    assert ("+" + body)[1..] == body && ("-" + body)[1..] == body;
  }

  /** A signed value from half the range on is printed as minus the distance to its end; a
      prefix stands behind the sign and tells the radix. */
  lemma PrintedMeans(width: nat, val: nat, radix: nat, isSigned: bool, prefix: string)
    requires IsRadix(radix) && 0 < val < Pow2(width)
    ensures Printed(width, val, radix, isSigned, prefix) ==
      if isSigned && 2 * val >= Pow2(width) then "-" + prefix + Text(Pow2(width) - val, radix) else prefix + Text(val, radix)
    ensures Prefix(2, true) == "0b" && Prefix(8, true) == "0" && Prefix(16, true) == "0x" && Prefix(10, true) == ""
    ensures Prefix(radix, false) == ""
  {
    hide Pow2, Text;
    assert "" + prefix == prefix;
  }

  lemma NoSignDigit(s: string, radix: nat)
    requires IsRadix(radix) && AllDigits(s, radix)
    ensures !Signed(s)
  {
    if s != "" {
      assert Digit(s[0], radix) < radix;
    }
  }

  lemma SmallMod(v: int, m: nat)
    requires 0 < m
    ensures 0 <= v < m ==> v % m == v
    ensures 0 < v < m ==> (-v) % m == m - v
  {
    if 0 <= v < m {
      DivModUnique(v, m, 0, v);
    }
    if 0 < v < m {
      DivModUnique(-v, m, -1, m - v);
    }
  }

  /** Every value printed in a radix, signed or not, is a text that parser accepts, and
      parses to the same value. */
  lemma RoundTrip(width: nat, val: nat, radix: nat, isSigned: bool)
    requires 1 <= width <= 64 && IsRadix(radix) && val < Pow2(width)
    ensures var s := Printed(width, val, radix, isSigned, "");
      Parseable(s, width, radix) && Parsed(s, width, radix) == val
  {
    if val == 0 {
      ZeroTrip(width, radix);
      assert "" + "0" == "0";
    } else {
      var sign := if Negative(width, val, isSigned) then "-" else "";
      assert sign + "" == sign;
      DigitsTrip(width, Magnitude(width, val, isSigned), radix, Negative(width, val, isSigned));
    }
  }

  lemma ZeroTrip(width: nat, radix: nat)
    requires width >= 1 && IsRadix(radix)
    ensures Parseable("0", width, radix) && Parsed("0", width, radix) == 0
  {
    assert "" + ['0'] == "0";
    ValueSnoc("", '0', radix);
    SmallMod(0, Pow2(width));
  }

  lemma DigitsTrip(width: nat, n: nat, radix: nat, negative: bool)
    requires IsRadix(radix) && 0 < n < Pow2(width)
    ensures var s := (if negative then "-" else "") + Text(n, radix);
      && Parseable(s, width, radix)
      && Parsed(s, width, radix) == if negative then Pow2(width) - n else n
  {
    var text := Text(n, radix);
    hide Pow2, Text, Value, Digit, Fits;
    TextValue(n, radix);
    TextFits(n, width, radix);
    NoSignDigit(text, radix);
    SignedBody(text, negative);
    hide Body, Signed, AllDigits, IsRadix, Parsed;
    var s := (if negative then "-" else "") + text;
    assert Parseable(s, width, radix);
    ParsedIs(s, n, width, radix, negative);
  }

  lemma ParsedIs(s: string, n: nat, width: nat, radix: nat, negative: bool)
    requires s != "" && Value(Body(s), radix) == n && (s[0] == '-') == negative && 0 < n < Pow2(width)
    ensures Parsed(s, width, radix) == if negative then Pow2(width) - n else n
  {
    hide Pow2, Value, Body;
    SmallMod(n, Pow2(width));
  }

  lemma SignedBody(text: string, negative: bool)
    requires text != "" && !Signed(text)
    ensures var s := (if negative then "-" else "") + text;
      s != "" && Body(s) == text && (s[0] == '-') == negative
  {
    if negative {
      assert ("-" + text)[1..] == text;
    } else {
      assert "" + text == text;
    }
  }

  // ----- the integer class

  const WORD := 64

  class MPInt {
    var bitWidth: nat
    var val: nat

    ghost predicate Valid()
      reads this
    {
      1 <= bitWidth <= WORD && val < Pow2(bitWidth)
    }

    constructor (numBits: nat, value: nat)
      requires 1 <= numBits <= WORD && value < Pow2(WORD)
      ensures Valid() && bitWidth == numBits && val == value % Pow2(numBits)
    {
      bitWidth, val := numBits, value;
      new;
      ClearUnusedBits();
    }

    /** Drop the bits beyond the width. */
    method ClearUnusedBits()
      requires 1 <= bitWidth <= WORD && val < Pow2(WORD)
      modifies this`val
      ensures Valid() && val == old(val) % Pow2(bitWidth)
    {
      hide Pow2, And, ShiftRight, Mask;
      WordMask(bitWidth);
      AndMask(val, bitWidth);
      val := And(val, ShiftRight(Pow2(WORD) - 1, WORD - bitWidth));
      ModBound(old(val), Pow2(bitWidth));
    }

    method MultiplyAssign(rhs: MPInt)
      requires Valid() && rhs.val < Pow2(WORD)
      modifies this`val
      ensures Valid() && val == (old(val) * old(rhs.val)) % Pow2(bitWidth)
    {
      hide Pow2;
      var x: nat := Multiply(val, rhs.val);
      val := x % Pow2(WORD);
      ModBound(x, Pow2(WORD));
      ModOfMod(x, WORD, bitWidth);
      ClearUnusedBits();
    }

    method AddAssign(rhs: MPInt)
      requires 1 <= bitWidth <= WORD && val < Pow2(WORD)
      modifies this`val
      ensures Valid() && val == (old(val) + old(rhs.val)) % Pow2(bitWidth)
    {
      hide Pow2;
      var x: nat := val + rhs.val;
      val := x % Pow2(WORD);
      ModBound(x, Pow2(WORD));
      ModOfMod(x, WORD, bitWidth);
      ClearUnusedBits();
    }

    /** The bits shifted beyond the width stay until the next operation clears them. */
    method ShiftLeftAssign(shift: nat)
      requires Valid() && shift <= bitWidth
      modifies this`val
      ensures val < Pow2(WORD) && val % Pow2(bitWidth) == (old(val) * Pow2(shift)) % Pow2(bitWidth)
    {
      ShiftedMod(val, shift, bitWidth);
      if shift >= bitWidth {
        val := 0;
      } else {
        val := ShiftLeft(val, shift, WORD);
      }
    }

    method Decrement()
      requires Valid()
      modifies this`val
      ensures Valid() && val == (old(val) - 1) % Pow2(bitWidth)
    {
      hide Pow2;
      ModBound(val - 1, Pow2(WORD));
      ModOfMod(val - 1, WORD, bitWidth);
      val := (val - 1) % Pow2(WORD);
      ClearUnusedBits();
    }

    method FlipAllBits()
      requires Valid()
      modifies this`val
      ensures Valid() && val == Pow2(bitWidth) - 1 - old(val)
    {
      hide Pow2;
      Complement(val, bitWidth);
      val := Pow2(WORD) - 1 - val;
      ClearUnusedBits();
    }

    /** Read a text, with sign, into a value that is zero yet. */
    method FromString(numBits: nat, str: string, radix: nat)
      requires Valid() && val == 0 && numBits == bitWidth && IsRadix(radix)
      requires Parseable(str, numBits, radix)
      modifies this`val
      ensures Valid() && val == Parsed(str, bitWidth, radix)
    {
      var isNeg := str[0] == '-';
      var p := if isNeg || str[0] == '+' then 1 else 0;
      var body := str[p..];
      assert body == Body(str);
      ReadDigits(body, radix);
      if isNeg {
        NegatedMod(Value(body, radix), Pow2(bitWidth));
        Decrement();
        FlipAllBits();
      }
    }

    /** The loop over the digits. */
    method ReadDigits(body: string, radix: nat)
      requires Valid() && val == 0 && IsRadix(radix)
      requires AllDigits(body, radix) && Fits(|body|, bitWidth, radix)
      modifies this`val
      ensures Valid() && val == Value(body, radix) % Pow2(bitWidth)
    {
      hide Pow2;
      RadixSmall(radix);
      var mpDigit := new MPInt(bitWidth, 0);
      var mpRadix := new MPInt(bitWidth, radix);
      var i := 0;
      SmallMod(0, Pow2(bitWidth));
      assert body[..0] == "";
      while i < |body|
        invariant i <= |body| && Valid() && val == Value(body[..i], radix) % Pow2(bitWidth)
        invariant mpRadix.Valid() && mpRadix.val == radix % Pow2(bitWidth) && mpRadix.bitWidth == bitWidth
      {
        hide Digit, Value, Fits, AllDigits, IsRadix;
        NextValue(body, i, radix);
        ShiftIn(Digit(body[i], radix), |body|, mpDigit, mpRadix, radix, Value(body[..i], radix));
        i := i + 1;
      }
      assert body[..i] == body;
    }

    /** One turn: make room for the digit, unless it is the only one, and add it. */
    method ShiftIn(digit: nat, slen: nat, mpDigit: MPInt, mpRadix: MPInt, radix: nat, ghost v: nat)
      requires Valid() && val == v % Pow2(bitWidth) && Fits(slen, bitWidth, radix) && (slen == 1 ==> v == 0)
      requires IsRadix(radix) && mpRadix.Valid() && mpRadix.val == radix % Pow2(bitWidth) && mpRadix.bitWidth == bitWidth
      requires mpDigit != this && mpRadix != this && mpDigit != mpRadix
      modifies this`val, mpDigit`val
      ensures Valid() && val == (v * radix + digit) % Pow2(bitWidth)
    {
      var shift := ShiftFor(radix);
      assert slen > 1 ==> shift <= bitWidth;
      assert slen > 0;
      hide Fits, ShiftFor, Pow2;
      if slen > 1 {
        if shift != 0 {
          RadixShift(radix);
          ShiftRoom(shift, v);
        } else {
          MultiplyRoom(mpRadix, radix, v);
        }
      } else {
        NoRoom(v, radix);
      }
      AddDigit(digit, mpDigit, v * radix);
    }

    lemma NoRoom(v: nat, radix: nat)
      requires Valid() && v == 0 && val == v % Pow2(bitWidth)
      ensures val < Pow2(WORD) && val % Pow2(bitWidth) == (v * radix) % Pow2(bitWidth)
    {
      hide Pow2;
      Pow2Monotone(bitWidth, WORD);
      ModTwice(v, Pow2(bitWidth));
      assert v * radix == 0;
    }

    method AddDigit(digit: nat, mpDigit: MPInt, ghost x: int)
      requires 1 <= bitWidth <= WORD && val < Pow2(WORD) && val % Pow2(bitWidth) == x % Pow2(bitWidth) && mpDigit != this
      modifies this`val, mpDigit`val
      ensures Valid() && val == (x + digit) % Pow2(bitWidth)
    {
      hide Pow2;
      AddMod(val, x, digit, Pow2(bitWidth));
      mpDigit.val := digit;
      AddAssign(mpDigit);
    }

    method ShiftRoom(shift: nat, ghost v: nat)
      requires Valid() && shift <= bitWidth && val == v % Pow2(bitWidth)
      modifies this`val
      ensures val < Pow2(WORD) && val % Pow2(bitWidth) == (v * Pow2(shift)) % Pow2(bitWidth)
    {
      hide *;
      TimesMod(v, Pow2(shift), Pow2(bitWidth));
      ShiftLeftAssign(shift);
    }

    method MultiplyRoom(mpRadix: MPInt, radix: nat, ghost v: nat)
      requires Valid() && val == v % Pow2(bitWidth) && mpRadix != this
      requires mpRadix.Valid() && mpRadix.val == radix % Pow2(bitWidth) && mpRadix.bitWidth == bitWidth
      modifies this`val
      ensures Valid() && val < Pow2(WORD) && val % Pow2(bitWidth) == (v * radix) % Pow2(bitWidth)
    {
      hide Pow2;
      Pow2Monotone(bitWidth, WORD);
      TimesMod(v, radix, Pow2(bitWidth));
      TimesMod(radix, val, Pow2(bitWidth));
      MultiplyAssign(mpRadix);
      ModTwice(v * radix, Pow2(bitWidth));
    }

    function SExtValue(): int
      requires Valid()
      reads this
    {
      SExtend(val, bitWidth)
    }

    /** Write the value as text, from the last digit to the first into a buffer of 65
        characters, which is always enough.  The least value of the full width, signed, has
        no magnitude of its own type and is shut out. */
    method ToString(radix: nat, isSigned: bool, formatAsCLiteral: bool) returns (str: string)
      requires Valid() && IsRadix(radix)
      requires isSigned ==> SExtValue() + Pow2(WORD - 1) != 0
      ensures str == Printed(bitWidth, val, radix, isSigned, Prefix(radix, formatAsCLiteral))
    {
      var prefix := Prefix(radix, formatAsCLiteral);
      if val == 0 {
        return prefix + "0";
      }
      var sign, n := SignAndMagnitude(isSigned);
      var digits := WriteDigits(n, radix);
      str := sign + prefix + digits;
    }

    method SignAndMagnitude(isSigned: bool) returns (sign: string, n: nat)
      requires Valid() && val != 0
      requires isSigned ==> SExtValue() + Pow2(WORD - 1) != 0
      ensures n == Magnitude(bitWidth, val, isSigned) && 0 < n < Pow2(WORD)
      ensures sign == if Negative(bitWidth, val, isSigned) then "-" else ""
    {
      sign, n := "", val;
      hide Pow2;
      Pow2Monotone(bitWidth, WORD);
      if isSigned {
        SExtendMeans(val, bitWidth);
        var i := SExtValue();
        if i >= 0 {
          n := i;
        } else {
          sign := "-";
          n := -i;
        }
      }
    }
  }

  method WriteDigits(number: nat, radix: nat) returns (digits: string)
    requires IsRadix(radix) && 0 < number < Pow2(WORD)
    ensures digits == Text(number, radix)
  {
    hide Text, Pow2;
    TextFits(number, WORD, radix);
    assert |Text(number, radix)| <= 65;
    hide Fits, IsRadix;
    var buff := new char[65];
    var buffPtr: nat := 65;
    var n: nat := number;
    ghost var tail := "";
    while n != 0
      invariant buffPtr <= 65 && |tail| == 65 - buffPtr && Text(number, radix) == Text(n, radix) + tail
      invariant forall i :: 0 <= i < |tail| ==> buff[buffPtr + i] == tail[i]
    {
      TextSplit(n, radix);
      var digit := DIGITS[n % radix];
      buffPtr := buffPtr - 1;
      buff[buffPtr] := digit;
      tail := [digit] + tail;
      n := n / radix;
    }
    TextSplit(0, radix);
    digits := buff[buffPtr..];
  }

  lemma TextSplit(n: nat, radix: nat)
    requires IsRadix(radix)
    ensures radix > 1
    ensures if n == 0 then Text(n, radix) == "" else
      n % radix < 16 && n / radix < n && Text(n, radix) == Text(n / radix, radix) + [DIGITS[n % radix]]
  {
    if n > 0 {
      Shrinks(n, radix);
    }
  }

  /** A word read as a signed number. */
  function AsSigned(x: nat): int {
    if x >= Pow2(WORD - 1) then x - Pow2(WORD) else x
  }

  /** Shifted up to the top of the word and, with the sign, down again. */
  function SExtend(val: nat, width: nat): int
    requires 1 <= width <= WORD
  {
    AsSigned(ShiftLeft(val, WORD - width, WORD)) / Pow2(WORD - width)
  }

  lemma SExtendMeans(val: nat, width: nat)
    requires 1 <= width <= WORD && val < Pow2(width)
    ensures SExtend(val, width) == if Negative(width, val, true) then val - Pow2(width) else val
  {
    ShiftedUp(val, width);
    HalfWord(width);
    WordSplit(width);
    hide Pow2, ShiftLeft;
    SignBit(Pow2(WORD - width), Pow2(width), val, Pow2(WORD - 1));
    ShiftedDown(Pow2(WORD - width), Pow2(width), val);
  }

  lemma SignBit(p: int, q: int, val: int, half: int)
    requires p > 0 && 2 * half == p * q
    ensures p * val >= half <==> val >= q - val
  {
    assert 2 * (p * val) == p * (2 * val);
    if val >= q - val {
      MulAdd(p, q, 2 * val - q);
      assert p * (2 * val - q) >= 0 by { MulOrder(p, 0, 2 * val - q); }
    } else {
      MulAdd(p, 2 * val, q - 2 * val);
      MulOrder(p, 1, q - 2 * val);
    }
  }

  lemma ShiftedDown(p: int, q: int, val: int)
    requires p > 0
    ensures (p * val) / p == val && (p * val - p * q) / p == val - q
  {
    DivModUnique(p * val, p, val, 0);
    MulAdd(p, val - q, q);
    DivModUnique(p * val - p * q, p, val - q, 0);
  }

  lemma ShiftedUp(val: nat, width: nat)
    requires 1 <= width <= WORD && val < Pow2(width)
    ensures ShiftLeft(val, WORD - width, WORD) == Pow2(WORD - width) * val
  {
    hide Pow2, ShiftLeft;
    Pow2Monotone(width, WORD);
    ShiftLeftDrops(val, WORD - width, WORD);
    SmallMod(val, Pow2(width));
  }

  lemma HalfWord(width: nat)
    requires 1 <= width <= WORD
    ensures 2 * Pow2(WORD - 1) == Pow2(WORD)
  {
  }

  function Multiply(a: nat, b: nat): (p: nat)
    ensures p == a * b
  {
    MulOrder(a, 0, b);
    a * b
  }

  lemma ModBound(x: int, m: nat)
    requires m > 0
    ensures 0 <= x % m < m
  {
  }

  lemma WordSplit(width: nat)
    requires width <= WORD
    ensures Pow2(WORD) == Pow2(WORD - width) * Pow2(width) == Pow2(width) * Pow2(WORD - width)
  {
    Pow2Add(WORD - width, width);
    Pow2Add(width, WORD - width);
  }

  lemma WordMask(width: nat)
    requires width <= WORD
    ensures ShiftRight(Pow2(WORD) - 1, WORD - width) == Mask(width)
  {
    hide Pow2, ShiftRight;
    var p, q := Pow2(WORD - width), Pow2(width);
    ShiftRightDivides(Pow2(WORD) - 1, WORD - width);
    WordSplit(width);
    MulAdd(p, q - 1, 1);
    DivModUnique(Pow2(WORD) - 1, p, q - 1, p - 1);
  }

  lemma Complement(val: nat, width: nat)
    requires width <= WORD && val < Pow2(width)
    ensures 0 <= Pow2(WORD) - 1 - val && (Pow2(WORD) - 1 - val) % Pow2(width) == Pow2(width) - 1 - val
  {
    hide Pow2;
    var p, q := Pow2(WORD - width), Pow2(width);
    WordSplit(width);
    MulAdd(q, p - 1, 1);
    MulOrder(q, 1, p);
    DivModUnique(Pow2(WORD) - 1 - val, q, p - 1, q - 1 - val);
  }

  lemma ShiftedMod(x: nat, shift: nat, width: nat)
    requires x < Pow2(width) && shift <= width <= WORD
    ensures ShiftLeft(x, shift, WORD) < Pow2(WORD)
    ensures ShiftLeft(x, shift, WORD) % Pow2(width) == (x * Pow2(shift)) % Pow2(width)
    ensures shift == width ==> (x * Pow2(shift)) % Pow2(width) == 0
  {
    hide Pow2, ShiftLeft;
    Pow2Monotone(width, WORD);
    var y := x * Pow2(shift);
    ShiftLeftTimes(x, shift, WORD);
    WrapTwice(ShiftLeft(x, shift, WORD), y, width);
    WholeMultiple(x, Pow2(shift));
  }

  lemma {:induction false} ShiftLeftTimes(x: nat, n: nat, width: nat)
    requires x < Pow2(width)
    ensures ShiftLeft(x, n, width) == (x * Pow2(n)) % Pow2(width)
    decreases n
  {
    var m := Pow2(width);
    if n == 0 {
      SmallMod(x, m);
    } else {
      var p := Pow2(n - 1);
      assert x * Pow2(n) == 2 * x * p by { MulAssoc(2, x, p); MulAssoc(x, 2, p); }
      ModBound(2 * x, m);
      ShiftLeftTimes((2 * x) % m, n - 1, width);
      TimesMod(2 * x, p, m);
    }
  }

  lemma WrapTwice(y: int, x: int, width: nat)
    requires y == x % Pow2(WORD) && width <= WORD
    ensures 0 <= y < Pow2(WORD) && y % Pow2(width) == x % Pow2(width)
  {
    hide Pow2;
    ModBound(x, Pow2(WORD));
    ModOfMod(x, WORD, width);
  }

  lemma WholeMultiple(x: int, m: nat)
    requires m > 0
    ensures (x * m) % m == 0
  {
    DivModUnique(x * m, m, x, 0);
  }

  lemma AddMultiple(z: int, k: int, m: nat)
    requires m > 0
    ensures (m * k + z) % m == z % m
  {
    MulAdd(m, k, z / m);
    DivModUnique(m * k + z, m, k + z / m, z % m);
  }

  lemma NegatedMod(v: int, m: nat)
    requires m > 0 && v >= 0
    ensures m - 1 - ((v % m - 1) % m) == (-v) % m
  {
    var q, t := v / m, v % m;
    MulAdd(m, q, -q);
    if t == 0 {
      DivModUnique(-1, m, -1, m - 1);
      MulAdd(m, q, -2 * q);
      DivModUnique(-v, m, -q, 0);
    } else {
      SmallMod(t - 1, m);
      MulAdd(m, -q, -1);
      DivModUnique(-v, m, -q - 1, m - t);
    }
  }

  lemma AddRest(x: int, d: int, m: nat)
    requires m > 0
    ensures (x + d) % m == (x % m + d) % m
  {
    assert x + d == m * (x / m) + (x % m + d);
    AddMultiple(x % m + d, x / m, m);
  }

  lemma AddMod(x: int, y: int, d: int, m: nat)
    requires m > 0 && x % m == y % m
    ensures (x + d) % m == (y + d) % m
  {
    AddRest(x, d, m);
    AddRest(y, d, m);
  }

  lemma TimesMod(v: int, r: int, m: nat)
    requires m > 0
    ensures ((v % m) * r) % m == (v * r) % m
  {
    var q, t := v / m, v % m;
    assert v * r == r * (m * q + t);
    MulAdd(r, m * q, t);
    assert r * (m * q) == m * (q * r) by { MulAssoc(m, q, r); }
    AddMultiple(t * r, q * r, m);
  }

  lemma ModTwice(x: int, m: nat)
    requires m > 0
    ensures (x % m) % m == x % m
  {
    SmallMod(x % m, m);
  }

  lemma RadixSmall(radix: nat)
    requires IsRadix(radix)
    ensures radix < Pow2(WORD)
  {
    assert Pow2(5) == 32;
    Pow2Monotone(5, WORD);
  }

  lemma RadixShift(radix: nat)
    requires IsRadix(radix) && ShiftFor(radix) != 0
    ensures radix == Pow2(ShiftFor(radix))
  {
    assert Pow2(1) == 2 && Pow2(3) == 8 && Pow2(4) == 16;
  }

  lemma NextValue(body: string, i: nat, radix: nat)
    requires i < |body|
    ensures Value(body[..i + 1], radix) == Value(body[..i], radix) * radix + Digit(body[i], radix)
    ensures i == 0 ==> Value(body[..i], radix) == 0
  {
    assert body[..i + 1][..i] == body[..i];
    hide Digit;
  }
}
