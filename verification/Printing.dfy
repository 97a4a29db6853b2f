/** Printing of integers of any width, as the test framework does it without streams: signed values in
    decimal, unsigned ones in hexadecimal. */
module Printing {
  import opened Numerals

  function Pow2(n: nat): nat {
    if n == 0 then 1 else 2 * Pow2(n - 1)
  }

  /** The smallest value of a signed type of `size` bytes, without its sign. */
  function MinSize(size: nat): nat
    requires size > 0
  {
    Pow2(8 * size - 1)
  }

  predicate FitsSigned(t: int, size: nat)
    requires size > 0
  {
    t < MinSize(size) && -t <= MinSize(size)
  }

  function DigitChar(d: nat): char
    requires d < 16
  {
    "0123456789ABCDEF"[d]
  }

  function Text(d: seq<nat>): (s: string)
    requires AreDigits(d, 16)
    ensures |s| == |d|
  {
    seq(|d|, i requires 0 <= i < |d| => DigitChar(d[i]))
  }

  /** The number in the given base. */
  function Numeral(n: nat, base: nat): string
    requires 1 < base <= 16
  {
    DigitsExact(n, base);
    Text(Digits(n, base))
  }

  /** The marks for types longer than `int`, given the sizes of `int` and `long`. */
  function Marks(size: nat, intSize: nat, longSize: nat): string {
    if size <= intSize then ""
    else (if size >= longSize then "L" else "") + (if size > longSize then "L" else "")
  }

  /** Nothing is marked up to the size of `int`, `long` with one L, and longer types with two. */
  lemma MarksExact(size: nat, intSize: nat, longSize: nat)
    ensures size <= intSize ==> Marks(size, intSize, longSize) == ""
    ensures intSize < size < longSize ==> Marks(size, intSize, longSize) == ""
    ensures intSize < size == longSize ==> Marks(size, intSize, longSize) == "L"
    ensures intSize < size && longSize < size ==> Marks(size, intSize, longSize) == "LL"
  {
  }

  function SignedText(t: int): string {
    if t < 0 then "-" + Numeral(-t, 10) else Numeral(t, 10)
  }

  // ---------------------------------------------------------------------------------------
  // The last digit of the smallest value
  // ---------------------------------------------------------------------------------------

  lemma Pow2Eight(n: nat)
    ensures Pow2(n + 8) == 256 * Pow2(n)
  {
    assert Pow2(n + 4) == 16 * Pow2(n) by {
      assert Pow2(n + 2) == 4 * Pow2(n);
    }
    assert Pow2(n + 8) == 16 * Pow2(n + 4) by {
      assert Pow2(n + 6) == 4 * Pow2(n + 4);
    }
  }

  lemma LastDigitStays(m: nat)
    requires m % 10 == 8
    ensures 256 * m % 10 == 8
  {
    var q := m / 10;
    assert 256 * m == 10 * (256 * q + 204) + 8;
  }

  /** 2 to the power 8k-1 ends in 8, so bumping the last digit of its predecessor stays a digit. */
  lemma {:induction false} MinEndsInEight(size: nat)
    requires size > 0
    ensures MinSize(size) % 10 == 8
  {
    if size == 1 {
      assert Pow2(3) == 8;
      assert Pow2(7) == 128 by {
        assert Pow2(5) == 4 * Pow2(3);
      }
    } else {
      MinEndsInEight(size - 1);
      Pow2Eight(8 * (size - 1) - 1);
      LastDigitStays(MinSize(size - 1));
    }
  }

  // ---------------------------------------------------------------------------------------
  // Digits, the least significant first
  // ---------------------------------------------------------------------------------------

  /** The digits in the order in which they are produced; none for 0. */
  function Produced(n: nat, base: nat): string
    requires 1 < base <= 16
    decreases n
  {
    if n == 0 then ""
    else if n < base then [DigitChar(n)]
    else
      DivSmaller(n, base);
      [DigitChar(n % base)] + Produced(n / base, base)
  }

  function Reversed(s: string): string {
    if s == "" then "" else Reversed(s[1..]) + [s[0]]
  }

  lemma {:induction false} ReversedSnoc(s: string, c: char)
    ensures Reversed(s + [c]) == [c] + Reversed(s)
  {
    if s == "" {
      assert [c][1..] == "";
    } else {
      assert (s + [c])[1..] == s[1..] + [c];
      ReversedSnoc(s[1..], c);
    }
  }

  lemma {:induction false} ProducedReversed(n: nat, base: nat)
    requires 1 < base <= 16 && n > 0
    ensures Reversed(Produced(n, base)) == Numeral(n, base)
    decreases n
  {
    if n < base {
      assert [DigitChar(n)][1..] == "";
      assert Text([n]) == [DigitChar(n)];
    } else {
      DivSmaller(n, base);
      ProducedReversed(n / base, base);
      NumeralSnoc(n, base);
    }
  }

  lemma NumeralSnoc(n: nat, base: nat)
    requires 1 < base <= 16 && n >= base
    ensures n % base < 16 && Numeral(n, base) == Numeral(n / base, base) + [DigitChar(n % base)]
  {
    DivSmaller(n, base);
    DigitsExact(n, base);
    DigitsExact(n / base, base);
    assert Digits(n, base) == Digits(n / base, base) + [n % base];
  }

  /** Bumping the first digit produced for a number that ends in 7 gives the digits of its successor. */
  lemma BumpProduces(m: nat)
    requires m % 10 == 8 && m > 10
    ensures Produced(m - 1, 10) != "" && Produced(m - 1, 10)[0] == '7'
    ensures Produced(m, 10) == Produced(m - 1, 10)[0 := '8']
  {
    assert (m - 1) % 10 == 7 && (m - 1) / 10 == m / 10;
  }

  lemma {:induction false} MinIsLarge(size: nat)
    requires size > 0
    ensures MinSize(size) > 100
  {
    if size == 1 {
      assert Pow2(5) == 4 * Pow2(3);
      assert Pow2(3) == 8;
    } else {
      MinIsLarge(size - 1);
      Pow2Eight(8 * (size - 1) - 1);
    }
  }

  // ---------------------------------------------------------------------------------------
  // The conversions
  // ---------------------------------------------------------------------------------------

  /** Appends the digits of `n`, the least significant first. */
  method Produce(n: nat, base: nat) returns (s: string)
    requires 1 < base <= 16
    ensures s == Produced(n, base)
  {
    var x: int := n;
    s := "";
    while x > 0
      invariant x >= 0 && s + Produced(x, base) == Produced(n, base)
    {
      s := s + ["0123456789ABCDEF"[x % base]];
      if x < base {
        SmallQuotient(x, base);
      } else {
        DivSmaller(x, base);
      }
      x := x / base;
    }
    NothingProduced(base);
    assert s + "" == s;
  }

  lemma SmallQuotient(x: nat, base: nat)
    requires 0 < x < base
    ensures x / base == 0 && x % base == x
  {
  }

  /** A signed value of a type of `size` bytes, the smallest one included. */
  method ToStringSigned(t: int, size: nat, intSize: nat, longSize: nat) returns (convert: string)
    requires size > 0 && FitsSigned(t, size)
    ensures convert == SignedText(t) + Marks(size, intSize, longSize)
  {
    hide Produced, Numeral, MinSize, Pow2;
    MinEndsInEight(size);
    MinIsLarge(size);
    var x := t;
    var negative, minint := t < 0, false;
    if x == -(MinSize(size) as int) {
      minint := true;
      x := x + 1;
    }
    if x < 0 {
      x := -x;
    }
    convert := "";
    if x == 0 {
      convert := "0";
    }
    var digits := Produce(x, 10);
    convert := convert + digits;
    NothingProduced(10);
    assert convert == if x == 0 then "0" else digits;
    if minint {
      BumpProduces(MinSize(size));
      convert := convert[0 := (convert[0] as int + 1) as char];
    }
    ZeroText();
    if t != 0 {
      ProducedReversed(if t < 0 then -t else t, 10);
    }
    ghost var magnitude := convert;
    assert Reversed(magnitude) == Numeral(if t < 0 then -t else t, 10);
    if negative {
      convert := convert + "-";
      ReversedSnoc(magnitude, '-');
    }
    convert := Reversed(convert);
    convert := convert + Marks(size, intSize, longSize);
  }

  lemma ZeroText()
    ensures Reversed("0") == "0" == Numeral(0, 10) == Numeral(0, 16)
  {
    assert "0"[1..] == "";
    assert Digits(0, 10) == [0] == Digits(0, 16);
    assert Text([0]) == "0";
  }

  method Hexit(t: nat) returns (hexed: string)
    ensures hexed == Numeral(t, 16)
  {
    hide Produced, Numeral;
    hexed := "";
    if t == 0 {
      hexed := "0";
    }
    var digits := Produce(t, 16);
    hexed := hexed + digits;
    ZeroText();
    NothingProduced(16);
    if t > 0 {
      ProducedReversed(t, 16);
      assert hexed == digits;
    } else {
      assert hexed == "0";
    }
    hexed := Reversed(hexed);
  }

  lemma NothingProduced(base: nat)
    requires 1 < base <= 16
    ensures Produced(0, base) == ""
  {
  }

  method ToStringUnsigned(t: nat, size: nat, intSize: nat, longSize: nat) returns (hexed: string)
    ensures hexed == "0x" + Numeral(t, 16) + Marks(size, intSize, longSize)
  {
    var digits := Hexit(t);
    hexed := "0x" + digits;
    hexed := hexed + Marks(size, intSize, longSize);
  }

  // ---------------------------------------------------------------------------------------
  // Reading back
  // ---------------------------------------------------------------------------------------

  /** The value of a digit, or -1. */
  function DigitOf(c: char): int {
    if '0' <= c <= '9' then c as int - '0' as int
    else if 'A' <= c <= 'F' then c as int - 'A' as int + 10
    else -1
  }

  predicate IsDigitIn(c: char, base: nat) {
    0 <= DigitOf(c) < base
  }

  /** The number at the beginning of a text, continuing `value`, and what follows it. */
  function ReadNumber(s: string, base: nat, value: nat): (nat, string)
    decreases |s|
  {
    if s != "" && IsDigitIn(s[0], base) then ReadNumber(s[1..], base, value * base + DigitOf(s[0])) else (value, s)
  }

  function ReadSigned(s: string): (int, string) {
    if s != "" && s[0] == '-' then
      var (n, rest) := ReadNumber(s[1..], 10, 0);
      (-(n as int), rest)
    else ReadNumber(s, 10, 0)
  }

  predicate StopsNumber(s: string, base: nat) {
    s != "" ==> !IsDigitIn(s[0], base)
  }

  lemma DigitReads(d: nat)
    requires d < 16
    ensures DigitOf(DigitChar(d)) == d
  {
  }

  lemma {:induction false} TextReads(d: seq<nat>, base: nat, rest: string, value: nat)
    requires 1 < base <= 16 && AreDigits(d, base) && AreDigits(d, 16) && StopsNumber(rest, base)
    ensures ReadNumber(Text(d) + rest, base, value) == (Carry(value, d, base), rest)
    decreases |d|
  {
    hide DigitOf, DigitChar;
    if d == [] {
      assert Text(d) + rest == rest;
    } else {
      var s := Text(d) + rest;
      DigitReads(d[0]);
      assert s[0] == DigitChar(d[0]);
      assert s[1..] == Text(d[1..]) + rest;
      TextReads(d[1..], base, rest, value * base + d[0]);
    }
  }

  lemma NumeralReads(n: nat, base: nat, rest: string)
    requires 1 < base <= 16 && StopsNumber(rest, base)
    ensures ReadNumber(Numeral(n, base) + rest, base, 0) == (n, rest)
  {
    hide Carry, ReadNumber;
    DigitsExact(n, base);
    TextReads(Digits(n, base), base, rest, 0);
    CarryDigits(n, base);
  }

  /** Every signed value of every width reads back as itself. */
  lemma SignedReadsBack(t: int, size: nat, intSize: nat, longSize: nat)
    ensures ReadSigned(SignedText(t) + Marks(size, intSize, longSize)) == (t, Marks(size, intSize, longSize))
  {
    hide ReadNumber;
    var marks := Marks(size, intSize, longSize);
    NumeralReads(if t < 0 then -t else t, 10, marks);
    if t < 0 {
      assert (SignedText(t) + marks)[1..] == Numeral(-t, 10) + marks;
    } else {
      NoSign(t);
      assert (SignedText(t) + marks)[0] == Numeral(t, 10)[0];
    }
  }

  lemma NoSign(n: nat)
    ensures Numeral(n, 10) != "" && Numeral(n, 10)[0] != '-'
  {
    DigitsExact(n, 10);
    assert Numeral(n, 10)[0] == DigitChar(Digits(n, 10)[0]);
  }

  /** Every unsigned value survives the hexadecimal form. */
  lemma UnsignedReadsBack(t: nat, size: nat, intSize: nat, longSize: nat)
    ensures var s := "0x" + Numeral(t, 16) + Marks(size, intSize, longSize);
      s[..2] == "0x" && ReadNumber(s[2..], 16, 0) == (t, Marks(size, intSize, longSize))
  {
    hide ReadNumber, Numeral;
    var marks := Marks(size, intSize, longSize);
    var s := "0x" + Numeral(t, 16) + marks;
    NumeralReads(t, 16, marks);
    assert s[2..] == Numeral(t, 16) + marks;
  }
}
