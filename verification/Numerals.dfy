/** Positional notation in any base. */
module Numerals {

  lemma Doubles(base: nat, q: nat)
    requires base > 1
    ensures base * q >= 2 * q
  {
    assert (base - 2) * q >= 0;
  }

  lemma DivSmaller(n: nat, base: nat)
    requires 1 < base <= n
    ensures 0 <= n / base < n && n % base < base && n / base * base + n % base == n && n / base > 0
  {
    var q, r := n / base, n % base;
    Doubles(base, q);
    Split(n, base, q, r);
  }

  /** A quotient of 0 would leave a remainder as large as the divisor. */
  lemma Split(n: nat, base: nat, q: nat, r: nat)
    requires 1 < base <= n && n == base * q + r && r < base && base * q >= 2 * q
    ensures 0 < q < n && q * base + r == n
  {
  }

  /** The digits of `n`, the most significant first. */
  function Digits(n: nat, base: nat): (d: seq<nat>)
    requires base > 1
    ensures d != []
    decreases n
  {
    if n < base then [n]
    else
      DivSmaller(n, base);
      Digits(n / base, base) + [n % base]
  }

  function Value(d: seq<nat>, base: nat): nat {
    if d == [] then 0 else Value(d[..|d| - 1], base) * base + d[|d| - 1]
  }

  ghost predicate AreDigits(d: seq<nat>, base: nat) {
    forall i :: 0 <= i < |d| ==> d[i] < base
  }

  lemma ValueSnoc(d: seq<nat>, x: nat, base: nat)
    ensures Value(d + [x], base) == Value(d, base) * base + x
  {
    assert (d + [x])[..|d|] == d;
  }

  lemma DigitsSnoc(d: seq<nat>, x: nat, base: nat)
    requires AreDigits(d, base) && x < base
    ensures AreDigits(d + [x], base)
  {
  }

  /** The digits of a number denote it, and do not start with 0 unless it is 0. */
  lemma {:induction false} DigitsExact(n: nat, base: nat)
    requires base > 1
    ensures Value(Digits(n, base), base) == n && AreDigits(Digits(n, base), base)
    ensures n > 0 ==> Digits(n, base)[0] > 0
    decreases n
  {
    hide Value, AreDigits;
    if n < base {
      OneDigit(n, base);
    } else {
      var d := Digits(n / base, base);
      DivSmaller(n, base);
      DigitsExact(n / base, base);
      ValueSnoc(d, n % base, base);
      DigitsSnoc(d, n % base, base);
    }
  }

  lemma OneDigit(n: nat, base: nat)
    requires n < base
    ensures Value([n], base) == n && AreDigits([n], base)
  {
    assert [n][..0] == [];
  }

  /** The number that reading the digits `d` makes of the number `value` read so far. */
  function Carry(value: nat, d: seq<nat>, base: nat): nat
    decreases |d|
  {
    if d == [] then value else Carry(value * base + d[0], d[1..], base)
  }

  lemma {:induction false} CarryValue(value: nat, e: seq<nat>, d: seq<nat>, base: nat)
    requires value == Value(e, base)
    ensures Carry(value, d, base) == Value(e + d, base)
    decreases |d|
  {
    hide Value;
    if d == [] {
      assert e + d == e;
    } else {
      ValueSnoc(e, d[0], base);
      CarryValue(value * base + d[0], e + [d[0]], d[1..], base);
      assert e + [d[0]] + d[1..] == e + d;
    }
  }

  /** Reading the digits of a number from left to right gives the number. */
  lemma CarryDigits(n: nat, base: nat)
    requires base > 1
    ensures Carry(0, Digits(n, base), base) == n
  {
    hide Carry, Digits;
    DigitsExact(n, base);
    CarryValue(0, [], Digits(n, base), base);
    assert [] + Digits(n, base) == Digits(n, base);
  }
}
