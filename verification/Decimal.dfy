/** Printing integers with `std::to_string` and reading them back with `std::stoll` and `std::stoi`. */
module Decimal {
  datatype Option<T> = None | Some(value: T)

  const INT32_MIN: int := -0x8000_0000
  const INT32_MAX: int := 0x7fff_ffff
  const INT64_MIN: int := -0x8000_0000_0000_0000
  const INT64_MAX: int := 0x7fff_ffff_ffff_ffff

  predicate IsDigit(c: char) {
    '0' <= c <= '9'
  }

  predicate IsSpace(c: char) {
    c == ' ' || '\t' <= c <= '\r'
  }

  function Digit(d: nat): (c: char)
    requires d < 10
    ensures IsDigit(c) && DigitValue(c) == d
  {
    ('0' as int + d) as char
  }

  function DigitValue(c: char): (d: nat)
    requires IsDigit(c)
    ensures d < 10
  {
    c as int - '0' as int
  }

  function PrintNat(n: nat): (s: string)
    ensures s != [] && forall k :: 0 <= k < |s| ==> IsDigit(s[k])
  {
    if n < 10 then [Digit(n)] else PrintNat(n / 10) + [Digit(n % 10)]
  }

  /** `std::to_string`. */
  function Print(i: int): (s: string)
    ensures s != [] && forall k :: 0 <= k < |s| ==> IsDigit(s[k]) || s[k] == '-'
  {
    if i < 0 then ['-'] + PrintNat(-i) else PrintNat(i)
  }

  /** The value of the digits at the front of `s`, read after `acc`. */
  function ReadDigits(s: string, acc: nat): nat {
    if s == [] || !IsDigit(s[0]) then acc else ReadDigits(s[1..], acc * 10 + DigitValue(s[0]))
  }

  function SkipSpaces(s: string): string {
    if s != [] && IsSpace(s[0]) then SkipSpaces(s[1..]) else s
  }

  /** The integer at the front of `s`, if there is one between `lo` and `hi`; what follows is ignored. */
  function ReadInt(s: string, lo: int, hi: int): Option<int> {
    var t := SkipSpaces(s);
    var signed := t != [] && (t[0] == '-' || t[0] == '+');
    var digits := if signed then t[1..] else t;
    if digits == [] || !IsDigit(digits[0]) then None
    else
      var magnitude: int := ReadDigits(digits, 0);
      var value := if signed && t[0] == '-' then -magnitude else magnitude;
      if lo <= value <= hi then Some(value) else None
  }

  function Stoll(s: string): Option<int> {
    ReadInt(s, INT64_MIN, INT64_MAX)
  }

  function Stoi(s: string): Option<int> {
    ReadInt(s, INT32_MIN, INT32_MAX)
  }

  lemma {:induction false} ReadConcat(a: string, b: string, acc: nat)
    requires forall k :: 0 <= k < |a| ==> IsDigit(a[k])
    ensures ReadDigits(a + b, acc) == ReadDigits(b, ReadDigits(a, acc))
  {
    if a == [] {
      assert a + b == b;
    } else {
      assert (a + b)[1..] == a[1..] + b;
      ReadConcat(a[1..], b, acc * 10 + DigitValue(a[0]));
    }
  }

  lemma {:induction false} ReadPrintedNat(n: nat)
    ensures ReadDigits(PrintNat(n), 0) == n
  {
    if n >= 10 {
      ReadPrintedNat(n / 10);
      ReadConcat(PrintNat(n / 10), [Digit(n % 10)], 0);
      assert ReadDigits([Digit(n % 10)], n / 10) == n / 10 * 10 + n % 10;
    }
  }

  /** A printed integer, followed by nothing or by a character that is no digit, is read back exactly
      when it is in range. */
  lemma ReadPrinted(i: int, rest: string, lo: int, hi: int)
    requires rest == [] || !IsDigit(rest[0])
    ensures ReadInt(Print(i) + rest, lo, hi) == if lo <= i <= hi then Some(i) else None
  {
    var n: nat := if i < 0 then -i else i;
    var s := Print(i) + rest;
    ReadPrintedNat(n);
    ReadConcat(PrintNat(n), rest, 0);
    assert s[0] == Print(i)[0];
    if i < 0 {
      assert s[1..] == PrintNat(n) + rest;
    }
    assert SkipSpaces(s) == s;
  }

  /** External ids survive being printed and read back if and only if they are 64-bit integers. */
  lemma StollPrintIff(i: int)
    ensures Stoll(Print(i)) == Some(i) <==> INT64_MIN <= i <= INT64_MAX
    ensures Stoll(Print(i)) == None <==> !(INT64_MIN <= i <= INT64_MAX)
  {
    ReadPrinted(i, [], INT64_MIN, INT64_MAX);
    assert Print(i) + [] == Print(i);
  }
}
