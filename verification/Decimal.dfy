/** Decimal numerals: digit lists, most significant first. */
module Decimal {
  import opened Bytes

  type digit = d: int | 0 <= d < 10

  function Digits(n: nat): (digits: seq<digit>)
    ensures digits != []
  {
    if n < 10 then [n] else Digits(n / 10) + [n % 10]
  }

  function Number(digits: seq<digit>): nat {
    if digits == [] then 0 else 10 * Number(digits[..|digits| - 1]) + digits[|digits| - 1]
  }

  lemma {:induction false} NumberInvertsDigits(n: nat)
    ensures Number(Digits(n)) == n
  {
    if n >= 10 {
      NumberInvertsDigits(n / 10);
      assert Digits(n)[..|Digits(n)| - 1] == Digits(n / 10);
    }
  }

  lemma NumberSnoc(digits: seq<digit>, d: digit)
    ensures Number(digits + [d]) == 10 * Number(digits) + d
  {
    assert (digits + [d])[..|digits|] == digits;
  }

  /** The numeral's ASCII bytes. */
  function AsciiDigits(digits: seq<digit>): (bytes: seq<byte>)
    ensures |bytes| == |digits| && forall i | 0 <= i < |digits| :: bytes[i] == digits[i] as int + 0x30
  {
    seq(|digits|, i requires 0 <= i < |digits| => digits[i] as int + 0x30)
  }

  lemma AsciiSnoc(digits: seq<digit>, d: digit)
    ensures AsciiDigits(digits + [d]) == AsciiDigits(digits) + [d as int + 0x30]
  {
  }

  predicate IsDigit(b: byte) {
    0x30 <= b <= 0x39
  }

  predicate StartsWithDigit(s: seq<byte>) {
    s != [] && IsDigit(s[0])
  }

  /** The digits a byte string starts with, and what follows them. */
  function ReadDigits(s: seq<byte>): (r: (seq<digit>, seq<byte>))
    ensures |r.0| + |r.1| == |s|
  {
    if !StartsWithDigit(s) then ([], s)
    else
      var (more, rest) := ReadDigits(s[1..]);
      ([s[0] - 0x30] + more, rest)
  }

  lemma {:induction false} DigitsReadBack(digits: seq<digit>, rest: seq<byte>)
    requires !StartsWithDigit(rest)
    ensures ReadDigits(AsciiDigits(digits) + rest) == (digits, rest)
  {
    var all := AsciiDigits(digits) + rest;
    if digits == [] {
      assert all == rest;
    } else {
      DigitsReadBack(digits[1..], rest);
      assert all[1..] == AsciiDigits(digits[1..]) + rest;
      assert all[0] - 0x30 == digits[0];
      assert [digits[0]] + digits[1..] == digits;
    }
  }
}
