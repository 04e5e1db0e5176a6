/** Unicode case mappings as the library provides them, and decimal text. */
module Unicode {
  import opened Bytes
  import opened Results
  import opened Strings
  import opened Decimal

  /** Character-wise upper and lower casing, and one representative for each class of characters that
      differ in case only. */
  datatype Cases = Cases(upper: char -> char, lower: char -> char, fold: char -> char)

  function ToUpper(cases: Cases, s: string): (r: string)
    ensures |r| == |s|
  {
    MapChars(cases.upper, s)
  }

  function ToLower(cases: Cases, s: string): (r: string)
    ensures |r| == |s|
  {
    MapChars(cases.lower, s)
  }

  function Folded(cases: Cases, s: string): (r: string)
    ensures |r| == |s|
  {
    MapChars(cases.fold, s)
  }

  predicate EqualFold(cases: Cases, a: string, b: string) {
    Folded(cases, a) == Folded(cases, b)
  }

  // ----- decimal text

  function DigitChars(digits: seq<digit>): (s: string)
    ensures |s| == |digits| && forall i | 0 <= i < |s| :: s[i] == '0' + (digits[i] as int) as char
  {
    seq(|digits|, i requires 0 <= i < |digits| => '0' + (digits[i] as int) as char)
  }

  predicate IsNumeral(s: string) {
    s != "" && forall i | 0 <= i < |s| :: '0' <= s[i] <= '9'
  }

  function CharDigits(s: string): (digits: seq<digit>)
    requires forall i | 0 <= i < |s| :: '0' <= s[i] <= '9'
    ensures |digits| == |s|
  {
    seq(|s|, i requires 0 <= i < |s| => s[i] as int - '0' as int)
  }

  function Itoa(n: int): string {
    if n < 0 then "-" + DigitChars(Digits(-n)) else DigitChars(Digits(n))
  }

  const MIN_INT64 := -0x8000_0000_0000_0000
  const MAX_INT64 := 0x7FFF_FFFF_FFFF_FFFF

  /** An optional sign and digits, in the range of a 64-bit integer. */
  function Atoi(s: string): Option<int> {
    var unsigned := if s != "" && (s[0] == '-' || s[0] == '+') then s[1..] else s;
    if !IsNumeral(unsigned) then None
    else
      var n: int := Number(CharDigits(unsigned));
      var value := if s[0] == '-' then -n else n;
      if MIN_INT64 <= value <= MAX_INT64 then Some(value) else None
  }

  lemma NumeralReadsBack(digits: seq<digit>)
    requires digits != []
    ensures IsNumeral(DigitChars(digits)) && CharDigits(DigitChars(digits)) == digits
    ensures Trimmed(DigitChars(digits))
  {
    var s, back := DigitChars(digits), CharDigits(DigitChars(digits));
    forall i | 0 <= i < |digits| ensures back[i] == digits[i] {
      assert s[i] as int == '0' as int + digits[i];
    }
  }

  function InRange(n: int): Option<int> {
    if MIN_INT64 <= n <= MAX_INT64 then Some(n) else None
  }

  lemma AtoiUnsigned(digits: seq<digit>)
    requires digits != []
    ensures Atoi(DigitChars(digits)) == InRange(Number(digits))
  {
    var numeral := DigitChars(digits);
    NumeralReadsBack(digits);
    assert '0' <= numeral[0] <= '9';
  }

  lemma AtoiParts(s: string, sign: char, digits: seq<digit>, n: int)
    requires digits != [] && (sign == '-' || sign == '+') && n == (if sign == '-' then -1 else 1) * Number(digits)
    requires s != "" && s[0] == sign && s[1..] == DigitChars(digits) && IsNumeral(s[1..])
        && CharDigits(s[1..]) == digits
    ensures Atoi(s) == InRange(n)
  {
  }

  lemma AtoiSigned(sign: char, digits: seq<digit>)
    requires digits != [] && (sign == '-' || sign == '+')
    ensures Atoi([sign] + DigitChars(digits)) == InRange((if sign == '-' then -1 else 1) * Number(digits))
  {
    var s := [sign] + DigitChars(digits);
    NumeralReadsBack(digits);
    assert s[1..] == DigitChars(digits);
    AtoiParts(s, sign, digits, (if sign == '-' then -1 else 1) * Number(digits));
  }

  lemma ItoaTrimmed(n: int)
    ensures Trimmed(Itoa(n))
  {
    if n < 0 { NumeralReadsBack(Digits(-n)); } else { NumeralReadsBack(Digits(n)); }
  }

  lemma AtoiInvertsItoa(n: int)
    ensures Atoi(Itoa(n)) == if MIN_INT64 <= n <= MAX_INT64 then Some(n) else None
    ensures Trimmed(Itoa(n))
  {
    ItoaTrimmed(n);
    if n < 0 {
      NumberInvertsDigits(-n);
      AtoiSigned('-', Digits(-n));
    } else {
      NumberInvertsDigits(n);
      AtoiUnsigned(Digits(n));
    }
  }

  /** Only an optional sign and a numeral are read. */
  lemma AtoiReads(s: string)
    requires Atoi(s).Some?
    ensures IsNumeral(s) || (s != "" && (s[0] == '+' || s[0] == '-') && IsNumeral(s[1..]))
  {
  }

  /** The range is that of 64-bit two's complement. */
  lemma IntRange()
    ensures MAX_INT64 == UINT64_LIMIT / 2 - 1 && MIN_INT64 == -UINT64_LIMIT / 2
  {
  }

  /** A decimal text. */
  lemma ItoaExample()
    ensures Itoa(-1203) == "-1203" && Itoa(0) == "0"
  {
    assert Digits(1203) == [1, 2, 0, 3] && Digits(0) == [0];
  }
}
