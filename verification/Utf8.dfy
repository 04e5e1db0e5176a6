/** UTF-8 as Go's decoder sees it: a well-formed sequence is taken whole, any other byte alone. */
module Utf8 {
  import opened Bytes

  predicate IsContinuation(b: byte) {
    0x80 <= b < 0xC0
  }

  /** The second bytes allowed after a lead byte of a three or four byte sequence (no overlong forms, no
      surrogates, nothing past U+10FFFF). */
  predicate IsSecond(lead: byte, b: byte) {
    && IsContinuation(b)
    && (lead == 0xE0 ==> 0xA0 <= b) && (lead == 0xED ==> b < 0xA0)
    && (lead == 0xF0 ==> 0x90 <= b) && (lead == 0xF4 ==> b < 0x90)
  }

  /** The length of the well-formed sequence a byte string starts with, 0 if there is none. */
  function SequenceLength(s: seq<byte>): (n: nat)
    ensures n <= |s| && n <= 4
  {
    if s == [] then 0
    else if s[0] < 0x80 then 1
    else if 0xC2 <= s[0] < 0xE0 && |s| >= 2 && IsContinuation(s[1]) then 2
    else if 0xE0 <= s[0] < 0xF0 && |s| >= 3 && IsSecond(s[0], s[1]) && IsContinuation(s[2]) then 3
    else if 0xF0 <= s[0] < 0xF5 && |s| >= 4 && IsSecond(s[0], s[1]) && IsContinuation(s[2]) && IsContinuation(s[3])
        then 4
    else 0
  }

  predicate Valid(s: seq<byte>) {
    s == [] || (SequenceLength(s) > 0 && Valid(s[SequenceLength(s)..]))
  }

  /** U+FFFD in UTF-8. */
  function Replacement(): seq<byte> {
    [0xEF, 0xBF, 0xBD]
  }

  /** Each byte outside a well-formed sequence replaced by U+FFFD. */
  function Repair(s: seq<byte>): seq<byte>
    decreases |s|
  {
    if s == [] then []
    else if SequenceLength(s) == 0 then Replacement() + Repair(s[1..])
    else s[..SequenceLength(s)] + Repair(s[SequenceLength(s)..])
  }

  lemma ValidAfterSequence(one: seq<byte>, rest: seq<byte>)
    requires SequenceLength(one) == |one| > 0 && Valid(rest)
    ensures Valid(one + rest)
  {
    assert SequenceLength(one + rest) == |one|;
    assert (one + rest)[|one|..] == rest;
  }

  lemma {:induction false} RepairIsValid(s: seq<byte>)
    ensures Valid(Repair(s))
    decreases |s|
  {
    if s != [] {
      var n := SequenceLength(s);
      if n == 0 {
        RepairIsValid(s[1..]);
        ValidAfterSequence(Replacement(), Repair(s[1..]));
      } else {
        RepairIsValid(s[n..]);
        assert SequenceLength(s[..n]) == n;
        ValidAfterSequence(s[..n], Repair(s[n..]));
      }
    }
  }

  /** Repairing changes exactly the strings that are not UTF-8. */
  lemma {:induction false} RepairKeepsIffValid(s: seq<byte>)
    ensures Repair(s) == s <==> Valid(s)
    decreases |s|
  {
    RepairIsValid(s);
    if s != [] && Valid(s) {
      RepairKeepsIffValid(s[SequenceLength(s)..]);
      assert s == s[..SequenceLength(s)] + s[SequenceLength(s)..];
    }
  }

  lemma FirstSequence(s: seq<byte>) returns (one: seq<byte>, tail: seq<byte>)
    requires Valid(s) && s != []
    ensures s == one + tail && SequenceLength(one) == |one| > 0 && Valid(tail)
  {
    one, tail := s[..SequenceLength(s)], s[SequenceLength(s)..];
  }

  lemma {:induction false} ValidConcat(a: seq<byte>, b: seq<byte>)
    requires Valid(a) && Valid(b)
    ensures Valid(a + b)
    decreases |a|
  {
    if a == [] {
      assert a + b == b;
    } else {
      var one, tail := FirstSequence(a);
      ValidConcat(tail, b);
      ValidAfterSequence(one, tail + b);
      ConcatIsAssociative(one, tail, b);
    }
  }

  lemma {:induction false} AsciiIsValid(s: seq<byte>)
    requires forall i | 0 <= i < |s| :: s[i] < 0x80
    ensures Valid(s)
  {
    if s != [] { AsciiIsValid(s[1..]); }
  }

  /** The UTF-8 form of a code point, U+FFFD for a surrogate. */
  function Encode(point: nat): (bytes: seq<byte>)
    requires point < 0x11_0000
  {
    if point < 0x80 then [point]
    else if point < 0x800 then [0xC0 + point / 64, 0x80 + point % 64]
    else if 0xD800 <= point < 0xE000 then Replacement()
    else if point < 0x1_0000 then [0xE0 + point / 4096, 0x80 + point / 64 % 64, 0x80 + point % 64]
    else [0xF0 + point / 0x4_0000, 0x80 + point / 4096 % 64, 0x80 + point / 64 % 64, 0x80 + point % 64]
  }

  lemma EncodedIsSequence(point: nat)
    requires point < 0x11_0000
    ensures SequenceLength(Encode(point)) == |Encode(point)| > 0
  {
    if 0x800 <= point < 0x1_0000 {
      assert point / 4096 == 0 ==> point / 64 >= 32 && point / 64 % 64 == point / 64;
      assert point / 4096 == 13 && point < 0xD800 ==> point / 64 % 64 == point / 64 - 832;
    } else if point >= 0x1_0000 {
      var b := point / 4096;
      assert point / 0x4_0000 == b / 64;
      assert b / 64 == 0 ==> b % 64 == b;
      assert b / 64 == 4 ==> b % 64 == b - 256;
    }
  }

  // ----- what a decoder looks at: a byte below 0x80 ends a sequence just as the end of input does

  predicate Low(s: seq<byte>) {
    s == [] || s[0] < 0x80
  }

  /** Two strings agree on their first `k` bytes up to the first low one. */
  predicate SameHigh(a: seq<byte>, b: seq<byte>, k: nat) {
    k == 0 || (Low(a) && Low(b)) || (!Low(a) && !Low(b) && a[0] == b[0] && SameHigh(a[1..], b[1..], k - 1))
  }

  lemma SameHighSameLength(a: seq<byte>, b: seq<byte>)
    requires !Low(a) && SameHigh(a, b, 4)
    ensures SequenceLength(a) == SequenceLength(b)
  {
    var a1, b1 := a[1..], b[1..];
    if !Low(a1) && !Low(b1) {
      var a2, b2 := a1[1..], b1[1..];
      assert SameHigh(a2, b2, 2);
      assert a[1] == b[1];
      if !Low(a2) && !Low(b2) {
        assert a[2] == b[2];
        assert SameHigh(a2[1..], b2[1..], 1);
      }
    }
  }
}
