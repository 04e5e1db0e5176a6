/** UTF-8 against its definition: the valid byte strings are exactly the encodings of Unicode scalar values. */
module Utf8Scalars {
  import opened Bytes
  import opened Utf8

  /** A Unicode scalar value: any code point but a surrogate. */
  predicate IsScalar(point: nat) {
    point < 0xD800 || 0xE000 <= point < 0x11_0000
  }

  /** The code point of a sequence: the payload bits of its bytes, most significant first. */
  function PointOf(one: seq<byte>): nat
    requires 1 <= |one| <= 4
  {
    var bytes: seq<int> := one;
    if |one| == 1 then bytes[0]
    else if |one| == 2 then bytes[0] % 32 * 64 + bytes[1] % 64
    else if |one| == 3 then bytes[0] % 16 * 4096 + bytes[1] % 64 * 64 + bytes[2] % 64
    else bytes[0] % 8 * 0x4_0000 + bytes[1] % 64 * 4096 + bytes[2] % 64 * 64 + bytes[3] % 64
  }

  function EncodeAll(points: seq<nat>): seq<byte>
    requires forall i | 0 <= i < |points| :: IsScalar(points[i])
  {
    if points == [] then []
    else
      assert IsScalar(points[0]);
      Encode(points[0]) + EncodeAll(points[1..])
  }

  lemma Digits64(high: nat, low: nat)
    requires low < 64
    ensures (high * 64 + low) / 64 == high && (high * 64 + low) % 64 == low
  {
  }

  /** A sequence is the encoding of the scalar value its payload bits make. */
  lemma SequenceIsEncoded(one: seq<byte>)
    requires |one| > 0 && SequenceLength(one) == |one|
    ensures IsScalar(PointOf(one)) && Encode(PointOf(one)) == one
  {
    var point := PointOf(one);
    if |one| == 2 {
      Digits64(one[0] % 32, one[1] % 64);
    } else if |one| == 3 {
      ThreeBytes(one[0], one[1], one[2]);
    } else if |one| == 4 {
      FourBytes(one[0], one[1], one[2], one[3]);
    }
  }

  lemma ThreeBytes(a: int, b: int, c: int)
    requires 0xE0 <= a < 0xF0 && 0 <= b < 256 && 0 <= c < 256 && IsSecond(a, b) && IsContinuation(c)
    ensures var point := a % 16 * 4096 + b % 64 * 64 + c % 64;
      0x800 <= point < 0x1_0000 && IsScalar(point) && Encode(point) == [a, b, c]
  {
    var high, middle, low := a % 16, b % 64, c % 64;
    var point := high * 4096 + middle * 64 + low;
    Digits64(high * 64 + middle, low);
    Digits64(high, middle);
    assert point / 64 == high * 64 + middle && point / 64 % 64 == middle && point % 64 == low;
    assert point / 4096 == high;
  }

  lemma FourDigits(high: nat, second: nat, third: nat, low: nat, point: nat)
    requires second < 64 && third < 64 && low < 64
    requires point == high * 0x4_0000 + second * 4096 + third * 64 + low
    ensures point / 64 == high * 4096 + second * 64 + third && point % 64 == low
    ensures point / 4096 == high * 64 + second && point / 64 % 64 == third
    ensures point / 0x4_0000 == high && point / 4096 % 64 == second
  {
    Digits64(high * 4096 + second * 64 + third, low);
    Digits64(high * 64 + second, third);
    Digits64(high, second);
    assert point / 64 == high * 4096 + second * 64 + third;
    assert point / 4096 == high * 64 + second;
  }

  lemma Payload(b: int)
    ensures 0x80 <= b < 0xC0 ==> b % 64 == b - 0x80
    ensures 0xF0 <= b < 0xF5 ==> b % 8 == b - 0xF0
  {
  }

  lemma FourEncoded(high: nat, second: nat, third: nat, low: nat, point: nat)
    requires second < 64 && third < 64 && low < 64 && 0x1_0000 <= point < 0x11_0000
    requires point == high * 0x4_0000 + second * 4096 + third * 64 + low
    ensures Encode(point) == [0xF0 + high, 0x80 + second, 0x80 + third, 0x80 + low]
  {
    FourDigits(high, second, third, low, point);
  }

  lemma FourBytes(a: int, b: int, c: int, d: int)
    requires 0xF0 <= a < 0xF5 && 0 <= b < 256 && 0 <= c < 256 && 0 <= d < 256
    requires IsSecond(a, b) && IsContinuation(c) && IsContinuation(d)
    ensures var point := a % 8 * 0x4_0000 + b % 64 * 4096 + c % 64 * 64 + d % 64;
      0x1_0000 <= point < 0x11_0000 && Encode(point) == [a, b, c, d]
  {
    Payload(a);
    Payload(b);
    Payload(c);
    Payload(d);
    FourEncoded(a - 0xF0, b - 0x80, c - 0x80, d - 0x80,
      (a - 0xF0) * 0x4_0000 + (b - 0x80) * 4096 + (c - 0x80) * 64 + (d - 0x80));
  }

  /** A number by its last digits to the base 64. */
  lemma LastDigits(point: nat)
    ensures point == point / 64 * 64 + point % 64
    ensures point / 64 == point / 4096 * 64 + point / 64 % 64
    ensures point / 4096 == point / 0x4_0000 * 64 + point / 4096 % 64
  {
    assert point / 4096 == point / 64 / 64;
    assert point / 0x4_0000 == point / 4096 / 64;
  }

  lemma LeadPayload(n: nat)
    ensures n < 32 ==> (0xC0 + n) % 32 == n
    ensures n < 16 ==> (0xE0 + n) % 16 == n
    ensures n < 8 ==> (0xF0 + n) % 8 == n
    ensures n < 64 ==> (0x80 + n) % 64 == n
  {
  }

  lemma TwoRead(point: nat)
    requires 0x80 <= point < 0x800
    ensures |Encode(point)| == 2 && PointOf(Encode(point)) == point
  {
    LastDigits(point);
    LeadPayload(point % 64);
    LeadPayload(point / 64);
  }

  lemma ThreeRead(point: nat)
    requires 0x800 <= point < 0x1_0000 && IsScalar(point)
    ensures |Encode(point)| == 3 && PointOf(Encode(point)) == point
  {
    LastDigits(point);
    LeadPayload(point % 64);
    LeadPayload(point / 64 % 64);
    LeadPayload(point / 4096);
  }

  lemma FourRead(point: nat)
    requires 0x1_0000 <= point < 0x11_0000
    ensures |Encode(point)| == 4 && PointOf(Encode(point)) == point
  {
    LastDigits(point);
    LeadPayload(point % 64);
    LeadPayload(point / 64 % 64);
    LeadPayload(point / 4096 % 64);
    LeadPayload(point / 0x4_0000);
  }

  /** Every scalar value reads back from its encoding. */
  lemma EncodedReadsBack(point: nat)
    requires IsScalar(point)
    ensures 1 <= |Encode(point)| <= 4 && PointOf(Encode(point)) == point
  {
    if 0x80 <= point < 0x800 {
      TwoRead(point);
    } else if 0x800 <= point < 0x1_0000 {
      ThreeRead(point);
    } else if point >= 0x1_0000 {
      FourRead(point);
    }
  }

  lemma {:induction false} EncodedIsValid(points: seq<nat>)
    requires forall i | 0 <= i < |points| :: IsScalar(points[i])
    ensures Valid(EncodeAll(points))
  {
    if points != [] {
      EncodedIsValid(points[1..]);
      EncodedIsSequence(points[0]);
      ValidAfterSequence(Encode(points[0]), EncodeAll(points[1..]));
    }
  }

  lemma {:induction false} ValidIsEncoded(s: seq<byte>) returns (points: seq<nat>)
    requires Valid(s)
    ensures (forall i | 0 <= i < |points| :: IsScalar(points[i])) && EncodeAll(points) == s
    decreases |s|
  {
    points := [];
    if s != [] {
      var one, tail := FirstSequence(s);
      var more := ValidIsEncoded(tail);
      SequenceIsEncoded(one);
      points := [PointOf(one)] + more;
      assert points[1..] == more;
    }
  }

  ghost predicate Encodes(points: seq<nat>, s: seq<byte>) {
    (forall i | 0 <= i < |points| :: IsScalar(points[i])) && EncodeAll(points) == s
  }

  /** A byte string is valid exactly when it encodes some scalar values. */
  lemma ValidIffEncoded(s: seq<byte>)
    ensures Valid(s) <==> exists points :: Encodes(points, s)
  {
    if Valid(s) {
      var points := ValidIsEncoded(s);
      assert Encodes(points, s);
    }
    if points :| Encodes(points, s) { EncodedIsValid(points); }
  }
}
