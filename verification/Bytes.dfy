/** Byte strings, their concatenation, and the fixed-width integers the wire formats use. */
module Bytes {

  type byte = b: int | 0 <= b < 256

  const UINT16_LIMIT := 0x1_0000
  const UINT32_LIMIT := 0x1_0000_0000
  const UINT64_LIMIT := 0x1_0000_0000_0000_0000

  type uint16 = n: int | 0 <= n < UINT16_LIMIT
  type uint32 = n: int | 0 <= n < UINT32_LIMIT
  type uint64 = n: int | 0 <= n < UINT64_LIMIT

  /** The bytes of an ASCII text. */
  function Ascii(s: string): (bytes: seq<byte>)
    requires forall i | 0 <= i < |s| :: s[i] < '\U{80}'
    ensures |bytes| == |s| && forall i | 0 <= i < |s| :: bytes[i] == s[i] as int
  {
    seq(|s|, i requires 0 <= i < |s| => s[i] as int)
  }

  /** The concatenation of a list of sequences. */
  function Flatten<T>(parts: seq<seq<T>>): seq<T> {
    if parts == [] then [] else Flatten(parts[..|parts| - 1]) + parts[|parts| - 1]
  }

  lemma ConcatIsAssociative<T>(a: seq<T>, b: seq<T>, c: seq<T>)
    ensures a + b + c == a + (b + c)
  {
  }

  lemma FlattenSnoc<T>(parts: seq<seq<T>>, last: seq<T>)
    ensures Flatten(parts + [last]) == Flatten(parts) + last
  {
    assert (parts + [last])[..|parts|] == parts;
  }

  lemma {:induction false} FlattenAppend<T>(left: seq<seq<T>>, right: seq<seq<T>>)
    ensures Flatten(left + right) == Flatten(left) + Flatten(right)
  {
    if right == [] {
      assert left + right == left;
    } else {
      var init, last := right[..|right| - 1], right[|right| - 1];
      FlattenAppend(left, init);
      assert right == init + [last];
      ConcatIsAssociative(left, init, [last]);
      FlattenSnoc(left + init, last);
      FlattenSnoc(init, last);
      ConcatIsAssociative(Flatten(left), Flatten(init), last);
    }
  }

  lemma FlattenPrefix<T>(parts: seq<seq<T>>, i: nat)
    requires i < |parts|
    ensures Flatten(parts[..i + 1]) == Flatten(parts[..i]) + parts[i]
  {
    assert parts[..i + 1][..i] == parts[..i];
  }

  lemma FlattenPrefixFits<T>(parts: seq<seq<T>>, i: nat)
    requires i <= |parts|
    ensures |Flatten(parts[..i])| <= |Flatten(parts)|
  {
    assert parts[..i] + parts[i..] == parts;
    FlattenAppend(parts[..i], parts[i..]);
  }

  /** Big-endian 16-bit value of two bytes. */
  function BigEndian16(high: byte, low: byte): (n: uint16) {
    high * 256 + low
  }

  function PutBigEndian16(n: uint16): (bytes: seq<byte>)
    ensures |bytes| == 2 && BigEndian16(bytes[0], bytes[1]) == n
  {
    [n / 256, n % 256]
  }

  /** Big-endian 32-bit value of four bytes. */
  function BigEndian32(bytes: seq<byte>): (n: uint32)
    requires |bytes| == 4
  {
    BigEndian16(bytes[0], bytes[1]) as int * UINT16_LIMIT + BigEndian16(bytes[2], bytes[3])
  }

  function PutBigEndian32(n: uint32): (bytes: seq<byte>)
    ensures |bytes| == 4 && BigEndian32(bytes) == n
  {
    var high, low := n / UINT16_LIMIT, n % UINT16_LIMIT;
    PutBigEndian16(high) + PutBigEndian16(low)
  }

  lemma PutInvertsBigEndian16(high: byte, low: byte)
    ensures PutBigEndian16(BigEndian16(high, low)) == [high, low]
  {
    var bytes := PutBigEndian16(BigEndian16(high, low));
    BigEndian16Injective(bytes[0], bytes[1], high, low);
  }

  lemma BigEndian16Injective(high: byte, low: byte, high': byte, low': byte)
    requires BigEndian16(high, low) == BigEndian16(high', low')
    ensures high == high' && low == low'
  {
  }

  lemma HalvesInjective(high: uint16, low: uint16, high': uint16, low': uint16)
    requires high as int * 0x1_0000 + low == high' as int * 0x1_0000 + low'
    ensures high == high' && low == low'
  {
  }

  lemma BigEndian32Injective(a: seq<byte>, b: seq<byte>)
    requires |a| == |b| == 4 && BigEndian32(a) == BigEndian32(b)
    ensures a == b
  {
    HalvesInjective(BigEndian16(a[0], a[1]), BigEndian16(a[2], a[3]), BigEndian16(b[0], b[1]), BigEndian16(b[2], b[3]));
    BigEndian16Injective(a[0], a[1], b[0], b[1]);
    BigEndian16Injective(a[2], a[3], b[2], b[3]);
  }
}
