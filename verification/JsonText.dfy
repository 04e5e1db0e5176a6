/** JSON strings at byte level: the hand-written writer, and a reader for every escape of the standard. */
module JsonText {
  import opened Bytes
  import opened Results
  import Utf8

  const QUOTE: byte := 0x22
  const BACKSLASH: byte := 0x5C

  function HexDigit(n: nat): byte
    requires n < 16
  {
    if n < 10 then 0x30 + n else 0x61 + (n - 10)
  }

  function HexValue(b: byte): (n: nat)
    ensures n <= 16
  {
    if 0x30 <= b <= 0x39 then b - 0x30
    else if 0x61 <= b <= 0x66 then b - 0x61 + 10
    else if 0x41 <= b <= 0x46 then b - 0x41 + 10
    else 16
  }

  /** How the writer writes one byte. */
  function Escape(b: byte): (bytes: seq<byte>)
    ensures bytes != []
  {
    if b == BACKSLASH || b == QUOTE then [BACKSLASH, b]
    else if b == 0x0A then [BACKSLASH, 0x6E]
    else if b == 0x0D then [BACKSLASH, 0x72]
    else if b == 0x09 then [BACKSLASH, 0x74]
    else if b < 0x20 then [BACKSLASH, 0x75, 0x30, 0x30, HexDigit(b / 16), HexDigit(b % 16)]
    else [b]
  }

  function Escaped(s: seq<byte>): seq<byte> {
    if s == [] then [] else Escape(s[0]) + Escaped(s[1..])
  }

  function Quoted(s: seq<byte>): seq<byte> {
    [QUOTE] + Escaped(s) + [QUOTE]
  }

  /** The writer's switch on one byte. */
  method WriteEscaped(out: seq<byte>, b: byte) returns (r: seq<byte>)
    ensures r == out + Escape(b)
  {
    if b == BACKSLASH || b == QUOTE {
      r := out + [BACKSLASH];
      r := r + [b];
    } else if b == 0x0A {
      r := out + [BACKSLASH, 0x6E];
    } else if b == 0x0D {
      r := out + [BACKSLASH, 0x72];
    } else if b == 0x09 {
      r := out + [BACKSLASH, 0x74];
    } else if b < 0x20 {
      r := out + [BACKSLASH, 0x75, 0x30, 0x30];
      r := r + [HexDigit(b / 16)];
      r := r + [HexDigit(b % 16)];
    } else {
      r := out + [b];
    }
  }

  /** The writer's loop over the bytes of a string. */
  method WriteString(out: seq<byte>, value: seq<byte>) returns (r: seq<byte>)
    ensures r == out + Quoted(value)
  {
    r := out + [QUOTE];
    for i := 0 to |value|
      invariant r + Escaped(value[i..]) == out + [QUOTE] + Escaped(value)
    {
      ghost var was := r;
      r := WriteEscaped(r, value[i]);
      assert value[i..][0] == value[i] && value[i..][1..] == value[i + 1..];
      ConcatIsAssociative(was, Escape(value[i]), Escaped(value[i + 1..]));
    }
    assert value[|value|..] == [] && r + [] == r;
    ConcatIsAssociative(out, [QUOTE], Escaped(value));
    ConcatIsAssociative(out, [QUOTE] + Escaped(value), [QUOTE]);
    r := r + [QUOTE];
  }

  // ----- the reader

  /** The number four hexadecimal digits stand for, if they are digits. */
  function ReadHex4(s: seq<byte>): (r: Option<nat>)
    ensures r.Some? ==> |s| >= 4 && r.value < 0x1_0000
  {
    if |s| >= 4 && (forall i | 0 <= i < 4 :: HexValue(s[i]) < 16)
    then Some(((HexValue(s[0]) * 16 + HexValue(s[1])) * 16 + HexValue(s[2])) * 16 + HexValue(s[3]))
    else None
  }

  /** A \u escape: the bytes it stands for and its length, a surrogate pair read as one character and a
      lone surrogate as U+FFFD. */
  function ReadUnicode(s: seq<byte>): (r: Option<(seq<byte>, nat)>)
    ensures r.Some? ==> 6 <= r.value.1 <= |s|
  {
    if |s| < 6 || ReadHex4(s[2..]).None? then None
    else
      var unit := ReadHex4(s[2..]).value;
      if 0xD800 <= unit < 0xDC00 && |s| >= 12 && s[6] == BACKSLASH && s[7] == 0x75 && ReadHex4(s[8..]).Some?
         && 0xDC00 <= ReadHex4(s[8..]).value < 0xE000
      then Some((Utf8.Encode(0x1_0000 + (unit - 0xD800) * 1024 + (ReadHex4(s[8..]).value - 0xDC00)), 12))
      else Some((Utf8.Encode(unit), 6))
  }

  function ReadEscape(s: seq<byte>): (r: Option<(seq<byte>, nat)>)
    ensures r.Some? ==> 2 <= r.value.1 <= |s|
  {
    if |s| < 2 then None
    else if s[1] == QUOTE || s[1] == BACKSLASH || s[1] == 0x2F then Some(([s[1]], 2))
    else if s[1] == 0x62 then Some(([0x08], 2))
    else if s[1] == 0x66 then Some(([0x0C], 2))
    else if s[1] == 0x6E then Some(([0x0A], 2))
    else if s[1] == 0x72 then Some(([0x0D], 2))
    else if s[1] == 0x74 then Some(([0x09], 2))
    else if s[1] == 0x75 then ReadUnicode(s)
    else None
  }

  function Before(text: seq<byte>, r: Option<(seq<byte>, seq<byte>)>): Option<(seq<byte>, seq<byte>)> {
    match r
    case None => None
    case Some((more, rest)) => Some((text + more, rest))
  }

  /** Reads up to the closing quote; the text and what follows the quote. */
  function ReadChars(s: seq<byte>): (r: Option<(seq<byte>, seq<byte>)>)
    ensures r.Some? ==> |r.value.1| < |s|
    decreases |s|
  {
    if s == [] then None
    else if s[0] == QUOTE then Some(([], s[1..]))
    else if s[0] == BACKSLASH then
      (match ReadEscape(s)
       case None => None
       case Some((text, n)) => Before(text, ReadChars(s[n..])))
    else if s[0] < 0x20 then None
    else if Utf8.SequenceLength(s) == 0 then Before(Utf8.Replacement(), ReadChars(s[1..]))
    else Before(s[..Utf8.SequenceLength(s)], ReadChars(s[Utf8.SequenceLength(s)..]))
  }

  function ReadString(s: seq<byte>): (r: Option<(seq<byte>, seq<byte>)>)
    ensures r.Some? ==> |r.value.1| < |s|
  {
    if s == [] || s[0] != QUOTE then None else ReadChars(s[1..])
  }

  // ----- reading what was written

  lemma EscapeReadsBack(b: byte, rest: seq<byte>)
    requires b < 0x80
    ensures ReadChars(Escape(b) + rest) == Before([b], ReadChars(rest))
  {
    if |Escape(b)| == 6 {
      ControlReadsBack(b, rest);
    } else if |Escape(b)| == 2 {
      ShortReadsBack(b, rest);
    } else {
      var all := [b] + rest;
      assert all[1..] == rest && all[..1] == [b];
      assert Utf8.SequenceLength(all) == 1;
    }
  }

  lemma ShortReadsBack(b: byte, rest: seq<byte>)
    requires |Escape(b)| == 2
    ensures ReadChars(Escape(b) + rest) == Before([b], ReadChars(rest))
  {
    var all := Escape(b) + rest;
    assert all[2..] == rest;
    assert ReadEscape(all) == Some(([b], 2));
  }

  lemma ControlReadsBack(b: byte, rest: seq<byte>)
    requires b < 0x20 && |Escape(b)| == 6
    ensures ReadChars(Escape(b) + rest) == Before([b], ReadChars(rest))
  {
    var all := Escape(b) + rest;
    assert all[6..] == rest;
    HexDigitsReadBack(b, all[2..]);
    assert ReadEscape(all) == Some(([b], 6));
  }

  lemma HexDigitsReadBack(b: byte, s: seq<byte>)
    requires |s| >= 4 && s[0] == s[1] == 0x30 && s[2] == HexDigit(b / 16) && s[3] == HexDigit(b % 16)
    ensures ReadHex4(s) == Some(b)
  {
  }

  lemma {:induction false} EscapedSameHigh(s: seq<byte>, rest: seq<byte>, k: nat)
    ensures Utf8.SameHigh(s, Escaped(s) + ([QUOTE] + rest), k)
  {
    var all := Escaped(s) + ([QUOTE] + rest);
    if Utf8.Low(s) {
      assert s != [] ==> all[0] == Escape(s[0])[0];
    } else if k > 0 {
      EscapedSameHigh(s[1..], rest, k - 1);
      assert all == [s[0]] + (Escaped(s[1..]) + ([QUOTE] + rest));
      assert all[1..] == Escaped(s[1..]) + ([QUOTE] + rest);
    }
  }

  lemma {:induction false} HighBytesUnescaped(high: seq<byte>, rest: seq<byte>)
    requires forall i | 0 <= i < |high| :: high[i] >= 0x80
    ensures Escaped(high + rest) == high + Escaped(rest)
  {
    if high == [] {
      assert high + rest == rest;
    } else {
      HighBytesUnescaped(high[1..], rest);
      assert (high + rest)[1..] == high[1..] + rest;
      ConcatIsAssociative([high[0]], high[1..], Escaped(rest));
      assert high == [high[0]] + high[1..];
    }
  }

  /** The reader takes a well-formed sequence whole and any other byte from 0x80 up alone. */
  lemma ReadsSequence(head: seq<byte>, tail: seq<byte>, whole: bool)
    requires head != [] && head[0] >= 0x80
    requires Utf8.SequenceLength(head + tail) == if whole then |head| else 0
    requires !whole ==> |head| == 1
    ensures ReadChars(head + tail) == Before(if whole then head else Utf8.Replacement(), ReadChars(tail))
  {
    var all := head + tail;
    assert all[|head|..] == tail && all[..|head|] == head;
  }

  lemma SequenceReadsBack(s: seq<byte>, head: seq<byte>, more: seq<byte>, rest: seq<byte>)
    requires s == head + more && head != [] && s[0] >= 0x80
    requires |head| == if Utf8.SequenceLength(s) == 0 then 1 else Utf8.SequenceLength(s)
    ensures ReadChars(Escaped(s) + ([QUOTE] + rest))
         == Before(if Utf8.SequenceLength(s) == 0 then Utf8.Replacement()
             else head, ReadChars(Escaped(more) + ([QUOTE] + rest)))
  {
    EscapedSameHigh(s, rest, 4);
    Utf8.SameHighSameLength(s, Escaped(s) + ([QUOTE] + rest));
    HighBytesUnescaped(head, more);
    ConcatIsAssociative(head, Escaped(more), [QUOTE] + rest);
    ReadsSequence(head, Escaped(more) + ([QUOTE] + rest), Utf8.SequenceLength(s) != 0);
  }

  lemma {:induction false} CharsReadBack(s: seq<byte>, rest: seq<byte>)
    ensures ReadChars(Escaped(s) + ([QUOTE] + rest)) == Some((Utf8.Repair(s), rest))
    decreases |s|
  {
    var tail := [QUOTE] + rest;
    if s == [] {
      assert Escaped(s) + tail == tail;
    } else if s[0] < 0x80 {
      CharsReadBack(s[1..], rest);
      EscapeReadsBack(s[0], Escaped(s[1..]) + tail);
      ConcatIsAssociative(Escape(s[0]), Escaped(s[1..]), tail);
      assert s[..1] == [s[0]];
    } else {
      var n := if Utf8.SequenceLength(s) == 0 then 1 else Utf8.SequenceLength(s);
      assert s == s[..n] + s[n..];
      SequenceReadsBack(s, s[..n], s[n..], rest);
      CharsReadBack(s[n..], rest);
    }
  }

  /** Any byte string written in front of any suffix reads back, UTF-8 repaired, with that suffix. */
  lemma StringReadsBack(s: seq<byte>, rest: seq<byte>)
    ensures ReadString(Quoted(s) + rest) == Some((Utf8.Repair(s), rest))
    ensures ReadString(Quoted(s) + rest) == Some((s, rest)) <==> Utf8.Valid(s)
  {
    CharsReadBack(s, rest);
    Utf8.RepairKeepsIffValid(s);
    ConcatIsAssociative([QUOTE] + Escaped(s), [QUOTE], rest);
    ConcatIsAssociative([QUOTE], Escaped(s), [QUOTE] + rest);
    assert ([QUOTE] + (Escaped(s) + ([QUOTE] + rest)))[1..] == Escaped(s) + ([QUOTE] + rest);
  }

  // ----- whatever is read is UTF-8

  lemma EscapeYieldsUtf8(s: seq<byte>)
    requires ReadEscape(s).Some?
    ensures Utf8.Valid(ReadEscape(s).value.0)
  {
    var text := ReadEscape(s).value.0;
    if s[1] == 0x75 {
      var unit := ReadHex4(s[2..]).value;
      Utf8.EncodedIsSequence(unit);
      if ReadEscape(s).value.1 == 12 {
        Utf8.EncodedIsSequence(0x1_0000 + (unit - 0xD800) * 1024 + (ReadHex4(s[8..]).value - 0xDC00));
      }
      Utf8.ValidAfterSequence(text, []);
      assert text + [] == text;
    } else {
      Utf8.AsciiIsValid(text);
    }
  }

  lemma {:induction false} ReadsUtf8(s: seq<byte>)
    requires ReadChars(s).Some?
    ensures Utf8.Valid(ReadChars(s).value.0)
    decreases |s|
  {
    if s[0] != QUOTE {
      var n := Utf8.SequenceLength(s);
      if s[0] == BACKSLASH {
        var (text, m) := ReadEscape(s).value;
        EscapeYieldsUtf8(s);
        ReadsUtf8(s[m..]);
        Utf8.ValidConcat(text, ReadChars(s[m..]).value.0);
      } else if n == 0 {
        ReadsUtf8(s[1..]);
        Utf8.ValidAfterSequence(Utf8.Replacement(), ReadChars(s[1..]).value.0);
      } else {
        ReadsUtf8(s[n..]);
        assert Utf8.SequenceLength(s[..n]) == n;
        Utf8.ValidAfterSequence(s[..n], ReadChars(s[n..]).value.0);
      }
    }
  }
}
