/** The few string operations the models share. Strings are sequences of Unicode characters. */
module Strings {

  /** The characters with the Unicode White_Space property. */
  predicate IsSpace(c: char) {
    || '\t' <= c <= '\r' || c == ' ' || c == '\U{85}' || c == '\U{A0}' || c == '\U{1680}'
    || '\U{2000}' <= c <= '\U{200A}' || c == '\U{2028}' || c == '\U{2029}' || c == '\U{202F}'
    || c == '\U{205F}' || c == '\U{3000}'
  }

  /** The characters, one by one. */
  lemma SpaceTable(c: char)
    ensures IsSpace(c) <==>
      || c in {'\U{9}', '\U{A}', '\U{B}', '\U{C}', '\U{D}', '\U{20}', '\U{85}', '\U{A0}', '\U{1680}'}
      || c in {'\U{2000}', '\U{2001}', '\U{2002}', '\U{2003}', '\U{2004}', '\U{2005}', '\U{2006}', '\U{2007}'}
      || c in {'\U{2008}', '\U{2009}', '\U{200A}', '\U{2028}', '\U{2029}', '\U{202F}', '\U{205F}', '\U{3000}'}
  {
  }

  function TrimLeft(s: string): string {
    if s != [] && IsSpace(s[0]) then TrimLeft(s[1..]) else s
  }

  function TrimRight(s: string): string {
    if s != [] && IsSpace(s[|s| - 1]) then TrimRight(s[..|s| - 1]) else s
  }

  function TrimSpace(s: string): string {
    TrimRight(TrimLeft(s))
  }

  /** A string with no space at either end is its own trimming. */
  predicate Trimmed(s: string) {
    s == [] || (!IsSpace(s[0]) && !IsSpace(s[|s| - 1]))
  }

  lemma TrimmedIsFixed(s: string)
    requires Trimmed(s)
    ensures TrimSpace(s) == s
  {
  }

  lemma {:induction false} TrimLeftStops(s: string)
    ensures TrimLeft(s) == [] || !IsSpace(TrimLeft(s)[0])
  {
    if s != [] && IsSpace(s[0]) { TrimLeftStops(s[1..]); }
  }

  lemma {:induction false} TrimRightStops(s: string)
    ensures TrimRight(s) <= s && (TrimRight(s) == [] || !IsSpace(TrimRight(s)[|TrimRight(s)| - 1]))
  {
    if s != [] && IsSpace(s[|s| - 1]) { TrimRightStops(s[..|s| - 1]); }
  }

  lemma TrimSpaceTrims(s: string)
    ensures Trimmed(TrimSpace(s)) && TrimSpace(TrimSpace(s)) == TrimSpace(s)
  {
    TrimLeftStops(s);
    TrimRightStops(TrimLeft(s));
    TrimmedIsFixed(TrimSpace(s));
  }

  predicate AllSpaces(s: string) {
    forall i | 0 <= i < |s| :: IsSpace(s[i])
  }

  lemma {:induction false} TrimLeftPart(s: string) returns (before: string)
    ensures AllSpaces(before) && s == before + TrimLeft(s)
  {
    if s != [] && IsSpace(s[0]) {
      var more := TrimLeftPart(s[1..]);
      before := [s[0]] + more;
      assert s == [s[0]] + s[1..];
    } else {
      before := "";
    }
  }

  lemma {:induction false} TrimRightPart(s: string) returns (after: string)
    ensures AllSpaces(after) && s == TrimRight(s) + after
  {
    if s != [] && IsSpace(s[|s| - 1]) {
      var more := TrimRightPart(s[..|s| - 1]);
      after := more + [s[|s| - 1]];
      assert s == s[..|s| - 1] + [s[|s| - 1]];
    } else {
      after := "";
      assert s + "" == s;
    }
  }

  /** Trimming takes spaces, and only spaces, off both ends. */
  lemma TrimSpaceParts(s: string) returns (before: string, after: string)
    ensures AllSpaces(before) && AllSpaces(after) && s == before + (TrimSpace(s) + after)
    ensures Trimmed(TrimSpace(s))
  {
    before := TrimLeftPart(s);
    after := TrimRightPart(TrimLeft(s));
    TrimSpaceTrims(s);
  }

  /** Nothing is left of a string exactly when it is all spaces. */
  lemma BlankIff(s: string)
    ensures TrimSpace(s) == "" <==> AllSpaces(s)
  {
    var before, after := TrimSpaceParts(s);
    if TrimSpace(s) == "" {
      forall i | 0 <= i < |s| ensures IsSpace(s[i]) {
        assert s == before + after;
        if i < |before| { assert s[i] == before[i]; } else { assert s[i] == after[i - |before|]; }
      }
    } else {
      assert s[|before|] == TrimSpace(s)[0];
    }
  }

  /** A string mapped character by character. */
  function MapChars(f: char -> char, s: string): (r: string)
    ensures |r| == |s| && forall i | 0 <= i < |s| :: r[i] == f(s[i])
  {
    seq(|s|, i requires 0 <= i < |s| => f(s[i]))
  }

  predicate HasPrefix(s: string, prefix: string) {
    prefix <= s
  }

  predicate HasSuffix(s: string, suffix: string) {
    |suffix| <= |s| && s[|s| - |suffix|..] == suffix
  }

  predicate OccursAt(s: string, part: string, i: nat) {
    i + |part| <= |s| && s[i..i + |part|] == part
  }

  predicate Contains(s: string, part: string) {
    exists i | 0 <= i <= |s| :: OccursAt(s, part, i)
  }

  /** The pieces of a string between the occurrences of a separator. */
  function Split(s: string, separator: char): (pieces: seq<string>)
    ensures pieces != [] && forall p <- pieces :: separator !in p
  {
    if s == [] then [[]]
    else if s[0] == separator then [[]] + Split(s[1..], separator)
    else
      var rest := Split(s[1..], separator);
      [[s[0]] + rest[0]] + rest[1..]
  }

  function Join(pieces: seq<string>, separator: char): string
    requires pieces != []
  {
    if |pieces| == 1 then pieces[0] else pieces[0] + [separator] + Join(pieces[1..], separator)
  }

  lemma {:induction false} JoinInvertsSplit(s: string, separator: char)
    ensures Join(Split(s, separator), separator) == s
  {
    if s != [] {
      JoinInvertsSplit(s[1..], separator);
      var rest := Split(s[1..], separator);
      if s[0] == separator {
        assert ([[]] + rest)[1..] == rest;
      } else {
        var pieces := [[s[0]] + rest[0]] + rest[1..];
        assert pieces[1..] == rest[1..];
        if |rest| == 1 { assert Join(pieces, separator) == [s[0]] + rest[0]; }
      }
    }
  }

  lemma {:induction false} SplitInvertsJoin(pieces: seq<string>, separator: char)
    requires pieces != [] && forall i | 0 <= i < |pieces| :: separator !in pieces[i]
    ensures Split(Join(pieces, separator), separator) == pieces
  {
    if |pieces| > 1 {
      SplitInvertsJoin(pieces[1..], separator);
      SplitAtSeparator(pieces[0], Join(pieces[1..], separator), separator);
      assert pieces[0] + [separator] + Join(pieces[1..], separator)
          == pieces[0] + ([separator] + Join(pieces[1..], separator));
    } else {
      SplitWhole(pieces[0], separator);
      assert pieces == [pieces[0]];
    }
  }

  lemma {:induction false} SplitWhole(piece: string, separator: char)
    requires separator !in piece
    ensures Split(piece, separator) == [piece]
  {
    if piece != [] {
      SplitWhole(piece[1..], separator);
      assert [piece[0]] + piece[1..] == piece;
    }
  }

  lemma {:induction false} SplitAtSeparator(piece: string, rest: string, separator: char)
    requires separator !in piece
    ensures Split(piece + ([separator] + rest), separator) == [piece] + Split(rest, separator)
  {
    var all := piece + ([separator] + rest);
    if piece == [] {
      assert all[1..] == rest;
    } else {
      SplitAtSeparator(piece[1..], rest, separator);
      assert all[1..] == piece[1..] + ([separator] + rest);
      assert [piece[0]] + piece[1..] == piece;
      assert ([piece[1..]] + Split(rest, separator))[1..] == Split(rest, separator);
    }
  }
}
