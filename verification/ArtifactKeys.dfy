/** Which object keys the host accepts, and where their files end up. */
module ArtifactKeys {
  import opened Results
  import opened Strings
  import opened Artifacts

  /** Resolving path segments inside a directory: empty and "." segments vanish, ".." steps back, and
      stepping out of the directory is None. */
  function Resolve(segments: seq<string>): Option<seq<string>> {
    if segments == [] then Some([])
    else
      match Resolve(segments[..|segments| - 1])
      case None => None
      case Some(path) =>
        var last := segments[|segments| - 1];
        if last == "" || last == "." then Some(path)
        else if last == ".." then (if path == [] then None else Some(path[..|path| - 1]))
        else Some(path + [last])
  }

  /** The segments that do not step down: empty ones and single dots stay, double dots step back. */
  lemma SpecialSegments(path: seq<string>, last: string)
    requires Resolve(path).Some?
    ensures last == "" || last == "." ==> Resolve(path + [last]) == Resolve(path)
    ensures last == ".." && Resolve(path).value != [] ==>
              Resolve(path + [last]) == Some(Resolve(path).value[..|Resolve(path).value| - 1])
    ensures last == ".." && Resolve(path).value == [] ==> Resolve(path + [last]) == None
  {
    assert (path + [last])[..|path|] == path && |".."| != |"."|;
  }

  predicate PlainSegment(segment: string) {
    segment != "" && segment != "." && !Contains(segment, "..")
  }

  lemma {:induction false} SegmentsResolve(segments: seq<string>)
    requires forall i | 0 <= i < |segments| :: segments[i] != "" && segments[i] != "." && segments[i] != ".."
    ensures Resolve(segments) == Some(segments)
  {
    if segments != [] {
      SegmentsResolve(segments[..|segments| - 1]);
      assert segments == segments[..|segments| - 1] + [segments[|segments| - 1]];
    }
  }

  lemma PlainSegmentsResolve(segments: seq<string>)
    requires forall i | 0 <= i < |segments| :: PlainSegment(segments[i])
    ensures Resolve(segments) == Some(segments)
  {
    forall i | 0 <= i < |segments| ensures segments[i] != ".." {
      if segments[i] == ".." { assert OccursAt(segments[i], "..", 0); }
    }
    SegmentsResolve(segments);
  }

  lemma OccursAfter(first: string, rest: string, part: string, i: nat)
    requires OccursAt(rest, part, i)
    ensures OccursAt(first + rest, part, |first| + i)
  {
    assert (first + rest)[|first| + i..|first| + i + |part|] == rest[i..i + |part|];
  }

  lemma OccursBefore(first: string, rest: string, part: string, i: nat)
    requires OccursAt(first, part, i)
    ensures OccursAt(first + rest, part, i)
  {
    assert (first + rest)[i..i + |part|] == first[i..i + |part|];
  }

  /** What occurs in a segment occurs in the string. */
  lemma {:induction false} SegmentOccurrence(s: string, separator: char, j: nat, part: string)
    requires j < |Split(s, separator)| && Contains(Split(s, separator)[j], part)
    ensures Contains(s, part)
  {
    var pieces := Split(s, separator);
    if j == 0 {
      FirstSegmentStarts(s, separator);
      var i :| 0 <= i <= |pieces[0]| && OccursAt(pieces[0], part, i);
      OccursBefore(pieces[0], s[|pieces[0]|..], part, i);
      assert pieces[0] + s[|pieces[0]|..] == s;
    } else {
      SegmentOccurrence(s[1..], separator, if s[0] == separator then j - 1 else j, part);
      var i :| 0 <= i <= |s[1..]| && OccursAt(s[1..], part, i);
      OccursAfter([s[0]], s[1..], part, i);
      assert s == [s[0]] + s[1..];
    }
  }

  lemma {:induction false} FirstSegmentStarts(s: string, separator: char)
    ensures Split(s, separator)[0] <= s
  {
    if s != [] { FirstSegmentStarts(s[1..], separator); }
  }

  /** Two dots in a row are in one segment. */
  lemma {:induction false} DotsInSegment(s: string, k: nat)
    requires OccursAt(s, "..", k)
    ensures exists j | 0 <= j < |Split(s, '/')| :: Contains(Split(s, '/')[j], "..")
  {
    var pieces, rest := Split(s, '/'), Split(s[1..], '/');
    if k == 0 {
      assert s[..2] == "..";
      FirstSegmentStarts(s, '/');
      assert rest[0] != "" by { assert s[1] == '.'; }
      assert OccursAt(pieces[0], "..", 0) by { assert pieces[0][..2] == s[..2]; }
    } else {
      assert s[1..][k - 1..k + 1] == s[k..k + 2];
      DotsInSegment(s[1..], k - 1);
      var j :| 0 <= j < |rest| && Contains(rest[j], "..");
      if s[0] == '/' {
        assert pieces[j + 1] == rest[j];
      } else if j == 0 {
        var i :| 0 <= i <= |rest[0]| && OccursAt(rest[0], "..", i);
        OccursAfter([s[0]], rest[0], "..", i);
        assert pieces[0] == [s[0]] + rest[0];
      } else {
        assert pieces[j] == rest[j];
      }
    }
  }

  predicate KeyChars(key: string) {
    forall i | 0 <= i < |key| :: IsKeyChar(key[i])
  }

  predicate PlainSegments(key: string) {
    forall j | 0 <= j < |Split(key, '/')| :: PlainSegment(Split(key, '/')[j])
  }

  /** A key is accepted exactly when its characters are allowed and every segment is plain: the tests
      for a leading slash, a doubled slash and the empty key add nothing. */
  lemma ValidKeyIffPlain(key: string)
    ensures ValidKey(key) <==> KeyChars(key) && PlainSegments(key)
  {
    var pieces := Split(key, '/');
    if ValidKey(key) {
      forall j | 0 <= j < |pieces| ensures PlainSegment(pieces[j]) {
        assert pieces[j] in pieces;
        if Contains(pieces[j], "..") { SegmentOccurrence(key, '/', j, ".."); }
      }
    }
    if KeyChars(key) && PlainSegments(key) {
      assert PlainSegment(pieces[0]);
      if Contains(key, "..") {
        var k :| 0 <= k <= |key| && OccursAt(key, "..", k);
        DotsInSegment(key, k);
      }
      if Contains(key, "//") {
        var k :| 0 <= k <= |key| && OccursAt(key, "//", k);
        EmptySegment(key, k);
      }
    }
  }

  /** Between two slashes in a row is an empty segment, and not the first one. */
  lemma {:induction false} EmptySegment(s: string, k: nat)
    requires OccursAt(s, "//", k)
    ensures exists j | 0 < j < |Split(s, '/')| :: Split(s, '/')[j] == ""
  {
    var pieces, rest := Split(s, '/'), Split(s[1..], '/');
    if k == 0 {
      assert s[..2] == "//";
      assert rest[0] == "" by { assert s[1] == '/'; }
      assert pieces[1] == "";
    } else {
      assert s[1..][k - 1..k + 1] == s[k..k + 2];
      EmptySegment(s[1..], k - 1);
      var j :| 0 < j < |rest| && rest[j] == "";
      if s[0] == '/' {
        assert pieces[j + 1] == "";
      } else {
        assert pieces[j] == "";
      }
    }
  }

  /** Every accepted key names a file inside the directory, and different keys name different files. */
  lemma AcceptedKeysNameDistinctFiles(one: string, other: string)
    requires ValidKey(one) && ValidKey(other)
    ensures Resolve(Split(one, '/')).Some? && Resolve(Split(one, '/')).value != []
    ensures Resolve(Split(one, '/')) == Resolve(Split(other, '/')) ==> one == other
  {
    ValidKeyIffPlain(one);
    ValidKeyIffPlain(other);
    PlainSegmentsResolve(Split(one, '/'));
    PlainSegmentsResolve(Split(other, '/'));
    JoinInvertsSplit(one, '/');
    JoinInvertsSplit(other, '/');
  }
}
