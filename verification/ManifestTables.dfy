/** The validator's verdicts by field, and what references, paths and contributions look like. */
module ManifestTables {
  import opened Results
  import opened Strings
  import opened Manifest

  // ----- faults by field

  /** The problem of a field. */
  function ProblemOf(s: Contribution, field: Field): Option<Problem> {
    match field
    case Id => RefProblem(s.id)
    case DisplayContractId => RefProblem(s.displayContractId)
    case Version => VersionProblem(s.version)
    case DisplayContractVersion => VersionProblem(s.displayContractVersion)
    case OcsfVersion => if s.ocsfVersion == "" then None else VersionProblem(s.ocsfVersion)
    case SignalType => Unless(AllowedSignalType(s.signalType), NotAllowed)
    case PayloadKind => Unless(AllowedPayloadKind(s.payloadKind), NotAllowed)
    case PayloadSchema => PathProblem(s.payloadSchema)
    case DisplayContract => PathProblem(s.displayContract)
    case ClassUid => if s.classUid < 0 then Some(Negative) else None
    case TypeUid => if s.typeUid < 0 then Some(Negative) else None
  }

  /** The place of a field in the validator's order. */
  function PlaceOf(field: Field): (i: nat)
    ensures i < 11 && FieldAt(i) == field
  {
    match field
    case Id => 0
    case DisplayContractId => 1
    case Version => 2
    case DisplayContractVersion => 3
    case OcsfVersion => 4
    case SignalType => 5
    case PayloadKind => 6
    case PayloadSchema => 7
    case DisplayContract => 8
    case ClassUid => 9
    case TypeUid => 10
  }

  lemma ProblemAt(s: Contribution, field: Field)
    ensures |Problems(s)| == 11 && Problems(s)[PlaceOf(field)] == ProblemOf(s, field)
  {
    if PlaceOf(field) < 5 { EarlyProblemAt(s, field); } else { LateProblemAt(s, field); }
  }

  lemma EarlyProblemAt(s: Contribution, field: Field)
    requires PlaceOf(field) < 5
    ensures |Problems(s)| == 11 && Problems(s)[PlaceOf(field)] == ProblemOf(s, field)
  {
  }

  lemma LateProblemAt(s: Contribution, field: Field)
    requires PlaceOf(field) >= 5
    ensures |Problems(s)| == 11 && Problems(s)[PlaceOf(field)] == ProblemOf(s, field)
  {
  }

  lemma KindsAllowed(kind: string)
    ensures AllowedSignalType(kind) <==> kind in {"event", "log"}
    ensures AllowedPayloadKind(kind) <==> kind in {"ocsf_event", "otel_log"}
  {
  }

  /** What is reported of a field is exactly its problem. */
  lemma FaultIff(s: Contribution, field: Field, problem: Problem)
    ensures (field, problem) in Reported(Problems(s)) <==> ProblemOf(s, field) == Some(problem)
  {
    ProblemAt(s, field);
    ReportedIff(Problems(s), PlaceOf(field), problem);
  }

  lemma {:induction false} ReportedFields(problems: seq<Option<Problem>>)
    requires |problems| <= 11
    ensures forall i | 0 <= i < |Reported(problems)| :: PlaceOf(Reported(problems)[i].0) < |problems|
    ensures forall i, j | 0 <= i < j < |Reported(problems)| ::
      PlaceOf(Reported(problems)[i].0) < PlaceOf(Reported(problems)[j].0)
  {
    if problems != [] {
      var n := |problems| - 1;
      ReportedFields(problems[..n]);
      PlaceOfFieldAt(n);
    }
  }

  lemma PlaceOfFieldAt(n: nat)
    requires n < 11
    ensures PlaceOf(FieldAt(n)) == n
  {
  }

  /** The faults come in the order of the fields. */
  lemma FaultsInOrder(s: Contribution, i: nat, j: nat)
    requires i < j < |Reported(Problems(s))|
    ensures PlaceOf(Reported(Problems(s))[i].0) < PlaceOf(Reported(Problems(s))[j].0)
  {
    ReportedFields(Problems(s));
  }

  // ----- references and paths

  lemma CharacterTables(c: char)
    ensures LowerOrDigit(c) <==>
      || c in {'a', 'b', 'c', 'd', 'e', 'f', 'g', 'h', 'i', 'j', 'k', 'l', 'm'}
      || c in {'n', 'o', 'p', 'q', 'r', 's', 't', 'u', 'v', 'w', 'x', 'y', 'z'}
      || c in {'0', '1', '2', '3', '4', '5', '6', '7', '8', '9'}
    ensures Alphanumeric(c) <==>
      || LowerOrDigit(c)
      || c in {'A', 'B', 'C', 'D', 'E', 'F', 'G', 'H', 'I', 'J', 'K', 'L', 'M'}
      || c in {'N', 'O', 'P', 'Q', 'R', 'S', 'T', 'U', 'V', 'W', 'X', 'Y', 'Z'}
    ensures RefChar(c, true) <==> LowerOrDigit(c)
    ensures RefChar(c, false) <==> LowerOrDigit(c) || c in {'_', '.', '-'}
    ensures SegmentChar(c, true) <==> Alphanumeric(c) || c in {'_', '-'}
    ensures SegmentChar(c, false) <==> Alphanumeric(c) || c in {'_', '-', '.'}
  {
  }

  /** The characters of a version's numbers and of its suffix. */
  lemma VersionCharacters(c: char, rest: string)
    ensures !IsDigits("") && !SuffixText("")
    ensures IsDigits([c] + rest) <==>
      c in {'0', '1', '2', '3', '4', '5', '6', '7', '8', '9'} && (rest == "" || IsDigits(rest))
    ensures SuffixText([c] + rest) <==> (Alphanumeric(c) || c in {'.', '-'}) && (rest == "" || SuffixText(rest))
  {
    var all := [c] + rest;
    assert all[0] == c && all[1..] == rest && forall i | 0 <= i < |rest| :: rest[i] == all[i + 1];
  }

  /** A reference has a problem exactly in these cases: it is blank; it is longer than 160 bytes; or it is not a
      lower-case letter or digit followed by such characters, underscores, dots and hyphens. */
  lemma RefProblemIs(value: string)
    ensures RefProblem(value) == None <==> |value| <= 160 && IsSignalRef(value)
    ensures RefProblem(value) == Some(Blank) <==> AllSpaces(value)
    ensures RefProblem(value) == Some(TooLong) <==> ByteLength(value) > 160 && !AllSpaces(value)
  {
    BlankIff(value);
    if IsSignalRef(value) {
      AsciiByteLength(value);
      assert RefChar(value[0], true) && !IsSpace(value[0]);
    }
  }

  /** A path is relative to the bundle exactly when it is segments with slashes between them, each made of
      letters, digits, underscores, hyphens and, but for its start, dots. */
  lemma RelativePathIff(value: string)
    ensures IsRelativeBundlePath(value) <==>
      exists pieces :: Joins(value, pieces) && forall i | 0 <= i < |pieces| :: IsSegment(pieces[i])
  {
    if IsRelativeBundlePath(value) {
      JoinInvertsSplit(value, '/');
      assert Joins(value, Split(value, '/'));
    }
    if pieces :| Joins(value, pieces) && forall i | 0 <= i < |pieces| :: IsSegment(pieces[i]) {
      SegmentsJoined(pieces);
    }
  }

  predicate Joins(value: string, pieces: seq<string>) {
    pieces != [] && value == Join(pieces, '/')
  }

  lemma SegmentHasNoSlash(segment: string)
    requires IsSegment(segment)
    ensures '/' !in segment && segment[0] != '/' && segment[|segment| - 1] != '/'
  {
    assert SegmentChar(segment[0], true);
    assert SegmentChar(segment[|segment| - 1], |segment| - 1 == 0);
    forall i | 0 <= i < |segment| ensures segment[i] != '/' { assert SegmentChar(segment[i], i == 0); }
  }

  lemma {:induction false} JoinEnds(pieces: seq<string>)
    requires pieces != [] && forall i | 0 <= i < |pieces| :: IsSegment(pieces[i])
    ensures var value := Join(pieces, '/'); value != "" && value[0] != '/' && value[|value| - 1] != '/'
  {
    SegmentHasNoSlash(pieces[0]);
    if |pieces| > 1 { JoinEnds(pieces[1..]); }
  }

  lemma SegmentsJoined(pieces: seq<string>)
    requires pieces != [] && forall i | 0 <= i < |pieces| :: IsSegment(pieces[i])
    ensures IsRelativeBundlePath(Join(pieces, '/'))
  {
    forall i | 0 <= i < |pieces| ensures '/' !in pieces[i] { SegmentHasNoSlash(pieces[i]); }
    JoinEnds(pieces);
    SplitInvertsJoin(pieces, '/');
    EndsAreNoSlash(Join(pieces, '/'));
  }

  lemma EndsAreNoSlash(value: string)
    requires value != "" && value[0] != '/' && value[|value| - 1] != '/'
    ensures !HasPrefix(value, "/") && !HasSuffix(value, "/")
  {
    assert value[|value| - 1..] == [value[|value| - 1]];
  }

  lemma {:induction false} JoinIsAscii(pieces: seq<string>)
    requires pieces != [] && forall i | 0 <= i < |pieces| :: IsSegment(pieces[i])
    ensures forall j | 0 <= j < |Join(pieces, '/')| :: Join(pieces, '/')[j] < '\U{80}'
  {
    var first := pieces[0];
    forall j | 0 <= j < |first| ensures first[j] < '\U{80}' { assert SegmentChar(first[j], j == 0); }
    if |pieces| > 1 { JoinIsAscii(pieces[1..]); }
  }

  lemma JoinStarts(pieces: seq<string>)
    requires pieces != [] && IsSegment(pieces[0])
    ensures Join(pieces, '/') != "" && !IsSpace(Join(pieces, '/')[0])
  {
    assert SegmentChar(pieces[0][0], true);
  }

  lemma RelativeIsPlain(value: string)
    requires IsRelativeBundlePath(value)
    ensures ByteLength(value) == |value| && !AllSpaces(value)
  {
    var pieces := Split(value, '/');
    JoinInvertsSplit(value, '/');
    JoinIsAscii(pieces);
    JoinStarts(pieces);
    AsciiByteLength(value);
  }

  ghost predicate HasTwoDots(value: string) {
    exists i | 0 < i < |value| :: value[i - 1] == '.' && value[i] == '.'
  }

  predicate EndsInJson(value: string) {
    var n := |value|;
    n >= 5 && value[n - 5] == '.' && value[n - 4] == 'j' && value[n - 3] == 's' && value[n - 2] == 'o'
    && value[n - 1] == 'n'
  }

  lemma TwoDotsIff(value: string)
    ensures Contains(value, "..") <==> HasTwoDots(value)
  {
    forall i: nat ensures OccursAt(value, "..", i) <==> i + 1 < |value| && value[i] == '.' && value[i + 1] == '.' {
      TwoDotsAt(value, i);
    }
    if HasTwoDots(value) {
      var i :| 0 < i < |value| && value[i - 1] == '.' && value[i] == '.';
      assert OccursAt(value, "..", i - 1);
    }
    if Contains(value, "..") {
      var i :| 0 <= i <= |value| && OccursAt(value, "..", i);
      assert value[i + 1 - 1] == '.' && value[i + 1] == '.';
    }
  }

  lemma JsonIff(value: string)
    ensures HasSuffix(value, ".json") <==> EndsInJson(value)
  {
    var n := |value|;
    if n >= 5 {
      assert value[n - 5..] == [value[n - 5], value[n - 4], value[n - 3], value[n - 2], value[n - 1]];
    }
  }

  /** A path has no problem exactly when it has at most 240 characters, is relative to the bundle, ends in ".json"
      and has no two dots in a row; and which problem it has otherwise. */
  lemma PathProblemIs(value: string)
    ensures PathProblem(value) == None <==>
      |value| <= 240 && IsRelativeBundlePath(value) && EndsInJson(value) && !HasTwoDots(value)
    ensures PathProblem(value) == Some(Blank) <==> AllSpaces(value)
    ensures PathProblem(value) == Some(TooLong) <==> ByteLength(value) > 240 && !AllSpaces(value)
    ensures PathProblem(value) == Some(Traverses) <==> ByteLength(value) <= 240 && HasTwoDots(value)
    ensures PathProblem(value) == Some(NotJson) <==>
      ByteLength(value) <= 240 && !HasTwoDots(value) && !EndsInJson(value) && !AllSpaces(value)
    ensures PathProblem(value) == Some(NotRelative) <==>
      ByteLength(value) <= 240 && !HasTwoDots(value) && EndsInJson(value) && !IsRelativeBundlePath(value)
  {
    BlankIff(value);
    TwoDotsIff(value);
    JsonIff(value);
    NotAllSpaces(value);
    if IsRelativeBundlePath(value) { RelativeIsPlain(value); }
  }

  lemma NotAllSpaces(value: string)
    ensures EndsInJson(value) || HasTwoDots(value) ==> !AllSpaces(value)
  {
    assert EndsInJson(value) ==> !IsSpace(value[|value| - 1]);
  }

  // ----- contributions

  /** A contribution's conventional paths and identifiers, from an id whose last dotted piece is `short`. */
  lemma ConventionalContribution(prefix: string, short: string, version: string, signalType: string,
      payloadKind: string)
    requires '.' !in short
    ensures var s := NewContribution(prefix + ("." + short), version, signalType, payloadKind);
      && s.id == prefix + ("." + short) && s.version == version && s.signalType == signalType
      && s.payloadKind == payloadKind
      && s.payloadSchema == "schemas/" + (short + ".schema.json")
      && s.displayContract == "display/" + (short + ".display.json")
      && s.displayContractId == s.id + ".display" && s.displayContractVersion == version
      && s.ocsfVersion == "" && s.classUid == 0 && s.typeUid == 0
  {
    LastPiece(prefix, short);
    assert "schemas" + ['/'] == "schemas/" && "display" + ['/'] == "display/";
  }

  lemma {:induction false} LastPiece(prefix: string, short: string)
    requires '.' !in short
    ensures ShortName(prefix + ("." + short)) == short
  {
    var id := prefix + ("." + short);
    if prefix == "" {
      assert id == "." + short && id[1..] == short;
      SplitWhole(short, '.');
    } else {
      LastPiece(prefix[1..], short);
      assert id[1..] == prefix[1..] + ("." + short);
      TwoPieces(prefix[1..], short);
    }
  }

  lemma {:induction false} TwoPieces(prefix: string, short: string)
    ensures |Split(prefix + ("." + short), '.')| > 1
  {
    var id := prefix + ("." + short);
    if prefix == "" { assert id[0] == '.'; } else {
      TwoPieces(prefix[1..], short);
      assert id[1..] == prefix[1..] + ("." + short);
    }
  }
}
