/** Signal schema contributions of a plugin manifest: the hand-written recognisers, the validator, and the
    builder whose conventional paths it checks. */
module Manifest {
  import opened Results
  import opened Strings
  import opened ArtifactKeys
  import Utf8

  const MAX_REF := 160
  const MAX_PATH := 240

  // ----- recognisers

  predicate LowerOrDigit(c: char) {
    'a' <= c <= 'z' || '0' <= c <= '9'
  }

  predicate Alphanumeric(c: char) {
    LowerOrDigit(c) || 'A' <= c <= 'Z'
  }

  predicate RefChar(c: char, first: bool) {
    LowerOrDigit(c) || (!first && (c == '_' || c == '.' || c == '-'))
  }

  predicate IsSignalRef(value: string) {
    value != "" && forall i | 0 <= i < |value| :: RefChar(value[i], i == 0)
  }

  predicate IsDigits(s: string) {
    s != "" && forall i | 0 <= i < |s| :: '0' <= s[i] <= '9'
  }

  predicate SuffixText(s: string) {
    s != "" && forall i | 0 <= i < |s| :: Alphanumeric(s[i]) || s[i] == '.' || s[i] == '-'
  }

  /** The index of the first '-' or '+', the length if there is none. */
  function SignIndex(s: string): (i: nat)
    ensures i <= |s| && (i < |s| ==> s[i] == '-' || s[i] == '+') && forall j | 0 <= j < i :: s[j] != '-' && s[j] != '+'
  {
    if s == "" || s[0] == '-' || s[0] == '+' then 0 else 1 + SignIndex(s[1..])
  }

  /** The recogniser: cut at the first sign, check the suffix, then three numeric parts. */
  predicate IsSemver(value: string) {
    var i := SignIndex(value);
    var parts := Split(value[..i], '.');
    && (i < |value| ==> SuffixText(value[i + 1..]))
    && |parts| == 3 && IsDigits(parts[0]) && IsDigits(parts[1]) && IsDigits(parts[2])
  }

  predicate SegmentChar(c: char, first: bool) {
    Alphanumeric(c) || c == '_' || c == '-' || (c == '.' && !first)
  }

  predicate IsSegment(s: string) {
    s != "" && forall i | 0 <= i < |s| :: SegmentChar(s[i], i == 0)
  }

  predicate IsRelativeBundlePath(value: string) {
    && !HasPrefix(value, "/") && !HasSuffix(value, "/")
    && forall i | 0 <= i < |Split(value, '/')| :: IsSegment(Split(value, '/')[i])
  }

  // ----- the validator

  datatype Problem = Blank | TooLong | BadReference | BadVersion | NotAllowed | Traverses | NotJson | NotRelative
      | Negative

  datatype Field = Id | DisplayContractId | Version | DisplayContractVersion | OcsfVersion | SignalType | PayloadKind
                 | PayloadSchema | DisplayContract | ClassUid | TypeUid

  type Fault = (Field, Problem)

  datatype Contribution = Contribution(
    id: string, version: string, signalType: string, payloadKind: string, payloadSchema: string,
    displayContract: string,
    displayContractId: string, displayContractVersion: string, ocsfVersion: string, classUid: int, typeUid: int)

  /** The length of a text in UTF-8 bytes, which is what the limits count. */
  function ByteLength(s: string): nat {
    if s == "" then 0
    else
      ByteLength(s[..|s| - 1]) + |Utf8.Encode(s[|s| - 1] as int)|
  }

  lemma {:induction false} AsciiByteLength(s: string)
    requires forall i | 0 <= i < |s| :: s[i] < '\U{80}'
    ensures ByteLength(s) == |s|
  {
    if s != "" { AsciiByteLength(s[..|s| - 1]); }
  }

  function RefProblem(value: string): Option<Problem> {
    if TrimSpace(value) == "" then Some(Blank)
    else if ByteLength(value) > MAX_REF then Some(TooLong)
    else if !IsSignalRef(value) then Some(BadReference)
    else None
  }

  function VersionProblem(value: string): Option<Problem> {
    if IsSemver(value) then None else Some(BadVersion)
  }

  function PathProblem(value: string): Option<Problem> {
    if TrimSpace(value) == "" then Some(Blank)
    else if ByteLength(value) > MAX_PATH then Some(TooLong)
    else if Contains(value, "..") then Some(Traverses)
    else if !HasSuffix(value, ".json") then Some(NotJson)
    else if !IsRelativeBundlePath(value) then Some(NotRelative)
    else None
  }

  predicate AllowedSignalType(value: string) {
    value == "event" || value == "log"
  }

  predicate AllowedPayloadKind(value: string) {
    value == "ocsf_event" || value == "otel_log"
  }

  function Unless(ok: bool, problem: Problem): Option<Problem> {
    if ok then None else Some(problem)
  }

  /** The one problem each field can have, in the order the validator visits the fields. */
  function Problems(s: Contribution): seq<Option<Problem>> {
    [RefProblem(s.id), RefProblem(s.displayContractId), VersionProblem(s.version),
    VersionProblem(s.displayContractVersion),
     if s.ocsfVersion == "" then None else VersionProblem(s.ocsfVersion),
     Unless(AllowedSignalType(s.signalType), NotAllowed), Unless(AllowedPayloadKind(s.payloadKind), NotAllowed),
     PathProblem(s.payloadSchema), PathProblem(s.displayContract),
     Unless(s.classUid >= 0, Negative), Unless(s.typeUid >= 0, Negative)]
  }

  function FieldAt(i: nat): Field {
    match i
    case 0 => Id
    case 1 => DisplayContractId
    case 2 => Version
    case 3 => DisplayContractVersion
    case 4 => OcsfVersion
    case 5 => SignalType
    case 6 => PayloadKind
    case 7 => PayloadSchema
    case 8 => DisplayContract
    case 9 => ClassUid
    case _ => TypeUid
  }

  predicate NoProblem(problems: seq<Option<Problem>>) {
    forall i | 0 <= i < |problems| :: problems[i] == None
  }

  /** A contribution passes when no field has a problem. */
  predicate Passes(s: Contribution) {
    NoProblem(Problems(s))
  }

  /** The problems as faults of their fields: each once, in the order of the fields. */
  function Reported(problems: seq<Option<Problem>>): seq<Fault> {
    if problems == [] then []
    else
      var n := |problems| - 1;
      Reported(problems[..n]) + if problems[n].Some? then [(FieldAt(n), problems[n].value)] else []
  }

  lemma {:induction false} NoneReported(problems: seq<Option<Problem>>)
    ensures Reported(problems) == [] <==> NoProblem(problems)
  {
    if problems != [] { NoneReported(problems[..|problems| - 1]); }
  }

  /** Among the first eleven, what is reported of a field is exactly its problem. */
  lemma {:induction false} ReportedIff(problems: seq<Option<Problem>>, i: nat, problem: Problem)
    requires i < |problems| <= 11
    ensures (FieldAt(i), problem) in Reported(problems) <==> problems[i] == Some(problem)
  {
    var n := |problems| - 1;
    if i < n {
      ReportedIff(problems[..n], i, problem);
      FieldsDiffer(i, n);
    } else {
      NotReportedEarlier(problems[..n], n, problem);
    }
  }

  lemma FieldsDiffer(i: nat, n: nat)
    requires i < n < 11
    ensures FieldAt(i) != FieldAt(n)
  {
  }

  lemma {:induction false} NotReportedEarlier(problems: seq<Option<Problem>>, n: nat, problem: Problem)
    requires |problems| <= n < 11
    ensures (FieldAt(n), problem) !in Reported(problems)
  {
    if problems != [] {
      NotReportedEarlier(problems[..|problems| - 1], n, problem);
      FieldsDiffer(|problems| - 1, n);
    }
  }

  /** Appends the next field's problem, if it has one. */
  method Append(faults: seq<Fault>, field: Field, problem: Option<Problem>, ghost problems: seq<Option<Problem>>,
      ghost n: nat)
      returns (r: seq<Fault>)
    requires n < |problems| && problem == problems[n] && field == FieldAt(n) && faults == Reported(problems[..n])
    ensures r == Reported(problems[..n + 1])
  {
    assert problems[..n + 1][..n] == problems[..n];
    return if problem.Some? then faults + [(field, problem.value)] else faults + [];
  }

  method AppendReferences(problems: seq<Option<Problem>>) returns (faults: seq<Fault>)
    requires |problems| == 11
    ensures faults == Reported(problems[..5])
  {
    faults := [];
    faults := Append(faults, Id, problems[0], problems, 0);
    faults := Append(faults, DisplayContractId, problems[1], problems, 1);
    faults := Append(faults, Version, problems[2], problems, 2);
    faults := Append(faults, DisplayContractVersion, problems[3], problems, 3);
    faults := Append(faults, OcsfVersion, problems[4], problems, 4);
  }

  method AppendAll(problems: seq<Option<Problem>>) returns (faults: seq<Fault>)
    requires |problems| == 11
    ensures faults == Reported(problems)
  {
    faults := AppendReferences(problems);
    faults := Append(faults, SignalType, problems[5], problems, 5);
    faults := Append(faults, PayloadKind, problems[6], problems, 6);
    faults := Append(faults, PayloadSchema, problems[7], problems, 7);
    faults := Append(faults, DisplayContract, problems[8], problems, 8);
    faults := Append(faults, ClassUid, problems[9], problems, 9);
    faults := Append(faults, TypeUid, problems[10], problems, 10);
    assert problems[..11] == problems;
  }

  /** The validator's checks in order; the faults are exactly the problems of the fields. */
  method Validate(s: Contribution) returns (faults: seq<Fault>)
    ensures faults == Reported(Problems(s))
    ensures faults == [] <==> Passes(s)
  {
    faults := AppendAll(Problems(s));
    NoneReported(Problems(s));
  }

  // ----- the builder

  function ShortName(id: string): string {
    var pieces := Split(id, '.');
    pieces[|pieces| - 1]
  }

  const SCHEMAS := "schemas"
  const DISPLAY := "display"
  const SCHEMA_JSON := ".schema.json"
  const DISPLAY_JSON := ".display.json"

  function BundlePath(directory: string, name: string): string {
    directory + ['/'] + name
  }

  function NewContribution(id: string, version: string, signalType: string, payloadKind: string): Contribution {
    Contribution(id, version, signalType, payloadKind,
                 BundlePath(SCHEMAS, ShortName(id) + SCHEMA_JSON), BundlePath(DISPLAY, ShortName(id) + DISPLAY_JSON),
                 id + ".display", version, "", 0, 0)
  }

  /** A valid reference's last dotted piece is empty exactly when the reference ends in a dot, and has no
      dots itself. */
  lemma {:induction false} ShortNameOf(id: string)
    ensures ShortName(id) == "" <==> id == "" || id[|id| - 1] == '.'
    ensures |ShortName(id)| <= |id|
        && forall i | 0 <= i < |ShortName(id)| :: ShortName(id)[i] in id && ShortName(id)[i] != '.'
  {
    if id != "" {
      ShortNameOf(id[1..]);
      var pieces, rest := Split(id, '.'), Split(id[1..], '.');
      if |id| == 1 { assert id[1..] == ""; }
      if id[0] == '.' {
        assert pieces[|pieces| - 1] == rest[|rest| - 1];
      } else if |rest| > 1 {
        assert pieces[|pieces| - 1] == rest[|rest| - 1];
      } else {
        assert ShortName(id) == [id[0]] + rest[0];
        if |id| > 1 { OnePieceMeansNoDot(id[1..]); }
      }
      assert |id| > 1 ==> id[1..][|id| - 2] == id[|id| - 1];
    }
  }

  lemma {:induction false} OnePieceMeansNoDot(s: string)
    requires |Split(s, '.')| == 1
    ensures '.' !in s
  {
    if s != "" && s[0] != '.' { OnePieceMeansNoDot(s[1..]); }
  }

  // ----- versions

  /** The shape of a version: three numbers, and maybe a sign with alphanumerics, dots and hyphens. */
  predicate VersionShape(value: string, major: string, minor: string, patch: string, suffix: string) {
    && value == major + (['.'] + (minor + (['.'] + patch))) + suffix
    && IsDigits(major) && IsDigits(minor) && IsDigits(patch)
    && (suffix == "" || ((suffix[0] == '-' || suffix[0] == '+') && SuffixText(suffix[1..])))
  }

  function Core(major: string, minor: string, patch: string): string {
    major + (['.'] + (minor + (['.'] + patch)))
  }

  lemma CoreSplits(major: string, minor: string, patch: string)
    requires '.' !in major && '.' !in minor && '.' !in patch
    ensures Split(Core(major, minor, patch), '.') == [major, minor, patch]
  {
    SplitAtSeparator(major, minor + (['.'] + patch), '.');
    SplitAtSeparator(minor, patch, '.');
    SplitWhole(patch, '.');
  }

  lemma CoreJoined(parts: seq<string>)
    requires |parts| == 3
    ensures Join(parts, '.') == Core(parts[0], parts[1], parts[2])
  {
    assert parts[1..][0] == parts[1] && parts[1..][1..] == [parts[2]];
    assert Join(parts[1..], '.') == parts[1] + ['.'] + parts[2];
  }

  /** The recogniser accepts exactly the strings of the version shape. */
  lemma SemverIffVersionShape(value: string)
    ensures IsSemver(value) <==> exists major, minor, patch, suffix :: VersionShape(value, major, minor, patch, suffix)
  {
    if IsSemver(value) {
      var i := SignIndex(value);
      var parts := Split(value[..i], '.');
      JoinInvertsSplit(value[..i], '.');
      CoreJoined(parts);
      assert value == value[..i] + value[i..];
      assert i < |value| ==> value[i..][1..] == value[i + 1..];
      assert VersionShape(value, parts[0], parts[1], parts[2], value[i..]);
    }
    if major, minor, patch, suffix :| VersionShape(value, major, minor, patch, suffix) {
      ShapeIsSemver(value, major, minor, patch, suffix);
    }
  }

  lemma ShapeIsSemver(value: string, major: string, minor: string, patch: string, suffix: string)
    requires VersionShape(value, major, minor, patch, suffix)
    ensures IsSemver(value)
  {
    var core := Core(major, minor, patch);
    CoreSplits(major, minor, patch);
    CoreHasNoSign(major, minor, patch);
    assert value == core + suffix;
    SignAfter(core, suffix);
    assert value[..|core|] == core && value[|core|..] == suffix;
    assert suffix != "" ==> value[|core| + 1..] == suffix[1..];
  }

  lemma CoreHasNoSign(major: string, minor: string, patch: string)
    requires IsDigits(major) && IsDigits(minor) && IsDigits(patch)
    ensures '-' !in Core(major, minor, patch) && '+' !in Core(major, minor, patch)
  {
  }

  lemma SignAfter(core: string, suffix: string)
    requires '-' !in core && '+' !in core && (suffix == "" || suffix[0] == '-' || suffix[0] == '+')
    ensures SignIndex(core + suffix) == |core|
  {
    var value := core + suffix;
    assert forall j | 0 <= j < |core| :: value[j] == core[j] && core[j] in core;
    assert suffix != "" ==> value[|core|] == suffix[0];
  }

  // ----- paths

  /** An extension of the conventional paths. */
  predicate IsExtension(ext: string) {
    && 6 <= |ext| <= 13 && ext[0] == '.' && HasSuffix(ext, ".json")
    && (forall i | 0 <= i < |ext| :: LowerOrDigit(ext[i]) || ext[i] == '.')
    && (forall i | 0 < i < |ext| :: ext[i] == '.' ==> ext[i - 1] != '.')
  }

  predicate IsDirectory(directory: string) {
    0 < |directory| <= 10 && forall i | 0 <= i < |directory| :: LowerOrDigit(directory[i])
  }

  predicate IsShortName(name: string) {
    |name| <= 152 && forall i | 0 <= i < |name| :: LowerOrDigit(name[i]) || name[i] == '_' || name[i] == '-'
  }

  lemma {:induction false} NotBlank(s: string)
    requires s != "" && !IsSpace(s[0])
    ensures TrimSpace(s) != ""
  {
    NotBlankRight(s);
  }

  lemma {:induction false} NotBlankRight(s: string)
    requires s != "" && !IsSpace(s[0])
    ensures TrimRight(s) != ""
  {
    if |s| > 1 && IsSpace(s[|s| - 1]) { NotBlankRight(s[..|s| - 1]); }
  }

  lemma PathSegments(directory: string, name: string)
    requires '/' !in directory && '/' !in name
    ensures Split(BundlePath(directory, name), '/') == [directory, name]
  {
    SplitAtSeparator(directory, name, '/');
    SplitWhole(name, '/');
    assert BundlePath(directory, name) == directory + (['/'] + name);
  }

  lemma PathHasNoDots(directory: string, short: string, ext: string)
    requires IsDirectory(directory) && IsShortName(short) && IsExtension(ext)
    ensures !Contains(BundlePath(directory, short + ext), "..")
  {
    var path, start := BundlePath(directory, short + ext), |directory| + 1 + |short|;
    forall k | 0 <= k < |path| ensures path[k] == '.' ==> k >= start && path[k] == ext[k - start] {
      if k < |directory| { assert path[k] == directory[k]; }
      else if k == |directory| { assert path[k] == '/'; }
      else if k < start { assert path[k] == short[k - |directory| - 1]; }
      else { assert path[k] == ext[k - start]; }
    }
    forall k | 0 < k < |path| ensures path[k] != '.' || path[k - 1] != '.' {
      assert path[k] == '.' && k > start ==> path[k - 1] == ext[k - 1 - start];
    }
    NoDoubleDots(path);
  }

  lemma NoDoubleDots(s: string)
    requires forall k | 0 < k < |s| :: s[k] != '.' || s[k - 1] != '.'
    ensures !Contains(s, "..")
  {
    forall i: nat ensures !OccursAt(s, "..", i) { TwoDotsAt(s, i); }
  }

  lemma TwoDotsAt(s: string, i: nat)
    ensures OccursAt(s, "..", i) <==> i + 1 < |s| && s[i] == '.' && s[i + 1] == '.'
  {
    if i + 1 < |s| { assert s[i..i + 2] == [s[i], s[i + 1]]; }
  }

  lemma PathEnds(directory: string, short: string, ext: string)
    requires IsDirectory(directory) && IsExtension(ext)
    ensures var path := BundlePath(directory, short + ext);
      && path != "" && path[0] == directory[0]
      && HasSuffix(path, ".json") && !HasSuffix(path, "/") && !HasPrefix(path, "/")
  {
    var path := BundlePath(directory, short + ext);
    assert path[|path| - 5..] == ext[|ext| - 5..];
    assert path[|path| - 1] == ext[|ext| - 1];
    assert path[0] == directory[0];
  }

  lemma SegmentsOk(directory: string, short: string, ext: string)
    requires IsDirectory(directory) && IsShortName(short) && IsExtension(ext)
    ensures IsSegment(directory) && (IsSegment(short + ext) <==> short != "")
    ensures '/' !in directory && '/' !in short + ext
  {
    var name := short + ext;
    forall i | 0 <= i < |name| ensures name[i] != '/' && (i > 0 ==> SegmentChar(name[i], false)) {
      if i < |short| { assert name[i] == short[i]; } else { assert name[i] == ext[i - |short|]; }
    }
    if short == "" { assert name[0] == '.'; } else { assert name[0] == short[0]; }
  }

  /** A conventional path passes exactly when the short name is not empty. */
  lemma PathPassesIff(directory: string, short: string, ext: string)
    requires IsDirectory(directory) && IsShortName(short) && IsExtension(ext)
    ensures PathProblem(BundlePath(directory, short + ext)) == None <==> short != ""
  {
    var path := BundlePath(directory, short + ext);
    PathEnds(directory, short, ext);
    NotBlank(path);
    PathHasNoDots(directory, short, ext);
    SegmentsOk(directory, short, ext);
    PathSegments(directory, short + ext);
    PathIsAscii(directory, short, ext);
    AsciiByteLength(path);
    var pieces := Split(path, '/');
    assert pieces[0] == directory && pieces[1] == short + ext;
  }

  lemma PathIsAscii(directory: string, short: string, ext: string)
    requires IsDirectory(directory) && IsShortName(short) && IsExtension(ext)
    ensures var path := BundlePath(directory, short + ext); forall i | 0 <= i < |path| :: path[i] < '\U{80}'
  {
  }

  /** An accepted path names a file inside the bundle: every segment counts, and none steps out. */
  lemma RelativePathStaysInside(value: string)
    requires IsRelativeBundlePath(value)
    ensures Resolve(Split(value, '/')) == Some(Split(value, '/'))
  {
    var pieces := Split(value, '/');
    forall i | 0 <= i < |pieces| ensures pieces[i] != "" && pieces[i] != "." && pieces[i] != ".." {
      assert IsSegment(pieces[i]) && pieces[i][0] != '.';
    }
    SegmentsResolve(pieces);
  }

  // ----- the builder passes its own validator

  lemma IdIsPlain(id: string)
    requires IsSignalRef(id) && |id| <= 152
    ensures IsShortName(ShortName(id)) && RefProblem(id) == None
  {
    ShortNameOf(id);
    forall i | 0 <= i < |ShortName(id)|
        ensures LowerOrDigit(ShortName(id)[i]) || ShortName(id)[i] == '_' || ShortName(id)[i] == '-' {
      var j :| 0 <= j < |id| && id[j] == ShortName(id)[i];
    }
    NotBlank(id);
    AsciiByteLength(id);
  }

  lemma DisplayIdPassesIff(id: string)
    ensures RefProblem(id + ".display") == None <==> IsSignalRef(id) && |id| <= 152
  {
    var full := id + ".display";
    if IsSignalRef(id) {
      NotBlank(full);
      forall i | 0 <= i < |full| ensures RefChar(full[i], i == 0) {
        if i < |id| { assert full[i] == id[i]; } else { assert full[i] == ".display"[i - |id|]; }
      }
      AsciiByteLength(full);
    } else if IsSignalRef(full) {
      assert full[0] == '.' || id != "";
      forall i | 0 <= i < |id| ensures RefChar(id[i], i == 0) { assert full[i] == id[i]; }
    }
  }

  lemma DirectoriesHold()
    ensures IsDirectory(SCHEMAS) && IsDirectory(DISPLAY)
  {
  }

  lemma SchemaExtensionHolds()
    ensures IsExtension(SCHEMA_JSON)
  {
  }

  lemma DisplayExtensionHolds()
    ensures IsExtension(DISPLAY_JSON)
  {
  }

  /** What the builder makes passes validation exactly when the id is a reference of at most 152 characters
      that does not end in a dot, the version is a version, and the two kinds are allowed. */
  lemma BuilderPassesIff(id: string, version: string, signalType: string, payloadKind: string)
    ensures Passes(NewContribution(id, version, signalType, payloadKind)) <==>
      && IsSignalRef(id) && |id| <= 152 && id[|id| - 1] != '.'
      && IsSemver(version) && AllowedSignalType(signalType) && AllowedPayloadKind(payloadKind)
  {
    var s := NewContribution(id, version, signalType, payloadKind);
    DisplayIdPassesIff(id);
    FieldByField(s);
    if IsSignalRef(id) && |id| <= 152 {
      IdIsPlain(id);
      ShortNameOf(id);
      DirectoriesHold();
      SchemaExtensionHolds();
      DisplayExtensionHolds();
      PathPassesIff(SCHEMAS, ShortName(id), SCHEMA_JSON);
      PathPassesIff(DISPLAY, ShortName(id), DISPLAY_JSON);
    }
  }

  lemma FieldByField(s: Contribution)
    ensures Passes(s) <==>
      && RefProblem(s.id) == None && RefProblem(s.displayContractId) == None
      && VersionProblem(s.version) == None && VersionProblem(s.displayContractVersion) == None
      && (s.ocsfVersion == "" || VersionProblem(s.ocsfVersion) == None)
      && AllowedSignalType(s.signalType) && AllowedPayloadKind(s.payloadKind)
      && PathProblem(s.payloadSchema) == None && PathProblem(s.displayContract) == None
      && s.classUid >= 0 && s.typeUid >= 0
  {
    OneByOne(Problems(s));
  }

  lemma OneByOne(p: seq<Option<Problem>>)
    requires |p| == 11
    ensures NoProblem(p) <==>
      && p[0] == None && p[1] == None && p[2] == None && p[3] == None && p[4] == None && p[5] == None
      && p[6] == None && p[7] == None && p[8] == None && p[9] == None && p[10] == None
  {
  }

  /** Two ids the recogniser accepts and the builder's result fails on. */
  lemma FailingIdsExample(version: string, signalType: string, payloadKind: string)
    ensures IsSignalRef("a.") && !Passes(NewContribution("a.", version, signalType, payloadKind))
    ensures var long := seq(153, _ => 'a');
      IsSignalRef(long) && !Passes(NewContribution(long, version, signalType, payloadKind))
  {
    BuilderPassesIff("a.", version, signalType, payloadKind);
    BuilderPassesIff(seq(153, _ => 'a'), version, signalType, payloadKind);
  }
}
