/** The scan of a session description for the first H.264 video track. */
module RtspTrack {
  import opened Results
  import opened Strings
  import Bytes

  /** What one trimmed line says to the scan. */
  datatype Line = Video | OtherMedia | Format(payloadType: int) | Control(control: string) | Nothing

  /** The index of the first space, the length if there is none. */
  function FirstSpace(s: string): (i: nat)
    ensures i <= |s| && (i < |s| ==> s[i] == ' ') && forall j | 0 <= j < i :: s[j] != ' '
  {
    if s == [] || s[0] == ' ' then 0 else 1 + FirstSpace(s[1..])
  }

  const RTPMAP := "a=rtpmap:"
  const CONTROL := "a=control:"

  /** `number` is the library's reading of a decimal number, with whatever it gives for other text. */
  function Classify(number: string -> int, line: string): Line {
    if HasPrefix(line, "m=video ") then Video
    else if HasPrefix(line, "m=") then OtherMedia
    else if HasPrefix(line, RTPMAP) && Contains(line, "H264/90000") then
      var rest := line[|RTPMAP|..];
      if FirstSpace(rest) < |rest| then Format(number(rest[..FirstSpace(rest)])) else Nothing
    else if HasPrefix(line, CONTROL) then Control(TrimSpace(line[|CONTROL|..]))
    else Nothing
  }

  function Lines(number: string -> int, body: string): seq<Line> {
    var raw := Split(body, '\n');
    seq(|raw|, i requires 0 <= i < |raw| => Classify(number, TrimSpace(raw[i])))
  }

  /** Line `at` is the last one up to `upTo` after `start` for which `kind` holds. */
  ghost predicate LastAfter(lines: seq<Line>, kind: Line -> bool, start: int, at: int, upTo: int) {
    -1 <= start < at <= upTo < |lines| && kind(lines[at]) && forall k | at < k <= upTo :: !kind(lines[k])
  }

  function IsMedia(): Line -> bool {
    (line: Line) => line.Video? || line.OtherMedia?
  }

  function IsFormat(): Line -> bool {
    (line: Line) => line.Format?
  }

  function IsControl(): Line -> bool {
    (line: Line) => line.Control?
  }

  /** The scan's variables, and the lines they come from (-1 for none). */
  datatype Scan = Scan(inVideo: bool, payloadType: int, control: string)
  datatype Marks = Marks(start: int, format: int, ctl: int)

  /** The section that starts with video line `start` has its last format and control lines up to `i` here. */
  ghost predicate SuppliedBy(lines: seq<Line>, i: int, payloadType: int, control: string, m: Marks) {
    && LastAfter(lines, IsMedia(), -1, m.start, i) && lines[m.start].Video?
    && LastAfter(lines, IsFormat(), m.start, m.format, i) && lines[m.format].payloadType == payloadType != 0
    && LastAfter(lines, IsControl(), m.start, m.ctl, i) && lines[m.ctl].control == control != ""
  }

  /** By line `i` its video section has supplied a payload type and a control. */
  ghost predicate Supplies(lines: seq<Line>, i: int, payloadType: int, control: string) {
    exists m :: SuppliedBy(lines, i, payloadType, control, m)
  }

  /** The scan stops at the first line that completes a section. */
  ghost predicate FirstSupply(lines: seq<Line>, i: int, payloadType: int, control: string) {
    Supplies(lines, i, payloadType, control) && forall j, p, c | 0 <= j < i :: !Supplies(lines, j, p, c)
  }

  ghost predicate NoneAfter(lines: seq<Line>, kind: Line -> bool, start: int, upTo: int) {
    -1 <= start <= upTo < |lines| && forall k | start < k <= upTo :: !kind(lines[k])
  }

  ghost predicate FormatIs(lines: seq<Line>, i: int, start: int, format: int, payloadType: int) {
    if format == -1 then payloadType == 0 && NoneAfter(lines, IsFormat(), start, i)
    else LastAfter(lines, IsFormat(), start, format, i) && lines[format].payloadType == payloadType
  }

  ghost predicate ControlIs(lines: seq<Line>, i: int, start: int, ctl: int, control: string) {
    if ctl == -1 then control == "" && NoneAfter(lines, IsControl(), start, i)
    else LastAfter(lines, IsControl(), start, ctl, i) && lines[ctl].control == control
  }

  /** What the scan's variables mean after line `i`. */
  ghost predicate Meaning(lines: seq<Line>, i: int, s: Scan, m: Marks) {
    && -1 <= i < |lines|
    && (if m.start == -1 then NoneAfter(lines, IsMedia(), -1, i) else LastAfter(lines, IsMedia(), -1, m.start, i))
    && (s.inVideo <==> m.start != -1 && lines[m.start].Video?)
    && (s.inVideo ==>
        && FormatIs(lines, i, m.start, m.format, s.payloadType)
        && ControlIs(lines, i, m.start, m.ctl, s.control))
  }

  /** One line of the scan, and where the variables come from after it. */
  function Step(s: Scan, line: Line): Scan {
    match line
    case Video => Scan(true, 0, "")
    case OtherMedia => s.(inVideo := false)
    case Format(payloadType) => if s.inVideo then s.(payloadType := payloadType) else s
    case Control(control) => if s.inVideo then s.(control := control) else s
    case Nothing => s
  }

  function Mark(m: Marks, line: Line, i: int): Marks {
    match line
    case Video => Marks(i, -1, -1)
    case OtherMedia => Marks(i, -1, -1)
    case Format(_) => m.(format := i)
    case Control(_) => m.(ctl := i)
    case Nothing => m
  }

  lemma StepMeans(lines: seq<Line>, i: int, s: Scan, m: Marks)
    requires 0 <= i < |lines| && Meaning(lines, i - 1, s, m)
    ensures Meaning(lines, i, Step(s, lines[i]), Mark(m, lines[i], i))
  {
    match lines[i]
    case Video => FreshSection(lines, i);
    case OtherMedia => FreshSection(lines, i);
    case _ => SameSection(lines, i, s, m);
  }

  lemma FreshSection(lines: seq<Line>, i: int)
    requires 0 <= i < |lines| && IsMedia()(lines[i])
    ensures LastAfter(lines, IsMedia(), -1, i, i) && NoneAfter(lines, IsFormat(), i, i)
        && NoneAfter(lines, IsControl(), i, i)
  {
  }

  lemma SameSection(lines: seq<Line>, i: int, s: Scan, m: Marks)
    requires 0 <= i < |lines| && Meaning(lines, i - 1, s, m) && !IsMedia()(lines[i])
    ensures Meaning(lines, i, Step(s, lines[i]), Mark(m, lines[i], i))
  {
  }

  lemma LastIsUnique(lines: seq<Line>, kind: Line -> bool, start: int, at: int, other: int, upTo: int)
    requires LastAfter(lines, kind, start, at, upTo) && LastAfter(lines, kind, start, other, upTo)
    ensures at == other
  {
  }

  /** A section is complete at line `i` exactly when the scan's variables say so, and with their values. */
  lemma SuppliesIff(lines: seq<Line>, i: int, s: Scan, m: Marks)
    requires 0 <= i && Meaning(lines, i, s, m)
    ensures forall p, c :: Supplies(lines, i, p, c) <==>
        s.inVideo && s.payloadType == p && s.control == c && p != 0 && c != ""
  {
    if s.inVideo && s.payloadType != 0 && s.control != "" {
      assert SuppliedBy(lines, i, s.payloadType, s.control, m);
    }
    forall p, c | Supplies(lines, i, p, c)
        ensures s.inVideo && s.payloadType == p && s.control == c && p != 0 && c != "" {
      var other :| SuppliedBy(lines, i, p, c, other);
      LastIsUnique(lines, IsMedia(), -1, other.start, m.start, i);
      LastIsUnique(lines, IsFormat(), m.start, other.format, m.format, i);
      LastIsUnique(lines, IsControl(), m.start, other.ctl, m.ctl, i);
    }
  }

  /** The scan over the classified lines. */
  method ScanLines(lines: seq<Line>) returns (track: Option<(int, string)>, ghost at: int)
    ensures track.Some? ==> FirstSupply(lines, at, track.value.0, track.value.1)
    ensures track.None? ==> forall j, p, c | 0 <= j < |lines| :: !Supplies(lines, j, p, c)
  {
    var inVideo, payloadType, control := false, 0, "";
    ghost var m := Marks(-1, -1, -1);
    at := -1;
    for i := 0 to |lines|
      invariant Meaning(lines, i - 1, Scan(inVideo, payloadType, control), m)
      invariant forall j, p, c | 0 <= j < i :: !Supplies(lines, j, p, c)
    {
      ghost var before := Scan(inVideo, payloadType, control);
      match lines[i] {
        case Video => inVideo, payloadType, control := true, 0, "";
        case OtherMedia => inVideo := false;
        case Format(value) => if inVideo { payloadType := value; }
        case Control(value) => if inVideo { control := value; }
        case Nothing =>
      }
      StepMeans(lines, i, before, m);
      m := Mark(m, lines[i], i);
      SuppliesIff(lines, i, Scan(inVideo, payloadType, control), m);
      if inVideo && payloadType != 0 && control != "" {
        at := i;
        return Some((payloadType, control)), at;
      }
    }
    return None, at;
  }

  // ----- the control as a URL

  /** The parts of the endpoint a relative control is resolved against. */
  datatype Base = Base(url: string, requestUri: string)

  const RTSP := "rtsp://"
  const RTSPS := "rtsps://"

  predicate IsAbsolute(url: string) {
    HasPrefix(url, RTSP) || HasPrefix(url, RTSPS)
  }

  function WithoutSlash(uri: string): string {
    if HasSuffix(uri, "/") then uri[..|uri| - 1] else uri
  }

  function ResolveControl(base: Base, control: string): string {
    var c := TrimSpace(control);
    if c == "" then base.requestUri
    else if IsAbsolute(c) then c
    else if HasPrefix(c, "/") then base.url + c
    else base.url + WithoutSlash(base.requestUri) + "/" + c
  }

  lemma ExtendsAbsolute(url: string, more: string)
    requires IsAbsolute(url)
    ensures IsAbsolute(url + more)
  {
  }

  /** A control that is not blank resolves against an absolute endpoint to an absolute URL, and resolving
      that again changes nothing. */
  lemma ResolvedIsAbsolute(base: Base, control: string)
    requires IsAbsolute(base.url) && TrimSpace(control) != ""
    ensures IsAbsolute(ResolveControl(base, control))
    ensures ResolveControl(base, ResolveControl(base, control)) == ResolveControl(base, control)
  {
    var c, url := TrimSpace(control), ResolveControl(base, control);
    TrimSpaceTrims(control);
    if HasPrefix(c, "/") {
      ExtendsAbsolute(base.url, c);
    } else {
      ExtendsAbsolute(base.url, WithoutSlash(base.requestUri) + "/" + c);
      Bytes.ConcatIsAssociative(base.url, WithoutSlash(base.requestUri), "/");
      Bytes.ConcatIsAssociative(base.url, WithoutSlash(base.requestUri) + "/", c);
    }
    assert url[|url| - 1] == c[|c| - 1] && url[0] == 'r';
    TrimmedIsFixed(url);
  }

  /** A track is found exactly when some section supplies both values, and it is the first to do so, its
      control resolved against the endpoint. */
  method ParseTrack(number: string -> int, base: Base, body: string)
      returns (track: Option<(int, string)>, ghost at: int, ghost control: string)
    ensures track.Some? ==>
        FirstSupply(Lines(number, body), at, track.value.0, control) && track.value.1 == ResolveControl(base, control)
    ensures track.None? ==> forall j, p, c | 0 <= j < |Lines(number, body)| :: !Supplies(Lines(number, body), j, p, c)
  {
    track, at := ScanLines(Lines(number, body));
    if track.Some? {
      control := track.value.1;
      track := Some((track.value.0, ResolveControl(base, track.value.1)));
    } else {
      control := "";
    }
  }

  lemma SupplyIsUnique(lines: seq<Line>, i: int, p: int, c: string, m: Marks, p': int, c': string, m': Marks)
    requires SuppliedBy(lines, i, p, c, m) && SuppliedBy(lines, i, p', c', m')
    ensures p == p' && c == c' && m == m'
  {
    LastIsUnique(lines, IsMedia(), -1, m.start, m'.start, i);
    LastIsUnique(lines, IsFormat(), m.start, m.format, m'.format, i);
    LastIsUnique(lines, IsControl(), m.start, m.ctl, m'.ctl, i);
  }

  /** The answer is determined by the description. */
  lemma FirstSupplyIsUnique(lines: seq<Line>, i: int, p: int, c: string, i': int, p': int, c': string)
    requires FirstSupply(lines, i, p, c) && FirstSupply(lines, i', p', c')
    ensures i == i' && p == p' && c == c'
  {
    var m, m' :| SuppliedBy(lines, i, p, c, m) && SuppliedBy(lines, i', p', c', m');
    SupplyIsUnique(lines, i, p, c, m, p', c', m');
  }
}
