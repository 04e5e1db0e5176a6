/** Rebuilding H.264 Annex B access units from RTP payloads (sections 5.6, 5.7.1 and 5.8 of RFC 6184):
    what one payload says, and the state machine that assembles what the payloads say. */
module H264 {
  import opened Bytes
  import opened Results

  type Nal = seq<byte>

  const START_CODE: seq<byte> := [0, 0, 0, 1]
  const STAP_A := 24
  const FU_A := 28
  const IDR := 5

  datatype Error = TooShort | Unsupported

  /** What a non-empty payload says: whole NAL units (or, for a fragmented unit, its beginning) and
      the error met after them, or more bytes of the unit begun last. */
  datatype Contents =
    | Begins(nals: seq<Nal>, error: Option<Error>)
    | Continues(tail: seq<byte>, idr: bool)

  /** The size-prefixed units of an aggregation packet. A size of zero or one past the end is an
      error that leaves the units before it; one stray byte at the end is ignored. */
  function Aggregated(units: seq<byte>): (c: Contents)
    ensures c.Begins? && forall n <- c.nals :: n != []
  {
    if |units| < 2 then Begins([], None)
    else
      var size := BigEndian16(units[0], units[1]);
      if size == 0 || 2 + size > |units| then Begins([], Some(TooShort))
      else
        var rest := Aggregated(units[2 + size..]);
        Begins([units[2..2 + size]] + rest.nals, rest.error)
  }

  function Interpret(payload: seq<byte>): (c: Contents)
    requires payload != []
    ensures c.Begins? ==> forall n <- c.nals :: n != []
  {
    var nalType := payload[0] % 32;
    if 1 <= nalType <= 23 then Begins([payload], None)
    else if nalType == STAP_A then Aggregated(payload[1..])
    else if nalType == FU_A then
      if |payload| < 2 then Begins([], Some(TooShort))
      else
        var unitType := payload[1] % 32;
        if payload[1] >= 128 then Begins([[payload[0] - nalType + unitType] + payload[2..]], None)
        else Continues(payload[2..], unitType == IDR)
    else Begins([], Some(Unsupported))
  }

  /** A payload as the state machine sees it. An empty payload says nothing. */
  datatype Arrival = Arrival(contents: Option<Contents>, marker: bool, timestamp: uint32)

  function Read(payload: seq<byte>, marker: bool, timestamp: uint32): Arrival {
    Arrival(if payload == [] then None else Some(Interpret(payload)), marker, timestamp)
  }

  /** The state between payloads. */
  datatype Assembly = Assembly(assembling: bool, timestamp: uint32, fragments: seq<seq<byte>>, keyframe: bool)

  datatype Output =
    | Failed(error: Error)
    | Pending
    | Emitted(unit: seq<byte>, keyframe: bool)

  /** Annex B byte stream units, one for each NAL unit. */
  function Units(nals: seq<Nal>): (units: seq<seq<byte>>)
    ensures |units| == |nals|
    ensures forall i | 0 <= i < |nals| :: units[i] == START_CODE + nals[i]
  {
    seq(|nals|, i requires 0 <= i < |nals| => START_CODE + nals[i])
  }

  predicate AnyIdr(nals: seq<Nal>) {
    exists n <- nals :: n != [] && n[0] % 32 == IDR
  }

  /** The state in which a payload is taken: a new timestamp starts over. */
  function Begun(s: Assembly, timestamp: uint32): Assembly {
    if s.assembling && s.timestamp == timestamp then s else Assembly(true, timestamp, [], false)
  }

  /** The state with what a payload says added, and the error that leaves. */
  function Take(s: Assembly, c: Contents): (Assembly, Option<Error>) {
    match c
    case Begins(nals, error) =>
      (s.(fragments := s.fragments + Units(nals), keyframe := s.keyframe || AnyIdr(nals)), error)
    case Continues(tail, idr) =>
      if s.fragments == [] then (s, Some(TooShort))
      else
        var n := |s.fragments| - 1;
        (s.(fragments := s.fragments[..n] + [s.fragments[n] + tail], keyframe := s.keyframe || idr), None)
  }

  /** One payload: an empty one changes nothing, an error keeps what came before it, and only a
      marker emits. */
  function Step(s: Assembly, a: Arrival): (Assembly, Output) {
    match a.contents
    case None => (s, Failed(TooShort))
    case Some(contents) =>
      match Take(Begun(s, a.timestamp), contents)
      case (taken, Some(error)) => (taken, Failed(error))
      case (taken, None) =>
        if a.marker then (Assembly(false, a.timestamp, [], false), Emitted(Flatten(taken.fragments), taken.keyframe))
        else (taken, Pending)
  }
}
