/** When a push fails, from the bytes of the payloads alone: over every history, which payloads are refused,
    with which error, and what the others do. */
module H264Failures {
  import opened Bytes
  import opened Results
  import opened H264
  import opened H264Runs
  import opened H264Packetizer

  /** A payload as it is pushed. */
  datatype Packet = Packet(payload: seq<byte>, marker: bool, timestamp: uint32)

  function Arrivals(packets: seq<Packet>): (h: seq<Arrival>)
    ensures |h| == |packets|
    ensures forall i | 0 <= i < |h| :: h[i] == Read(packets[i].payload, packets[i].marker, packets[i].timestamp)
  {
    seq(|packets|, i requires 0 <= i < |packets| => Read(packets[i].payload, packets[i].marker, packets[i].timestamp))
  }

  // ----- what the bytes say

  /** A non-empty unit of the announced size follows its size. */
  predicate SizedUnit(units: seq<byte>) {
    |units| >= 2 && 0 < BigEndian16(units[0], units[1]) <= |units| - 2
  }

  /** Non-empty units, each behind its size, then at most one stray byte. */
  ghost predicate OnlySizedUnits(units: seq<byte>) {
    exists nals, stray :: IsSizePrefixed(units, nals, stray)
  }

  ghost predicate IsSizePrefixed(units: seq<byte>, nals: seq<Nal>, stray: seq<byte>) {
    && (forall i | 0 <= i < |nals| :: 0 < |nals[i]| < UINT16_LIMIT)
    && units == SizePrefixed(nals) + stray && |stray| <= 1
  }

  /** The payload begins a NAL unit: it is one, aggregates one, or is the first fragment of one. */
  predicate BeginsUnit(payload: seq<byte>) {
    payload != [] &&
    var kind := payload[0] % 32;
    || 1 <= kind <= 23
    || (kind == 24 && SizedUnit(payload[1..]))
    || (kind == 28 && |payload| >= 2 && payload[1] >= 128)
  }

  /** The payloads a packet of the given timestamp joins: those since the last emission or other timestamp,
      empty ones counting for nothing. */
  function Joined(packets: seq<Packet>, outputs: seq<Output>, timestamp: uint32): seq<Packet>
    requires |packets| == |outputs|
  {
    if packets == [] then []
    else
      var n := |packets| - 1;
      if packets[n].payload == [] then Joined(packets[..n], outputs[..n], timestamp)
      else if outputs[n].Emitted? || packets[n].timestamp != timestamp then []
      else Joined(packets[..n], outputs[..n], timestamp) + [packets[n]]
  }

  predicate NothingBegun(session: seq<Packet>) {
    forall i | 0 <= i < |session| :: !BeginsUnit(session[i].payload)
  }

  /** The error a payload meets: it is empty, of a type that is not handled, a fragment too short for its two
      headers, a continuation of nothing, or an aggregate that is not units behind their sizes. */
  ghost function FaultOf(payload: seq<byte>, nothingBegun: bool): Option<Error> {
    if payload == [] then Some(TooShort)
    else
      var kind := payload[0] % 32;
      if kind == 24 then (if OnlySizedUnits(payload[1..]) then None else Some(TooShort))
      else if kind == 28 then
        if |payload| < 2 || (payload[1] < 128 && nothingBegun) then Some(TooShort) else None
      else if 1 <= kind <= 23 then None
      else Some(Unsupported)
  }

  // ----- aggregates

  /** Units behind their sizes are read as they are; what follows them is ignored if it is at most a byte, and
      an error if it is not a unit behind its size. */
  lemma {:induction false} AggregatedReads(nals: seq<Nal>, rest: seq<byte>)
    requires forall i | 0 <= i < |nals| :: 0 < |nals[i]| < UINT16_LIMIT
    requires !SizedUnit(rest)
    ensures Aggregated(SizePrefixed(nals) + rest) == Begins(nals, if |rest| < 2 then None else Some(TooShort))
  {
    if nals == [] {
      assert SizePrefixed(nals) + rest == rest;
    } else {
      UnitRead(nals[0], SizePrefixed(nals[1..]) + rest);
      ConcatIsAssociative(PutBigEndian16(|nals[0]|) + nals[0], SizePrefixed(nals[1..]), rest);
      AggregatedReads(nals[1..], rest);
      assert [nals[0]] + nals[1..] == nals;
    }
  }

  lemma UnitRead(nal: Nal, tail: seq<byte>)
    requires 0 < |nal| < UINT16_LIMIT
    ensures Aggregated(PutBigEndian16(|nal|) + nal + tail)
        == Begins([nal] + Aggregated(tail).nals, Aggregated(tail).error)
  {
    var all := PutBigEndian16(|nal|) + nal + tail;
    assert all[0] == PutBigEndian16(|nal|)[0] && all[1] == PutBigEndian16(|nal|)[1];
    assert all[2..2 + |nal|] == nal && all[2 + |nal|..] == tail;
  }

  /** Every byte string is units behind their sizes followed by something that is not. */
  lemma {:induction false} SizedUnitsSplit(units: seq<byte>) returns (nals: seq<Nal>, rest: seq<byte>)
    ensures forall i | 0 <= i < |nals| :: 0 < |nals[i]| < UINT16_LIMIT
    ensures units == SizePrefixed(nals) + rest && !SizedUnit(rest)
    decreases |units|
  {
    if SizedUnit(units) {
      var size := BigEndian16(units[0], units[1]);
      var more;
      more, rest := SizedUnitsSplit(units[2 + size..]);
      nals := [units[2..2 + size]] + more;
      assert nals[1..] == more;
      BigEndian16Injective(PutBigEndian16(size)[0], PutBigEndian16(size)[1], units[0], units[1]);
      assert units == PutBigEndian16(size) + units[2..2 + size] + units[2 + size..];
      ConcatIsAssociative(PutBigEndian16(size) + nals[0], SizePrefixed(more), rest);
    } else {
      nals, rest := [], units;
      assert SizePrefixed(nals) + rest == rest;
    }
  }

  lemma AggregateFaults(units: seq<byte>)
    ensures Aggregated(units).error == if OnlySizedUnits(units) then None else Some(TooShort)
    ensures Aggregated(units).nals != [] <==> SizedUnit(units)
  {
    var nals, rest := SizedUnitsSplit(units);
    AggregatedReads(nals, rest);
    if |rest| < 2 {
      assert IsSizePrefixed(units, nals, rest);
    } else if OnlySizedUnits(units) {
      var nals', stray :| IsSizePrefixed(units, nals', stray);
      AggregatedReads(nals', stray);
    }
  }

  // ----- over every history

  lemma ContentsBegin(payload: seq<byte>)
    requires payload != []
    ensures Interpret(payload).Begins? && Interpret(payload).nals != [] <==> BeginsUnit(payload)
  {
    if payload[0] % 32 == 24 { AggregateFaults(payload[1..]); }
  }

  lemma TakeBegins(s: Assembly, payload: seq<byte>)
    requires payload != []
    ensures Take(s, Interpret(payload)).0.fragments == [] <==> s.fragments == [] && !BeginsUnit(payload)
  {
    ContentsBegin(payload);
  }

  lemma NothingBegunSnoc(session: seq<Packet>, last: Packet)
    ensures NothingBegun(session + [last]) <==> NothingBegun(session) && !BeginsUnit(last.payload)
  {
    assert (session + [last])[|session|] == last;
    assert forall i | 0 <= i < |session| :: (session + [last])[i] == session[i];
  }

  /** What one more packet leaves held for a timestamp. */
  lemma HeldNext(s: Assembly, last: Packet, timestamp: uint32)
    ensures var (now, output) := Step(s, Read(last.payload, last.marker, last.timestamp));
      Begun(now, timestamp).fragments == [] <==>
        if last.payload == [] then Begun(s, timestamp).fragments == []
        else output.Emitted? || last.timestamp != timestamp
             || (Begun(s, timestamp).fragments == [] && !BeginsUnit(last.payload))
  {
    if last.payload != [] { TakeBegins(Begun(s, last.timestamp), last.payload); }
  }

  lemma RunNext(s: Assembly, packets: seq<Packet>, init: seq<Packet>, last: Packet)
    requires packets == init + [last]
    ensures var before, t := Run(s, Arrivals(init)), Run(s, Arrivals(packets));
      && t.state == Step(before.state, Read(last.payload, last.marker, last.timestamp)).0
      && t.outputs == before.outputs + [Step(before.state, Read(last.payload, last.marker, last.timestamp)).1]
  {
    assert Arrivals(packets)[..|init|] == Arrivals(init);
  }

  /** Nothing is held for a timestamp exactly when none of the payloads its session has seen began a unit. */
  lemma {:induction false} HeldIffBegun(s: Assembly, packets: seq<Packet>, timestamp: uint32)
    requires !s.assembling
    ensures var t := Run(s, Arrivals(packets));
      Begun(t.state, timestamp).fragments == [] <==> NothingBegun(Joined(packets, t.outputs, timestamp))
  {
    if packets != [] {
      var n := |packets| - 1;
      var init, last := packets[..n], packets[n];
      assert packets == init + [last];
      HeldIffBegun(s, init, timestamp);
      RunNext(s, packets, init, last);
      StepIffBegun(Run(s, Arrivals(init)).state, init, last, Run(s, Arrivals(init)).outputs, timestamp);
    }
  }

  lemma JoinedNext(init: seq<Packet>, last: Packet, before: seq<Output>, output: Output, timestamp: uint32)
    requires |init| == |before|
    ensures Joined(init + [last], before + [output], timestamp) ==
      if last.payload == [] then Joined(init, before, timestamp)
      else if output.Emitted? || last.timestamp != timestamp then []
      else Joined(init, before, timestamp) + [last]
  {
    assert (init + [last])[..|init|] == init && (before + [output])[..|init|] == before;
  }

  lemma StepIffBegun(s: Assembly, init: seq<Packet>, last: Packet, before: seq<Output>, timestamp: uint32)
    requires |init| == |before|
    requires Begun(s, timestamp).fragments == [] <==> NothingBegun(Joined(init, before, timestamp))
    ensures var (now, output) := Step(s, Read(last.payload, last.marker, last.timestamp));
      Begun(now, timestamp).fragments == [] <==> NothingBegun(Joined(init + [last], before + [output], timestamp))
  {
    var output := Step(s, Read(last.payload, last.marker, last.timestamp)).1;
    HeldNext(s, last, timestamp);
    JoinedNext(init, last, before, output, timestamp);
    NothingBegunSnoc(Joined(init, before, timestamp), last);
  }

  /** One push, by what it is begun with. */
  lemma StepFails(s: Assembly, p: Packet)
    ensures match Step(s, Read(p.payload, p.marker, p.timestamp)).1
      case Failed(e) => FaultOf(p.payload, Begun(s, p.timestamp).fragments == []) == Some(e)
      case Emitted(_, _) => FaultOf(p.payload, Begun(s, p.timestamp).fragments == []) == None && p.marker
      case Pending => FaultOf(p.payload, Begun(s, p.timestamp).fragments == []) == None && !p.marker
  {
    if p.payload != [] && p.payload[0] % 32 == 24 { AggregateFaults(p.payload[1..]); }
  }

  /** Over every history, a push fails exactly on the payloads described by `FaultOf`, with that error; every
      other push emits if its packet is marked and is pending if not. */
  lemma PushFailsExactly(s: Assembly, packets: seq<Packet>, p: Packet)
    requires !s.assembling
    ensures var t := Run(s, Arrivals(packets));
      var fault := FaultOf(p.payload, NothingBegun(Joined(packets, t.outputs, p.timestamp)));
      match Step(t.state, Read(p.payload, p.marker, p.timestamp)).1
      case Failed(e) => fault == Some(e)
      case Emitted(_, _) => fault == None && p.marker
      case Pending => fault == None && !p.marker
  {
    HeldIffBegun(s, packets, p.timestamp);
    StepFails(Run(s, Arrivals(packets)).state, p);
  }

  /** A continuation whose first fragment was lost is refused, marked or not. */
  lemma LostStartExample(marker: bool, timestamp: uint32)
    ensures Step(Assembly(false, 0, [], false), Read([0x7C, 0x05, 0xAA], marker, timestamp)).1 == Failed(TooShort)
  {
  }
}
