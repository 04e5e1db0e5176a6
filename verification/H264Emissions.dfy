/** What a push emits, from the bytes of the payloads alone, over every history: the bytes of the access unit and
    whether it is a keyframe. */
module H264Emissions {
  import opened Bytes
  import opened Results
  import opened H264
  import opened H264Runs
  import opened H264Packetizer
  import opened H264Failures

  // ----- keyframes

  /** Some unit of an aggregate, before one that is not behind its size, is of type 5. */
  predicate AggregatesIdr(units: seq<byte>) {
    SizedUnit(units) &&
    var size := BigEndian16(units[0], units[1]);
    units[2] % 32 == 5 || AggregatesIdr(units[2 + size..])
  }

  /** The payload is, aggregates or is a fragment of a unit of type 5, an IDR slice. */
  predicate ShowsIdr(payload: seq<byte>) {
    payload != [] &&
    var kind := payload[0] % 32;
    || kind == 5
    || (kind == 24 && AggregatesIdr(payload[1..]))
    || (kind == 28 && |payload| >= 2 && payload[1] % 32 == 5)
  }

  /** The session has shown an IDR slice, not counting fragments of a unit it has not begun. */
  predicate KeyIn(session: seq<Packet>) {
    session != [] &&
    var n := |session| - 1;
    || KeyIn(session[..n])
    || (ShowsIdr(session[n].payload) && !NothingBegun(session))
  }

  lemma KeySnoc(session: seq<Packet>, last: Packet)
    ensures KeyIn(session + [last])
       <==> KeyIn(session) || (ShowsIdr(last.payload) && !(NothingBegun(session) && !BeginsUnit(last.payload)))
  {
    assert (session + [last])[..|session|] == session;
    NothingBegunSnoc(session, last);
  }

  lemma AnyIdrCons(nal: Nal, nals: seq<Nal>)
    requires nal != []
    ensures AnyIdr([nal] + nals) <==> nal[0] % 32 == 5 || AnyIdr(nals)
  {
    assert nal in [nal] + nals && forall n <- nals :: n in [nal] + nals;
  }

  lemma {:induction false} AggregatedIdr(units: seq<byte>)
    ensures AnyIdr(Aggregated(units).nals) <==> AggregatesIdr(units)
    decreases |units|
  {
    if SizedUnit(units) {
      var size := BigEndian16(units[0], units[1]);
      AggregatedIdr(units[2 + size..]);
      assert units[2..2 + size][0] == units[2];
      AnyIdrCons(units[2..2 + size], Aggregated(units[2 + size..]).nals);
    }
  }

  lemma HeaderType(indicator: byte, unitType: nat)
    requires unitType < 32
    ensures (indicator - indicator % 32 + unitType) % 32 == unitType
  {
  }

  lemma TakeKey(s: Assembly, payload: seq<byte>)
    requires payload != []
    ensures Take(s, Interpret(payload)).0.keyframe
       <==> s.keyframe || (ShowsIdr(payload) && (s.fragments != [] || BeginsUnit(payload)))
  {
    var kind := payload[0] % 32;
    if kind == 24 {
      AggregatedIdr(payload[1..]);
    } else if 1 <= kind <= 23 {
      AnyIdrCons(payload, []);
      assert [payload] + [] == [payload];
    } else if kind == 28 && |payload| >= 2 && payload[1] >= 128 {
      StartKey(s, payload);
    }
  }

  lemma StartKey(s: Assembly, payload: seq<byte>)
    requires |payload| >= 2 && payload[0] % 32 == 28 && payload[1] >= 128
    ensures Take(s, Interpret(payload)).0.keyframe <==> s.keyframe || payload[1] % 32 == 5
  {
    var nal := [payload[0] - 28 + payload[1] % 32] + payload[2..];
    HeaderType(payload[0], payload[1] % 32);
    AnyIdrCons(nal, []);
    assert [nal] + [] == [nal];
  }

  /** What one more packet leaves marked for a timestamp. */
  lemma KeyNext(s: Assembly, last: Packet, timestamp: uint32)
    ensures var (now, output) := Step(s, Read(last.payload, last.marker, last.timestamp));
      Begun(now, timestamp).keyframe <==>
        if last.payload == [] then Begun(s, timestamp).keyframe
        else
          && !output.Emitted? && last.timestamp == timestamp
          && (Begun(s, timestamp).keyframe
              || (ShowsIdr(last.payload) && (Begun(s, timestamp).fragments != [] || BeginsUnit(last.payload))))
  {
    if last.payload != [] { TakeKey(Begun(s, last.timestamp), last.payload); }
  }

  lemma StepIffKey(s: Assembly, init: seq<Packet>, last: Packet, before: seq<Output>, timestamp: uint32)
    requires |init| == |before|
    requires Begun(s, timestamp).fragments == [] <==> NothingBegun(Joined(init, before, timestamp))
    requires Begun(s, timestamp).keyframe <==> KeyIn(Joined(init, before, timestamp))
    ensures var (now, output) := Step(s, Read(last.payload, last.marker, last.timestamp));
      Begun(now, timestamp).keyframe <==> KeyIn(Joined(init + [last], before + [output], timestamp))
  {
    var output := Step(s, Read(last.payload, last.marker, last.timestamp)).1;
    KeyNext(s, last, timestamp);
    JoinedNext(init, last, before, output, timestamp);
    KeySnoc(Joined(init, before, timestamp), last);
  }

  lemma {:induction false} KeyHeld(s: Assembly, packets: seq<Packet>, timestamp: uint32)
    requires !s.assembling
    ensures var t := Run(s, Arrivals(packets));
      Begun(t.state, timestamp).keyframe <==> KeyIn(Joined(packets, t.outputs, timestamp))
  {
    if packets != [] {
      var n := |packets| - 1;
      var init, last := packets[..n], packets[n];
      assert packets == init + [last];
      KeyHeld(s, init, timestamp);
      HeldIffBegun(s, init, timestamp);
      RunNext(s, packets, init, last);
      StepIffKey(Run(s, Arrivals(init)).state, init, last, Run(s, Arrivals(init)).outputs, timestamp);
    }
  }

  lemma EmittedKey(s: Assembly, p: Packet)
    requires Step(s, Read(p.payload, p.marker, p.timestamp)).1.Emitted?
    ensures Step(s, Read(p.payload, p.marker, p.timestamp)).1.keyframe
       <==> Begun(s, p.timestamp).keyframe
            || (ShowsIdr(p.payload) && (Begun(s, p.timestamp).fragments != [] || BeginsUnit(p.payload)))
  {
    TakeKey(Begun(s, p.timestamp), p.payload);
  }

  // ----- bytes

  /** The units of an aggregate, each behind a start code, up to one that is not behind its size. */
  function AggregateBytes(units: seq<byte>): seq<byte> {
    if !SizedUnit(units) then []
    else
      var size := BigEndian16(units[0], units[1]);
      [0, 0, 0, 1] + units[2..2 + size] + AggregateBytes(units[2 + size..])
  }

  /** What a payload adds to an access unit: its unit or units behind start codes, of a first fragment the
      unit's own header and what follows the two of the fragment, and of another fragment what follows them. */
  function AddedBytes(payload: seq<byte>, begun: bool): seq<byte> {
    if payload == [] then []
    else
      var kind := payload[0] % 32;
      if 1 <= kind <= 23 then [0, 0, 0, 1] + payload
      else if kind == 24 then AggregateBytes(payload[1..])
      else if kind == 28 && |payload| >= 2 then
        if payload[1] >= 128 then [0, 0, 0, 1] + ([payload[0] - 28 + payload[1] % 32] + payload[2..])
        else if begun then payload[2..]
        else []
      else []
  }

  function SessionBytes(session: seq<Packet>): seq<byte> {
    if session == [] then []
    else
      var n := |session| - 1;
      SessionBytes(session[..n]) + AddedBytes(session[n].payload, !NothingBegun(session[..n]))
  }

  lemma BytesSnoc(session: seq<Packet>, last: Packet)
    ensures SessionBytes(session + [last]) == SessionBytes(session) + AddedBytes(last.payload, !NothingBegun(session))
  {
    assert (session + [last])[..|session|] == session;
  }

  lemma OneUnit(nal: Nal)
    ensures Flatten(Units([nal])) == [0, 0, 0, 1] + nal
  {
    FlattenSnoc([], START_CODE + nal);
    assert Units([nal]) == [] + [START_CODE + nal] && [] + (START_CODE + nal) == START_CODE + nal;
  }

  lemma {:induction false} AggregatedBytes(units: seq<byte>)
    ensures Flatten(Units(Aggregated(units).nals)) == AggregateBytes(units)
    decreases |units|
  {
    if SizedUnit(units) {
      var size := BigEndian16(units[0], units[1]);
      var first, more := units[2..2 + size], Aggregated(units[2 + size..]).nals;
      AggregatedBytes(units[2 + size..]);
      OneUnit(first);
      assert Units([first] + more) == Units([first]) + Units(more);
      FlattenAppend(Units([first]), Units(more));
    }
  }

  lemma BeginsBytes(s: Assembly, nals: seq<Nal>, error: Option<Error>)
    ensures Flatten(Take(s, Begins(nals, error)).0.fragments) == Flatten(s.fragments) + Flatten(Units(nals))
  {
    FlattenAppend(s.fragments, Units(nals));
  }

  lemma ContinuesBytes(s: Assembly, tail: seq<byte>, idr: bool)
    ensures Flatten(Take(s, Continues(tail, idr)).0.fragments)
         == Flatten(s.fragments) + if s.fragments != [] then tail else []
  {
    if s.fragments != [] {
      var init, last := s.fragments[..|s.fragments| - 1], s.fragments[|s.fragments| - 1];
      assert s.fragments == init + [last];
      ExtendLastBytes(init, last, tail);
    } else {
      assert Flatten(s.fragments) + [] == Flatten(s.fragments);
    }
  }

  /** What a payload says, as bytes. */
  lemma BegunBytes(payload: seq<byte>, begun: bool)
    requires payload != [] && Interpret(payload).Begins?
    ensures AddedBytes(payload, begun) == Flatten(Units(Interpret(payload).nals))
  {
    var nals := Interpret(payload).nals;
    if payload[0] % 32 == 24 {
      AggregatedBytes(payload[1..]);
    } else if nals != [] {
      OneUnit(nals[0]);
      assert nals == [nals[0]];
    } else {
      assert Units(nals) == [];
    }
  }

  lemma ContinuedBytes(payload: seq<byte>, begun: bool)
    requires payload != [] && Interpret(payload).Continues?
    ensures AddedBytes(payload, begun) == if begun then Interpret(payload).tail else []
  {
  }

  lemma TakeBytes(s: Assembly, payload: seq<byte>)
    requires payload != []
    ensures Flatten(Take(s, Interpret(payload)).0.fragments)
         == Flatten(s.fragments) + AddedBytes(payload, s.fragments != [])
  {
    match Interpret(payload)
    case Continues(tail, idr) =>
      ContinuedBytes(payload, s.fragments != []);
      ContinuesBytes(s, tail, idr);
    case Begins(nals, error) =>
      BegunBytes(payload, s.fragments != []);
      BeginsBytes(s, nals, error);
  }

  /** What one more packet leaves held for a timestamp. */
  lemma BytesNext(s: Assembly, last: Packet, timestamp: uint32)
    ensures var (now, output) := Step(s, Read(last.payload, last.marker, last.timestamp));
      Flatten(Begun(now, timestamp).fragments) ==
        if last.payload == [] then Flatten(Begun(s, timestamp).fragments)
        else if output.Emitted? || last.timestamp != timestamp then []
        else Flatten(Begun(s, timestamp).fragments) + AddedBytes(last.payload, Begun(s, timestamp).fragments != [])
  {
    if last.payload != [] { TakeBytes(Begun(s, last.timestamp), last.payload); }
  }

  lemma StepBytes(s: Assembly, init: seq<Packet>, last: Packet, before: seq<Output>, timestamp: uint32)
    requires |init| == |before|
    requires Begun(s, timestamp).fragments == [] <==> NothingBegun(Joined(init, before, timestamp))
    requires Flatten(Begun(s, timestamp).fragments) == SessionBytes(Joined(init, before, timestamp))
    ensures var (now, output) := Step(s, Read(last.payload, last.marker, last.timestamp));
      Flatten(Begun(now, timestamp).fragments) == SessionBytes(Joined(init + [last], before + [output], timestamp))
  {
    var output := Step(s, Read(last.payload, last.marker, last.timestamp)).1;
    BytesNext(s, last, timestamp);
    JoinedNext(init, last, before, output, timestamp);
    BytesSnoc(Joined(init, before, timestamp), last);
  }

  lemma {:induction false} BytesHeld(s: Assembly, packets: seq<Packet>, timestamp: uint32)
    requires !s.assembling
    ensures var t := Run(s, Arrivals(packets));
      Flatten(Begun(t.state, timestamp).fragments) == SessionBytes(Joined(packets, t.outputs, timestamp))
  {
    if packets != [] {
      var n := |packets| - 1;
      var init, last := packets[..n], packets[n];
      assert packets == init + [last];
      BytesHeld(s, init, timestamp);
      HeldIffBegun(s, init, timestamp);
      RunNext(s, packets, init, last);
      StepBytes(Run(s, Arrivals(init)).state, init, last, Run(s, Arrivals(init)).outputs, timestamp);
    }
  }

  lemma EmittedBytes(s: Assembly, p: Packet)
    requires Step(s, Read(p.payload, p.marker, p.timestamp)).1.Emitted?
    ensures Step(s, Read(p.payload, p.marker, p.timestamp)).1.unit
         == Flatten(Begun(s, p.timestamp).fragments) + AddedBytes(p.payload, Begun(s, p.timestamp).fragments != [])
  {
    TakeBytes(Begun(s, p.timestamp), p.payload);
  }

  /** Over every history, an emitted access unit is the bytes its session has added, the emitting packet's
      included, and a keyframe exactly when the session has shown an IDR slice. */
  lemma EmitsExactly(s: Assembly, packets: seq<Packet>, p: Packet)
    requires !s.assembling
    ensures var t := Run(s, Arrivals(packets));
      var output := Step(t.state, Read(p.payload, p.marker, p.timestamp)).1;
      output.Emitted? ==>
        var session := Joined(packets, t.outputs, p.timestamp) + [p];
        output.unit == SessionBytes(session) && (output.keyframe <==> KeyIn(session))
  {
    var t := Run(s, Arrivals(packets));
    HeldIffBegun(s, packets, p.timestamp);
    KeyHeld(s, packets, p.timestamp);
    BytesHeld(s, packets, p.timestamp);
    KeySnoc(Joined(packets, t.outputs, p.timestamp), p);
    BytesSnoc(Joined(packets, t.outputs, p.timestamp), p);
    if Step(t.state, Read(p.payload, p.marker, p.timestamp)).1.Emitted? {
      EmittedKey(t.state, p);
      EmittedBytes(t.state, p);
    }
  }
}
