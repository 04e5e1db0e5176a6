/** What the depacketizer emits, as a property of the whole history of payloads. */
module H264Runs {
  import opened Bytes
  import opened Results
  import opened H264

  /** Holds of every state a depacketizer can be in. */
  predicate WellFormed(s: Assembly) {
    && (!s.assembling ==> s.fragments == [] && !s.keyframe)
    && forall f <- s.fragments :: |f| >= 5 && f[..4] == START_CODE && (f[4] % 32 == IDR ==> s.keyframe)
  }

  predicate NoEmptyNals(a: Arrival) {
    a.contents.Some? && a.contents.value.Begins? ==> forall n <- a.contents.value.nals :: n != []
  }

  lemma ReadsNoEmptyNals(payload: seq<byte>, marker: bool, timestamp: uint32)
    ensures NoEmptyNals(Read(payload, marker, timestamp))
  {
  }

  lemma BeginsKeepsWellFormed(s: Assembly, nals: seq<Nal>)
    requires WellFormed(s) && s.assembling && forall n <- nals :: n != []
    ensures WellFormed(Take(s, Begins(nals, None)).0)
  {
    var now := Take(s, Begins(nals, None)).0;
    forall i | 0 <= i < |now.fragments|
      ensures var f := now.fragments[i]; |f| >= 5 && f[..4] == START_CODE && (f[4] % 32 == IDR ==> now.keyframe)
    {
      if i < |s.fragments| {
        assert s.fragments[i] in s.fragments;
      } else {
        assert nals[i - |s.fragments|] in nals;
      }
    }
  }

  lemma ContinuesKeepsWellFormed(s: Assembly, tail: seq<byte>, idr: bool)
    requires WellFormed(s) && s.assembling
    ensures WellFormed(Take(s, Continues(tail, idr)).0)
  {
    var now := Take(s, Continues(tail, idr)).0;
    forall i | 0 <= i < |now.fragments|
      ensures var f := now.fragments[i]; |f| >= 5 && f[..4] == START_CODE && (f[4] % 32 == IDR ==> now.keyframe)
    {
      assert s.fragments[i] in s.fragments;
    }
  }

  lemma StepKeepsWellFormed(s: Assembly, a: Arrival)
    requires WellFormed(s) && NoEmptyNals(a)
    ensures WellFormed(Step(s, a).0)
  {
    match a.contents
    case None =>
    case Some(Begins(nals, _)) => BeginsKeepsWellFormed(Begun(s, a.timestamp), nals);
    case Some(Continues(tail, idr)) => ContinuesKeepsWellFormed(Begun(s, a.timestamp), tail, idr);
  }

  /** The state after a history and the output of each of its payloads. */
  datatype Trace = Trace(state: Assembly, outputs: seq<Output>)

  function Run(s: Assembly, h: seq<Arrival>): (t: Trace)
    ensures |t.outputs| == |h|
  {
    if h == [] then Trace(s, [])
    else Next(Run(s, h[..|h| - 1]), h[|h| - 1])
  }

  function Next(t: Trace, a: Arrival): Trace {
    Trace(Step(t.state, a).0, t.outputs + [Step(t.state, a).1])
  }

  /** What a list of payloads contributes: the bytes of the units they begin and continue, whether one
      is of type 5, and whether any unit has been begun. A continuation of nothing is dropped. */
  datatype Contribution = Contribution(bytes: seq<byte>, idr: bool, begun: bool)

  function Contributed(session: seq<Arrival>): Contribution {
    if session == [] then Contribution([], false, false)
    else Plus(Contributed(session[..|session| - 1]), session[|session| - 1])
  }

  function Plus(c: Contribution, a: Arrival): Contribution {
    match a.contents
    case None => c
    case Some(Begins(nals, _)) => Contribution(c.bytes + Flatten(Units(nals)), c.idr || AnyIdr(nals),
        c.begun || nals != [])
    case Some(Continues(tail, idr)) => if c.begun then Contribution(c.bytes + tail, c.idr || idr, true) else c
  }

  lemma ContributedSnoc(session: seq<Arrival>, a: Arrival)
    ensures Contributed(session + [a]) == Plus(Contributed(session), a)
  {
    assert (session + [a])[..|session|] == session;
  }

  /** The index of the last non-empty payload, or -1. */
  function LastLive(h: seq<Arrival>): (i: int)
    ensures -1 <= i < |h|
    ensures i >= 0 ==> h[i].contents.Some?
    ensures forall k | i < k < |h| :: h[k].contents.None?
  {
    if h == [] then -1
    else if h[|h| - 1].contents.Some? then |h| - 1
    else LastLive(h[..|h| - 1])
  }

  /** `start` is where the session of the last payload was begun: its payloads share one timestamp,
      none before the last emitted, and the last non-empty payload before `start`, if there is one,
      emitted or had another timestamp. */
  ghost predicate IsSession(outputs: seq<Output>, h: seq<Arrival>, start: nat)
    requires |outputs| == |h|
  {
    && start < |h| && h[start].contents.Some?
    && (forall i | start <= i < |h| && h[i].contents.Some? :: h[i].timestamp == h[start].timestamp)
    && (forall i | start <= i < |h| - 1 :: !outputs[i].Emitted?)
    && var last := LastLive(h[..start]);
       last >= 0 ==> outputs[last].Emitted? || h[last].timestamp != h[start].timestamp
  }

  lemma SessionExtends(outputs: seq<Output>, h: seq<Arrival>, start: nat, output: Output, a: Arrival)
    requires |outputs| == |h| && IsSession(outputs, h, start) && !outputs[|h| - 1].Emitted?
    requires a.contents.Some? ==> a.timestamp == h[start].timestamp
    ensures IsSession(outputs + [output], h + [a], start)
  {
    assert (h + [a])[..start] == h[..start];
  }

  /** The state `s` holds exactly the given contribution. */
  ghost predicate Holds(s: Assembly, c: Contribution) {
    && Flatten(s.fragments) == c.bytes
    && (s.fragments != [] <==> c.begun)
    && s.keyframe == c.idr
  }

  /** A payload's output and the state after it, given what its session has contributed. */
  ghost predicate Tells(state: Assembly, output: Output, timestamp: uint32, c: Contribution) {
    match output
    case Emitted(unit, keyframe) => unit == c.bytes && keyframe == c.idr && !state.assembling
    case _ => Holds(state, c) && state.timestamp == timestamp && state.assembling
  }

  lemma TakeContributes(s: Assembly, a: Arrival, before: Contribution)
    requires a.contents.Some? && Holds(s, before)
    ensures Holds(Take(s, a.contents.value).0, Plus(before, a))
  {
    match a.contents
    case Some(Begins(nals, _)) =>
      FlattenAppend(s.fragments, Units(nals));
    case Some(Continues(tail, _)) =>
      if s.fragments != [] {
        var init, last := s.fragments[..|s.fragments| - 1], s.fragments[|s.fragments| - 1];
        assert s.fragments == init + [last];
        ExtendLastBytes(init, last, tail);
      }
  }

  lemma ExtendLastBytes(init: seq<seq<byte>>, last: seq<byte>, tail: seq<byte>)
    ensures Flatten(init + [last + tail]) == Flatten(init + [last]) + tail
  {
    FlattenSnoc(init, last);
    FlattenSnoc(init, last + tail);
    ConcatIsAssociative(Flatten(init), last, tail);
  }

  lemma StepContributes(s: Assembly, a: Arrival, before: Contribution)
    requires a.contents.Some? && Holds(Begun(s, a.timestamp), before)
    ensures Tells(Step(s, a).0, Step(s, a).1, a.timestamp, Plus(before, a))
  {
    TakeContributes(Begun(s, a.timestamp), a, before);
  }

  /** The last payload of the run belongs to the session begun at `start`, and its output and the
      state after it are told by what that session contributed. */
  ghost predicate Explains(t: Trace, h: seq<Arrival>, start: nat)
    requires |t.outputs| == |h|
  {
    && IsSession(t.outputs, h, start)
    && Tells(t.state, t.outputs[|h| - 1], h[start].timestamp, Contributed(h[start..]))
  }

  /** What a run so far amounts to: its state, if it is assembling, and its last output, if that is an
      emission, are explained by one session; and nothing is being assembled only because nothing
      arrived or the last non-empty payload emitted. */
  ghost predicate Accounted(t: Trace, h: seq<Arrival>)
    requires |t.outputs| == |h|
  {
    && (t.state.assembling || (h != [] && t.outputs[|h| - 1].Emitted?) ==> exists start: nat :: Explains(t, h, start))
    && (!t.state.assembling && LastLive(h) >= 0 ==> t.outputs[LastLive(h)].Emitted?)
  }

  lemma SessionContinues(t: Trace, h: seq<Arrival>, start: nat, a: Arrival)
    requires |t.outputs| == |h| && Explains(t, h, start) && t.state.assembling
    requires a.contents.Some? ==> a.timestamp == t.state.timestamp
    ensures Explains(Next(t, a), h + [a], start)
  {
    SessionExtends(t.outputs, h, start, Step(t.state, a).1, a);
    assert (h + [a])[start..] == h[start..] + [a];
    ContributedSnoc(h[start..], a);
    if a.contents.Some? { StepContributes(t.state, a, Contributed(h[start..])); }
  }

  lemma SessionBegins(t: Trace, h: seq<Arrival>, a: Arrival)
    requires |t.outputs| == |h| && Accounted(t, h)
    requires a.contents.Some? && (t.state.assembling ==> t.state.timestamp != a.timestamp)
    ensures Explains(Next(t, a), h + [a], |h|)
  {
    var last := LastLive(h);
    if t.state.assembling {
      var start: nat :| Explains(t, h, start);
      assert h[last].timestamp == h[start].timestamp;
    }
    assert (h + [a])[..|h|] == h;
    assert (h + [a])[|h|..] == [] + [a];
    ContributedSnoc([], a);
    StepContributes(t.state, a, Contributed([]));
  }

  lemma ExplainedAccounted(t: Trace, h: seq<Arrival>, start: nat)
    requires |t.outputs| == |h| && Explains(t, h, start) && (t.outputs[|h| - 1].Emitted? ==> h[|h| - 1].contents.Some?)
    ensures Accounted(t, h)
  {
  }

  lemma NextAccounted(t: Trace, h: seq<Arrival>, a: Arrival)
    requires |t.outputs| == |h| && Accounted(t, h)
    ensures Accounted(Next(t, a), h + [a])
  {
    if t.state.assembling && (a.contents.None? || a.timestamp == t.state.timestamp) {
      var start: nat :| Explains(t, h, start);
      SessionContinues(t, h, start, a);
      ExplainedAccounted(Next(t, a), h + [a], start);
    } else if a.contents.Some? {
      SessionBegins(t, h, a);
      ExplainedAccounted(Next(t, a), h + [a], |h|);
    } else {
      assert (h + [a])[..|h|] == h;
    }
  }

  lemma {:induction false} RunKeepsWellFormed(s: Assembly, h: seq<Arrival>)
    requires WellFormed(s) && forall i | 0 <= i < |h| :: NoEmptyNals(h[i])
    ensures WellFormed(Run(s, h).state)
  {
    if h != [] {
      RunKeepsWellFormed(s, h[..|h| - 1]);
      StepKeepsWellFormed(Run(s, h[..|h| - 1]).state, h[|h| - 1]);
    }
  }

  lemma HistoryGoesOn(s: Assembly, init: seq<Arrival>, last: Arrival)
    requires Accounted(Run(s, init), init)
    ensures Accounted(Run(s, init + [last]), init + [last])
  {
    RunSnoc(s, init, last);
    NextAccounted(Run(s, init), init, last);
  }

  lemma RunSnoc(s: Assembly, init: seq<Arrival>, last: Arrival)
    ensures Run(s, init + [last]) == Next(Run(s, init), last)
  {
    assert (init + [last])[..|init|] == init;
  }

  /** The state machine is a function of its history: whatever was pushed, malformed payloads included,
      an emission is the bytes its session contributed, and the state is accounted for in the same way. */
  lemma {:induction false} HistoryExplainsOutput(s: Assembly, h: seq<Arrival>)
    requires !s.assembling
    ensures Accounted(Run(s, h), h)
  {
    if h != [] {
      var init, last := h[..|h| - 1], h[|h| - 1];
      assert h == init + [last];
      HistoryExplainsOutput(s, init);
      HistoryGoesOn(s, init, last);
    }
  }

  // ----- aggregation packets that end in an error

  lemma FailedKeepsFragmentsIff(s: Assembly, nals: seq<Nal>, error: Error)
    ensures Take(s, Begins(nals, Some(error))).0.fragments == s.fragments <==> nals == []
  {
    assert |Take(s, Begins(nals, Some(error))).0.fragments| == |s.fragments| + |nals|;
  }

  /** A failed aggregation packet adds nothing exactly when its first size is already bad; otherwise the
      units before the bad size stay, and a later marker emits them. */
  lemma FailedAggregateAddsNothingIff(s: Assembly, payload: seq<byte>)
    requires payload != [] && payload[0] % 32 == STAP_A && Interpret(payload).error.Some?
    ensures |payload| >= 3
    ensures Take(s, Interpret(payload)).0.fragments == s.fragments
       <==> BigEndian16(payload[1], payload[2]) == 0 || 3 + BigEndian16(payload[1], payload[2]) > |payload|
  {
    var units := payload[1..];
    assert units[0] == payload[1] && units[1] == payload[2];
    FailedKeepsFragmentsIff(s, Aggregated(units).nals, Aggregated(units).error.value);
  }

  lemma PartialAggregateRead()
    ensures Interpret([24, 0, 1, 1, 0, 0]) == Begins([[1]], Some(TooShort))
  {
    var payload: seq<byte> := [24, 0, 1, 1, 0, 0];
    var units: seq<byte> := [0, 1, 1, 0, 0];
    assert payload[1..] == units && units[2..3] == [1] && units[3..] == [0, 0];
    assert Aggregated([0, 0]) == Begins([], Some(TooShort));
    OneByteUnitRead(units, [1], [0, 0]);
  }

  lemma OneByteUnitRead(units: seq<byte>, nal: Nal, rest: seq<byte>)
    requires |units| >= 3 && units[0] == 0 && units[1] == 1 && units[2..3] == nal && units[3..] == rest
    ensures Aggregated(units) == Begins([nal] + Aggregated(rest).nals, Aggregated(rest).error)
  {
  }

  /** One good unit, then a size of zero: the push fails and the unit is held. */
  lemma PartialAggregateExample(marker: bool, timestamp: uint32)
    ensures Step(Assembly(false, 0, [], false), Read([24, 0, 1, 1, 0, 0], marker, timestamp))
         == (Assembly(true, timestamp, [[0, 0, 0, 1, 1]], false), Failed(TooShort))
  {
    PartialAggregateRead();
    OneUnitHeld(Assembly(true, timestamp, [], false));
  }

  lemma OneUnitHeld(s: Assembly)
    requires s.fragments == []
    ensures Take(s, Begins([[1]], Some(TooShort))) == (s.(fragments := [[0, 0, 0, 1, 1]]), Some(TooShort))
  {
    assert START_CODE + [1] == [0, 0, 0, 1, 1] && !AnyIdr([[1]]);
    assert [] + Units([[1]]) == [[0, 0, 0, 1, 1]];
  }
}
