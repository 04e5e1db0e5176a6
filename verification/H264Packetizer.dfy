/** An RTP packetizer for H.264 (sections 5.6, 5.7.1 and 5.8 of RFC 6184), free to choose how each
    NAL unit travels, and the proof that the depacketizer inverts it whatever it chooses. */
module H264Packetizer {
  import opened Bytes
  import opened Results
  import opened H264
  import opened H264Runs

  predicate IsNal(nal: Nal) {
    nal != [] && 1 <= nal[0] % 32 <= 23
  }

  /** How the packetizer sends its next NAL units: one as it is, several aggregated behind one
      header byte, or one cut into fragmentation payloads. */
  datatype Plan =
    | Single(nal: Nal)
    | Aggregate(header: byte, nals: seq<Nal>)
    | Fragmented(nal: Nal, fragments: seq<seq<byte>>)
  {
    predicate Valid() {
      match this
      case Single(nal) => IsNal(nal)
      case Aggregate(header, nals) => header % 32 == STAP_A && forall n <- nals :: IsNal(n) && |n| < UINT16_LIMIT
      case Fragmented(nal, fragments) =>
        && IsNal(nal) && fragments != []
        && AreFragments(nal[0], fragments)
        && Pieces(fragments) == nal[1..]
    }

    function Nals(): seq<Nal> {
      match this
      case Single(nal) => [nal]
      case Aggregate(_, nals) => nals
      case Fragmented(nal, _) => [nal]
    }

    function Payloads(): seq<seq<byte>>
      requires Valid()
    {
      match this
      case Single(nal) => [nal]
      case Aggregate(header, nals) => [[header] + SizePrefixed(nals)]
      case Fragmented(_, fragments) => fragments
    }
  }

  /** A fragmentation payload of the unit with the given header byte: an indicator with its F and NRI
      bits and type 28, then a header with its type and the start bit on the first fragment alone.
      The end bit is left free: the depacketizer goes by the marker. */
  predicate IsFragment(header: byte, fragment: seq<byte>, first: bool) {
    && |fragment| >= 2
    && fragment[0] == header - header % 32 + FU_A
    && fragment[1] % 32 == header % 32
    && (fragment[1] >= 128 <==> first)
  }

  predicate AreFragments(header: byte, fragments: seq<seq<byte>>) {
    forall i | 0 <= i < |fragments| :: IsFragment(header, fragments[i], i == 0)
  }

  /** The bytes fragmentation payloads carry after their two header bytes. */
  function Pieces(fragments: seq<seq<byte>>): seq<byte>
    requires forall f <- fragments :: |f| >= 2
  {
    if fragments == [] then [] else Pieces(fragments[..|fragments| - 1]) + fragments[|fragments| - 1][2..]
  }

  function SizePrefixed(nals: seq<Nal>): seq<byte>
    requires forall n <- nals :: |n| < UINT16_LIMIT
  {
    if nals == [] then [] else PutBigEndian16(|nals[0]|) + nals[0] + SizePrefixed(nals[1..])
  }

  predicate AllValid(plans: seq<Plan>) {
    forall p <- plans :: p.Valid()
  }

  function AllNals(plans: seq<Plan>): seq<Nal> {
    if plans == [] then [] else AllNals(plans[..|plans| - 1]) + plans[|plans| - 1].Nals()
  }

  function AllPayloads(plans: seq<Plan>): seq<seq<byte>>
    requires AllValid(plans)
  {
    if plans == [] then [] else AllPayloads(plans[..|plans| - 1]) + plans[|plans| - 1].Payloads()
  }

  /** The payloads as packets of one timestamp, the marker on the last alone. */
  function Packets(payloads: seq<seq<byte>>, timestamp: uint32): (packets: seq<Arrival>)
    ensures |packets| == |payloads|
    ensures forall i | 0 <= i < |payloads| :: packets[i] == Read(payloads[i], i == |payloads| - 1, timestamp)
  {
    seq(|payloads|, i requires 0 <= i < |payloads| => Read(payloads[i], i == |payloads| - 1, timestamp))
  }

  /** The state with the given units added. */
  function PlusNals(s: Assembly, nals: seq<Nal>): Assembly {
    s.(fragments := s.fragments + Units(nals), keyframe := s.keyframe || AnyIdr(nals))
  }

  lemma PlusNalsAppend(s: Assembly, a: seq<Nal>, b: seq<Nal>)
    ensures PlusNals(PlusNals(s, a), b) == PlusNals(s, a + b)
  {
    assert s.fragments + Units(a) + Units(b) == s.fragments + Units(a + b);
    if AnyIdr(a) || AnyIdr(b) {
      var n :| (n in a || n in b) && n != [] && n[0] % 32 == IDR;
      assert n in a + b;
    }
  }

  /** What taking the payloads one after the other comes to, or None if one fails. */
  function Feed(s: Assembly, payloads: seq<seq<byte>>): Option<Assembly> {
    if payloads == [] then Some(s)
    else
      match Feed(s, payloads[..|payloads| - 1])
      case None => None
      case Some(before) => FeedOne(before, payloads[|payloads| - 1])
  }

  function FeedOne(s: Assembly, payload: seq<byte>): Option<Assembly> {
    if payload == [] then None
    else
      match Take(s, Interpret(payload))
      case (_, Some(_)) => None
      case (taken, None) => Some(taken)
  }

  lemma FeedSnoc(s: Assembly, payloads: seq<seq<byte>>, payload: seq<byte>)
    ensures Feed(s, payloads + [payload])
        == match Feed(s, payloads) { case None => None case Some(mid) => FeedOne(mid, payload) }
  {
    assert (payloads + [payload])[..|payloads|] == payloads;
  }

  lemma {:induction false} FeedAppend(s: Assembly, a: seq<seq<byte>>, b: seq<seq<byte>>)
    requires Feed(s, a).Some?
    ensures Feed(s, a + b) == Feed(Feed(s, a).value, b)
  {
    if b == [] {
      assert a + b == a;
    } else {
      var init, last := b[..|b| - 1], b[|b| - 1];
      FeedAppend(s, a, init);
      assert a + b == (a + init) + [last] && b == init + [last];
      FeedSnoc(s, a + init, last);
    }
  }

  lemma {:induction false} AggregatedInvertsSizePrefixed(nals: seq<Nal>)
    requires forall n <- nals :: n != [] && |n| < UINT16_LIMIT
    ensures Aggregated(SizePrefixed(nals)) == Begins(nals, None)
  {
    if nals != [] {
      var all, rest := SizePrefixed(nals), SizePrefixed(nals[1..]);
      AggregatedInvertsSizePrefixed(nals[1..]);
      assert all[2..2 + |nals[0]|] == nals[0] && all[2 + |nals[0]|..] == rest;
    }
  }

  lemma FeedSingle(s: Assembly, nal: Nal)
    requires IsNal(nal)
    ensures FeedOne(s, nal) == Some(PlusNals(s, [nal]))
  {
  }

  lemma FeedAggregate(s: Assembly, header: byte, nals: seq<Nal>)
    requires Aggregate(header, nals).Valid()
    ensures FeedOne(s, [header] + SizePrefixed(nals)) == Some(PlusNals(s, nals))
  {
    assert ([header] + SizePrefixed(nals))[1..] == SizePrefixed(nals);
    AggregatedInvertsSizePrefixed(nals);
  }

  lemma FeedFirstFragment(s: Assembly, header: byte, fragment: seq<byte>)
    requires 1 <= header % 32 <= 23 && IsFragment(header, fragment, true)
    ensures FeedOne(s, fragment) == Some(PlusNals(s, [[header] + fragment[2..]]))
  {
    assert fragment[0] - fragment[0] % 32 + fragment[1] % 32 == header;
    assert Interpret(fragment) == Begins([[header] + fragment[2..]], None);
  }

  lemma FeedNextFragment(s: Assembly, header: byte, pieces: seq<byte>, fragment: seq<byte>)
    requires 1 <= header % 32 <= 23 && IsFragment(header, fragment, false)
    ensures FeedOne(PlusNals(s, [[header] + pieces]), fragment)
        == Some(PlusNals(s, [[header] + (pieces + fragment[2..])]))
  {
    assert Interpret(fragment) == Continues(fragment[2..], header % 32 == IDR);
    ContinuesLast(s, header, pieces, fragment[2..]);
  }

  lemma ContinuesLast(s: Assembly, header: byte, pieces: seq<byte>, tail: seq<byte>)
    ensures Take(PlusNals(s, [[header] + pieces]), Continues(tail, header % 32 == IDR))
         == (PlusNals(s, [[header] + (pieces + tail)]), None)
  {
    var nal, longer := [header] + pieces, [header] + (pieces + tail);
    assert Units([nal]) == [START_CODE + nal] && Units([longer]) == [START_CODE + longer];
    assert START_CODE + nal + tail == START_CODE + longer;
    assert (s.fragments + [START_CODE + nal])[..|s.fragments|] == s.fragments;
    assert AnyIdr([nal]) == AnyIdr([longer]) == (header % 32 == IDR) by { assert nal in [nal] && longer in [longer]; }
  }

  /** After some fragments the unit being extended is its header and their pieces. */
  lemma {:induction false} FeedFragments(s: Assembly, header: byte, fragments: seq<seq<byte>>)
    requires fragments != [] && 1 <= header % 32 <= 23
    requires AreFragments(header, fragments)
    ensures Feed(s, fragments) == Some(PlusNals(s, [[header] + Pieces(fragments)]))
  {
    var init, last := fragments[..|fragments| - 1], fragments[|fragments| - 1];
    assert fragments == init + [last];
    FeedSnoc(s, init, last);
    if init == [] {
      assert Pieces(fragments) == last[2..];
      FeedFirstFragment(s, header, last);
    } else {
      FeedFragments(s, header, init);
      FeedNextFragment(s, header, Pieces(init), last);
    }
  }

  lemma FeedPlan(s: Assembly, plan: Plan)
    requires plan.Valid()
    ensures Feed(s, plan.Payloads()) == Some(PlusNals(s, plan.Nals()))
  {
    match plan
    case Single(nal) =>
      FeedSnoc(s, [], nal);
      FeedSingle(s, nal);
      assert [] + [nal] == [nal];
    case Aggregate(header, nals) =>
      var payload := [header] + SizePrefixed(nals);
      FeedSnoc(s, [], payload);
      FeedAggregate(s, header, nals);
      assert [] + [payload] == [payload];
    case Fragmented(nal, fragments) =>
      FeedFragments(s, nal[0], fragments);
      assert [nal[0]] + nal[1..] == nal;
  }

  lemma {:induction false} FeedPlans(s: Assembly, plans: seq<Plan>)
    requires AllValid(plans)
    ensures Feed(s, AllPayloads(plans)) == Some(PlusNals(s, AllNals(plans)))
  {
    if plans == [] {
      assert s.fragments + Units([]) == s.fragments;
    } else {
      var init, last := plans[..|plans| - 1], plans[|plans| - 1];
      FeedPlans(s, init);
      FeedAppend(s, AllPayloads(init), last.Payloads());
      FeedPlan(PlusNals(s, AllNals(init)), last);
      PlusNalsAppend(s, AllNals(init), last.Nals());
    }
  }

  /** Among packets of one timestamp, one that does not fail adds to the state or, if marked, emits it. */
  lemma StepFeeds(s: Assembly, payload: seq<byte>, marker: bool, timestamp: uint32)
    requires FeedOne(Begun(s, timestamp), payload).Some?
    ensures var held := FeedOne(Begun(s, timestamp), payload).value;
            Step(s, Read(payload, marker, timestamp))
                == (if marker then (Assembly(false, timestamp, [], false),
                Emitted(Flatten(held.fragments), held.keyframe)) else (held, Pending))
  {
  }

  /** Unmarked packets only accumulate. */
  lemma {:induction false} UnmarkedAccumulate(s: Assembly, h: seq<Arrival>, payloads: seq<seq<byte>>, timestamp: uint32)
    requires |h| == |payloads| && (!s.assembling || s.timestamp != timestamp)
    requires forall i | 0 <= i < |h| :: h[i] == Read(payloads[i], false, timestamp)
    requires Feed(Assembly(true, timestamp, [], false), payloads).Some?
    ensures Begun(Run(s, h).state, timestamp) == Feed(Assembly(true, timestamp, [], false), payloads).value
    ensures Run(s, h).outputs == Pendings(|h|)
  {
    if h != [] {
      var n := |h| - 1;
      UnmarkedAccumulate(s, h[..n], payloads[..n], timestamp);
      StepFeeds(Run(s, h[..n]).state, payloads[n], false, timestamp);
      FeedKeepsTimestamp(Assembly(true, timestamp, [], false), payloads);
    }
  }

  function Pendings(n: nat): seq<Output> {
    if n == 0 then [] else Pendings(n - 1) + [Pending]
  }

  lemma {:induction false} FeedKeepsTimestamp(s: Assembly, payloads: seq<seq<byte>>)
    requires s.assembling && Feed(s, payloads).Some?
    ensures Feed(s, payloads).value.assembling && Feed(s, payloads).value.timestamp == s.timestamp
  {
    if payloads != [] { FeedKeepsTimestamp(s, payloads[..|payloads| - 1]); }
  }

  /** Packetization independence: however the units of one access unit are sent, no payload fails,
      only the last emits, and it emits the Annex B form of all units in order, flagged as a key frame
      exactly when one of them has type 5. */
  lemma PacketizationIsInverted(s: Assembly, plans: seq<Plan>, timestamp: uint32)
    requires AllValid(plans) && AllPayloads(plans) != []
    requires !s.assembling || s.timestamp != timestamp
    ensures Run(s, Packets(AllPayloads(plans), timestamp)).outputs
         == Pendings(|AllPayloads(plans)| - 1) + [Emitted(Flatten(Units(AllNals(plans))), AnyIdr(AllNals(plans)))]
  {
    var start := Assembly(true, timestamp, [], false);
    FeedPlans(start, plans);
    assert [] + Units(AllNals(plans)) == Units(AllNals(plans));
    MarkedEmits(s, AllPayloads(plans), timestamp, PlusNals(start, AllNals(plans)));
  }

  lemma MarkedEmits(s: Assembly, payloads: seq<seq<byte>>, timestamp: uint32, held: Assembly)
    requires payloads != [] && (!s.assembling || s.timestamp != timestamp)
    requires Feed(Assembly(true, timestamp, [], false), payloads) == Some(held)
    ensures Run(s, Packets(payloads, timestamp)).outputs
         == Pendings(|payloads| - 1) + [Emitted(Flatten(held.fragments), held.keyframe)]
  {
    var n := |payloads| - 1;
    var h := Packets(payloads, timestamp);
    UnmarkedAccumulate(s, h[..n], payloads[..n], timestamp);
    StepFeeds(Run(s, h[..n]).state, payloads[n], true, timestamp);
  }
}
