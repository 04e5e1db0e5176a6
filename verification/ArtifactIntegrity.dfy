/** Whole runs of the staging host: what the records of committed artifacts say about the bytes that
    reached the files, and what becomes of handles. */
module ArtifactIntegrity {
  import opened Bytes
  import opened Results
  import opened Artifacts
  import opened ArtifactRuns

  // ----- reading a log of effects

  /** The payloads that reached a stream's file, in order. */
  function Payloads(log: seq<Effect>, handle: uint32): seq<seq<byte>> {
    if log == [] then []
    else
      var last := log[|log| - 1];
      Payloads(log[..|log| - 1], handle) + (if last.Reached? && last.handle == handle then [last.payload] else [])
  }

  /** The request a handle was last issued for. */
  function Declared(log: seq<Effect>, handle: uint32): Option<OpenRequest> {
    if log == [] then None
    else
      var last := log[|log| - 1];
      if last.Staged? && last.handle == handle then Some(last.request) else Declared(log[..|log| - 1], handle)
  }

  function PublishedArtifacts(log: seq<Effect>): seq<Artifact> {
    if log == [] then []
    else
      var last := log[|log| - 1];
      PublishedArtifacts(log[..|log| - 1]) + (if last.Published? then [last.artifact] else [])
  }

  /** The last record published under an object key. */
  function LastRecord(log: seq<Effect>, key: string): Option<Artifact> {
    if log == [] then None
    else
      var last := log[|log| - 1];
      if last.Published? && last.artifact.objectKey == key then Some(last.artifact)
      else LastRecord(log[..|log| - 1], key)
  }

  function IssuedHandles(log: seq<Effect>): seq<uint32> {
    if log == [] then []
    else
      var last := log[|log| - 1];
      IssuedHandles(log[..|log| - 1]) + (if last.Staged? then [last.handle] else [])
  }

  lemma LogSnoc(log: seq<Effect>, e: Effect)
    ensures (log + [e])[..|log|] == log
  {
  }

  // ----- a run

  datatype World = World(host: Host, log: seq<Effect>)

  function Next(env: Env, uploader: bool, w: World, op: Op): World {
    var outcome := Step(env, uploader, w.host, op);
    World(outcome.host, w.log + outcome.effects)
  }

  function Run(env: Env, uploader: bool, disk: map<Path, seq<byte>>, ops: seq<Op>): World {
    if ops == [] then World(Host(0, map[], [], disk), [])
    else Next(env, uploader, Run(env, uploader, disk, ops[..|ops| - 1]), ops[|ops| - 1])
  }

  function Opens(ops: seq<Op>): nat {
    if ops == [] then 0 else Opens(ops[..|ops| - 1]) + (if ops[|ops| - 1].Open? then 1 else 0)
  }

  /** A log agrees with the host it led to: each open stream has hashed the payloads that reached its
      file, under the request it was opened with; handles were issued in order and none twice; the
      committed records are those published; the last record of an object describes its file. */
  ghost predicate StreamsAgree(h: Host, log: seq<Effect>) {
    forall a <- h.open :: StreamAgrees(h.open[a], Payloads(log, a), Declared(log, a))
  }

  ghost predicate StreamAgrees(s: Stream, payloads: seq<seq<byte>>, declared: Option<OpenRequest>) {
    Flatten(payloads) == s.hashed && |payloads| == s.nextIndex && declared == Some(s.request)
  }

  ghost predicate HandlesAgree(h: Host, log: seq<Effect>) {
    && |IssuedHandles(log)| == h.next
    && (forall i | 0 <= i < |IssuedHandles(log)| :: IssuedHandles(log)[i] == i + 1)
    && (forall a: uint32 | a > h.next :: Payloads(log, a) == [])
  }

  ghost predicate ObjectsAgree(env: Env, h: Host, log: seq<Effect>) {
    && h.committed == PublishedArtifacts(log)
    && forall key: string | LastRecord(log, key).Some? ::
         && Object(key) in h.disk
         && LastRecord(log, key).value.sha256 == env.digest(h.disk[Object(key)])
         && LastRecord(log, key).value.sizeBytes == |h.disk[Object(key)]|
  }

  /** A publication is right, given the log before it. */
  ghost predicate RightPublication(env: Env, before: seq<Effect>, e: Effect) {
    e.Published? ==>
      var body := Flatten(Payloads(before, e.handle));
      var declared := Declared(before, e.handle);
      && declared.Some?
      && e.artifact == Response(declared.value, env.digest(body), |body|)
      && Verified(env, declared.value, e.commit, e.artifact.sha256, e.artifact.sizeBytes)
  }

  ghost predicate PublicationsRight(env: Env, log: seq<Effect>) {
    forall k | 0 <= k < |log| :: RightPublication(env, log[..k], log[k])
  }

  /** What one more effect adds to a handle's history. */
  lemma HistoryNext(log: seq<Effect>, e: Effect, a: uint32)
    ensures Payloads(log + [e], a)
        == if e.Reached? && e.handle == a then Payloads(log, a) + [e.payload] else Payloads(log, a)
    ensures Declared(log + [e], a) == if e.Staged? && e.handle == a then Some(e.request) else Declared(log, a)
  {
    LogSnoc(log, e);
    assert Payloads(log, a) + [] == Payloads(log, a);
  }

  lemma StagedAgrees(h: Host, log: seq<Effect>, request: OpenRequest, id: nat)
    requires StreamsAgree(h, log) && Payloads(log, NextHandle(h.next)) == []
    ensures StreamsAgree(Add(h, request, id), log + [Staged(NextHandle(h.next), request)])
  {
    var now, e := Add(h, request, id), Staged(NextHandle(h.next), request);
    forall a <- now.open ensures StreamAgrees(now.open[a], Payloads(log + [e], a), Declared(log + [e], a)) {
      HistoryNext(log, e, a);
    }
  }

  lemma AbsorbedAgrees(s: Stream, payloads: seq<seq<byte>>, declared: Option<OpenRequest>, payload: seq<byte>)
    requires StreamAgrees(s, payloads, declared)
    ensures StreamAgrees(s.(hashed := s.hashed + payload, size := s.size + |payload|, nextIndex := s.nextIndex + 1),
                         payloads + [payload], declared)
  {
    FlattenSnoc(payloads, payload);
  }

  lemma ReachedAgrees(h: Host, log: seq<Effect>, handle: uint32, payload: seq<byte>)
    requires handle in h.open && Staging(h.open[handle].file) in h.disk && StreamsAgree(h, log)
    ensures StreamsAgree(Extend(h, handle, payload), log + [Reached(handle, payload)])
  {
    var now, e := Extend(h, handle, payload), Reached(handle, payload);
    forall a <- now.open ensures StreamAgrees(now.open[a], Payloads(log + [e], a), Declared(log + [e], a)) {
      HistoryNext(log, e, a);
      assert StreamAgrees(h.open[a], Payloads(log, a), Declared(log, a));
      if a == handle { AbsorbedAgrees(h.open[a], Payloads(log, a), Declared(log, a), payload); }
    }
  }

  lemma ClosedAgrees(h: Host, log: seq<Effect>, now: Host, e: Effect)
    requires !e.Staged? && !e.Reached? && now.open == h.open - {e.handle} && StreamsAgree(h, log)
    ensures StreamsAgree(now, log + [e])
  {
    forall a <- now.open ensures StreamAgrees(now.open[a], Payloads(log + [e], a), Declared(log + [e], a)) {
      HistoryNext(log, e, a);
    }
  }

  lemma StreamsAgreeNext(h: Host, log: seq<Effect>, op: Op, now: Host, e: Effect)
    requires StreamsAgree(h, log) && HandlesAgree(h, log) && Explained(h, op, now, [e])
    requires op.Open? ==> h.next + 1 < HANDLE_LIMIT
    ensures StreamsAgree(now, log + [e])
  {
    match e
    case Staged(_, request) => StagedAgrees(h, log, request, op.temp.value);
    case Reached(handle, payload) => ReachedAgrees(h, log, handle, payload);
    case Published(_, _, _) => ClosedAgrees(h, log, now, e);
    case Discarded(_) => ClosedAgrees(h, log, now, e);
  }

  lemma HandlesAgreeNext(h: Host, log: seq<Effect>, op: Op, now: Host, e: Effect)
    requires HandlesIssued(h) && HandlesAgree(h, log) && Explained(h, op, now, [e])
    requires op.Open? ==> h.next + 1 < HANDLE_LIMIT
    ensures HandlesAgree(now, log + [e])
  {
    LogSnoc(log, e);
    assert now.next == if e.Staged? then h.next + 1 else h.next;
    forall a: uint32 | a > now.next ensures Payloads(log + [e], a) == [] {
      assert Payloads(log, a) == [];
    }
  }

  lemma ObjectsAgreeNext(env: Env, h: Host, log: seq<Effect>, op: Op, now: Host, e: Effect)
    requires FilesHold(h) && ObjectsAgree(env, h, log) && Explained(h, op, now, [e])
    requires e.Published? && e.handle in h.open ==>
               e.artifact.sha256 == env.digest(h.open[e.handle].hashed) && e.artifact.sizeBytes == h.open[e.handle].size
    ensures ObjectsAgree(env, now, log + [e])
  {
    LogSnoc(log, e);
    forall key: string | LastRecord(log + [e], key).Some?
      ensures Object(key) in now.disk && LastRecord(log + [e], key).value.sha256 == env.digest(now.disk[Object(key)])
      ensures LastRecord(log + [e], key).value.sizeBytes == |now.disk[Object(key)]|
    {
      if !(e.Published? && e.artifact.objectKey == key) {
        assert LastRecord(log, key).Some?;
        assert now.disk[Object(key)] == h.disk[Object(key)];
      }
    }
  }

  /** What a successful commit checked and recorded. */
  lemma CommitRecords(env: Env, h: Host, op: Op)
    requires op.Commit? && CommitStep(env, h, op).effects != [] && CommitStep(env, h, op).effects[0].Published?
    ensures var e, s := CommitStep(env, h, op).effects[0], h.open[op.handle];
            && op.handle in h.open && e.handle == op.handle && op.commitRequest == Some(e.commit)
            && e.artifact == Response(s.request, env.digest(s.hashed), s.size)
            && Verified(env, s.request, e.commit, e.artifact.sha256, e.artifact.sizeBytes)
  {
  }

  ghost predicate RequestsFit(env: Env, h: Host) {
    forall a <- h.open :: Acceptable(h.open[a].request) && ResponseFits(env, h.open[a].request)
  }

  /** Everything that holds of a run so far. */
  ghost predicate Sound(env: Env, h: Host, log: seq<Effect>) {
    && Consistent(h) && StreamsAgree(h, log) && HandlesAgree(h, log) && ObjectsAgree(env, h, log)
    && PublicationsRight(env, log)
  }

  /** A published effect says what the stream it closed held. */
  ghost predicate RecordsStream(env: Env, h: Host, e: Effect) {
    e.Published? ==>
      && e.handle in h.open
      && var s := h.open[e.handle];
         && e.artifact == Response(s.request, env.digest(s.hashed), s.size)
         && Verified(env, s.request, e.commit, e.artifact.sha256, e.artifact.sizeBytes)
  }

  lemma PublicationsRightNext(env: Env, h: Host, log: seq<Effect>, e: Effect)
    requires FilesHold(h) && StreamsAgree(h, log) && PublicationsRight(env, log) && RecordsStream(env, h, e)
    ensures PublicationsRight(env, log + [e])
  {
    var longer := log + [e];
    forall k | 0 <= k < |longer| ensures RightPublication(env, longer[..k], longer[k]) {
      assert longer[..k] == log[..k];
      if k < |log| {
        assert longer[k] == log[k];
      } else {
        assert log[..k] == log;
      }
    }
  }

  lemma SoundAfterEffect(env: Env, h: Host, log: seq<Effect>, op: Op, now: Host, e: Effect)
    requires Sound(env, h, log) && Explained(h, op, now, [e]) && (op.Open? ==> h.next + 1 < HANDLE_LIMIT)
    requires RecordsStream(env, h, e)
    ensures Sound(env, now, log + [e])
  {
    ExplainedKeepsConsistent(h, op, now, [e]);
    StreamsAgreeNext(h, log, op, now, e);
    HandlesAgreeNext(h, log, op, now, e);
    ObjectsAgreeNext(env, h, log, op, now, e);
    PublicationsRightNext(env, h, log, e);
  }

  lemma SoundNext(env: Env, h: Host, log: seq<Effect>, op: Op, now: Host, effects: seq<Effect>)
    requires Sound(env, h, log) && Explained(h, op, now, effects) && (op.Open? ==> h.next + 1 < HANDLE_LIMIT)
    requires effects != [] ==> RecordsStream(env, h, effects[0])
    ensures Sound(env, now, log + effects)
  {
    if effects == [] {
      assert log + effects == log;
    } else {
      assert effects == [effects[0]];
      SoundAfterEffect(env, h, log, op, now, effects[0]);
    }
  }

  lemma StepRecordsStream(env: Env, uploader: bool, h: Host, op: Op)
    ensures var effects := Step(env, uploader, h, op).effects; effects != [] ==> RecordsStream(env, h, effects[0])
  {
    if op.Commit? && CommitStep(env, h, op).effects != [] && CommitStep(env, h, op).effects[0].Published? {
      CommitRecords(env, h, op);
    }
  }

  /** Artifact integrity over every run of fewer than 2^31 opens: each record holds the digest and
      length of exactly the payloads that reached its stream's file, in order, and matches the digest
      and size the commit gave or, failing that, those declared at open. */
  lemma {:induction false} EveryRunIsSound(env: Env, uploader: bool, disk: map<Path, seq<byte>>, ops: seq<Op>)
    requires StagingOnDisk(disk) == {} && Opens(ops) < HANDLE_LIMIT
    ensures var w := Run(env, uploader, disk, ops); Sound(env, w.host, w.log) && w.host.next <= Opens(ops)
  {
    if ops == [] {
      assert StagingFiles(map[]) == {};
    } else {
      var init, op := ops[..|ops| - 1], ops[|ops| - 1];
      EveryRunIsSound(env, uploader, disk, init);
      var w := Run(env, uploader, disk, init);
      StepExplained(env, uploader, w.host, op);
      StepRecordsStream(env, uploader, w.host, op);
      var outcome := Step(env, uploader, w.host, op);
      SoundNext(env, w.host, w.log, op, outcome.host, outcome.effects);
    }
  }

  lemma {:induction false} OpensOfPrefix(ops: seq<Op>, n: nat)
    requires n <= |ops|
    ensures Opens(ops[..n]) <= Opens(ops)
  {
    if n < |ops| {
      assert ops[..|ops| - 1][..n] == ops[..n];
      OpensOfPrefix(ops[..|ops| - 1], n);
    } else {
      assert ops[..n] == ops;
    }
  }

  /** A write that succeeds with a positive index had exactly that many chunks before it. */
  lemma WriteIndexCountsChunks(env: Env, uploader: bool, disk: map<Path, seq<byte>>, ops: seq<Op>, op: Op)
    requires StagingOnDisk(disk) == {} && Opens(ops) < HANDLE_LIMIT && op.Write?
    requires WriteStep(Run(env, uploader, disk, ops).host, op).code >= 0 && op.index.Some? && op.index.value > 0
    ensures |Payloads(Run(env, uploader, disk, ops).log, op.handle)| == op.index.value
  {
    EveryRunIsSound(env, uploader, disk, ops);
  }

  // ----- handles

  /** A handle that was issued and is not open any more. */
  ghost predicate Closed(h: Host, handle: uint32) {
    0 < handle <= h.next && handle !in h.open
  }

  /** A call on a handle that is not open fails and changes nothing. */
  lemma CallOnClosedFails(env: Env, uploader: bool, h: Host, op: Op)
    requires !op.Open? && op.handle !in h.open
    ensures Step(env, uploader, h, op).host == h && Step(env, uploader, h, op).code < 0
        && Step(env, uploader, h, op).effects == []
  {
  }

  /** A commit that passed decoding closes its handle, whether or not it succeeds; so does an abort. */
  lemma CommitOrAbortCloses(env: Env, uploader: bool, h: Host, op: Op)
    requires HandlesIssued(h) && (op.Commit? || op.Abort?) && op.handle in h.open
    requires op.Commit? ==> op.commitRequest.Some?
    ensures Closed(Step(env, uploader, h, op).host, op.handle)
  {
    StepExplained(env, uploader, h, op);
  }

  lemma ClosedStaysClosed(h: Host, op: Op, now: Host, effects: seq<Effect>, handle: uint32)
    requires Closed(h, handle) && HandlesIssued(h) && Explained(h, op, now, effects)
        && (op.Open? ==> h.next + 1 < HANDLE_LIMIT)
    ensures Closed(now, handle)
  {
  }

  /** Once closed, a handle stays closed for the rest of the run: it is never issued again. */
  lemma {:induction false} ClosedForever(env: Env, uploader: bool, disk: map<Path, seq<byte>>, ops: seq<Op>, n: nat,
      handle: uint32)
    requires StagingOnDisk(disk) == {} && Opens(ops) < HANDLE_LIMIT && n <= |ops|
    requires Closed(Run(env, uploader, disk, ops[..n]).host, handle)
    ensures Closed(Run(env, uploader, disk, ops).host, handle)
    decreases |ops|
  {
    if n == |ops| {
      assert ops[..n] == ops;
    } else {
      var init, op := ops[..|ops| - 1], ops[|ops| - 1];
      assert init[..n] == ops[..n];
      ClosedForever(env, uploader, disk, init, n, handle);
      EveryRunIsSound(env, uploader, disk, init);
      var w := Run(env, uploader, disk, init);
      StepExplained(env, uploader, w.host, op);
      var outcome := Step(env, uploader, w.host, op);
      ClosedStaysClosed(w.host, op, outcome.host, outcome.effects, handle);
    }
  }

  /** In every run, a commit that passed decoding or an abort on an open handle ends that handle's use: any
      later call on it, with whatever other calls in between, fails and changes nothing. */
  lemma CallsAfterCloseFail(env: Env, uploader: bool, disk: map<Path, seq<byte>>, ops: seq<Op>, n: nat, m: nat)
    requires StagingOnDisk(disk) == {} && Opens(ops) < HANDLE_LIMIT && n < m < |ops|
    requires ops[n].Abort? || (ops[n].Commit? && ops[n].commitRequest.Some?)
    requires !ops[m].Open? && ops[m].handle == ops[n].handle
        && ops[n].handle in Run(env, uploader, disk, ops[..n]).host.open
    ensures var h := Run(env, uploader, disk, ops[..m]).host;
      var outcome := Step(env, uploader, h, ops[m]);
      outcome.host == h && outcome.code < 0 && outcome.effects == []
  {
    var before := Run(env, uploader, disk, ops[..n]).host;
    OpensOfPrefix(ops, n);
    EveryRunIsSound(env, uploader, disk, ops[..n]);
    CommitOrAbortCloses(env, uploader, before, ops[n]);
    assert ops[..n + 1][..n] == ops[..n];
    assert Run(env, uploader, disk, ops[..n + 1]).host == Step(env, uploader, before, ops[n]).host;
    OpensOfPrefix(ops, m);
    assert ops[..m][..n + 1] == ops[..n + 1];
    ClosedForever(env, uploader, disk, ops[..m], n + 1, ops[n].handle);
    CallOnClosedFails(env, uploader, Run(env, uploader, disk, ops[..m]).host, ops[m]);
  }

  /** Cleaning up after any run leaves no staging file, and every object as it was. */
  lemma CleanupLeavesNoStaging(env: Env, uploader: bool, disk: map<Path, seq<byte>>, ops: seq<Op>)
    requires StagingOnDisk(disk) == {} && Opens(ops) < HANDLE_LIMIT
    ensures var h := Run(env, uploader, disk, ops).host;
            && Cleanup(h).open == map[] && StagingOnDisk(Cleanup(h).disk) == {}
            && forall key: string :: Object(key) in h.disk <==>
                Object(key) in Cleanup(h).disk && h.disk[Object(key)] == Cleanup(h).disk[Object(key)]
  {
    EveryRunIsSound(env, uploader, disk, ops);
    var h := Run(env, uploader, disk, ops).host;
    assert StagingOnDisk(Cleanup(h).disk) == StagingOnDisk(h.disk) - StagingFiles(h.open);
  }

  // ----- the size check at open

  lemma {:induction false} DecimalLengthMonotone(a: nat, b: nat)
    requires a <= b
    ensures DecimalLength(a) <= DecimalLength(b)
  {
    if b >= 10 && a >= 10 { DecimalLengthMonotone(a / 10, b / 10); }
  }

  lemma SmallerResponse(env: Env, r: OpenRequest, digest: string, size: int)
    requires env.Valid() && IsDigest(digest) && 0 <= size <= MAX_INT64
    ensures ResponseLength(env, Response(r, digest, size)) <= ResponseLength(env,
        Response(r, PlaceholderDigest(), MAX_INT64))
  {
    DecimalLengthMonotone(size, MAX_INT64);
  }

  lemma {:induction false} OpenRequestsFit(env: Env, uploader: bool, disk: map<Path, seq<byte>>, ops: seq<Op>)
    ensures RequestsFit(env, Run(env, uploader, disk, ops).host)
  {
    if ops != [] {
      var init, op := ops[..|ops| - 1], ops[|ops| - 1];
      OpenRequestsFit(env, uploader, disk, init);
      StepKeepsFit(env, uploader, Run(env, uploader, disk, init).host, op);
    }
  }

  lemma StepKeepsFit(env: Env, uploader: bool, h: Host, op: Op)
    requires RequestsFit(env, h)
    ensures RequestsFit(env, Step(env, uploader, h, op).host)
  {
    StepExplained(env, uploader, h, op);
    var outcome := Step(env, uploader, h, op);
    if outcome.effects != [] {
      if op.Open? { OpenFits(env, uploader, h, op); }
      ExplainedKeepsFit(env, h, op, outcome.host, outcome.effects[0]);
    }
  }

  lemma ExplainedKeepsFit(env: Env, h: Host, op: Op, now: Host, e: Effect)
    requires RequestsFit(env, h) && Explained(h, op, now, [e])
    requires e.Staged? ==> Acceptable(e.request) && ResponseFits(env, e.request)
    ensures RequestsFit(env, now)
  {
    forall a <- now.open ensures Acceptable(now.open[a].request) && ResponseFits(env, now.open[a].request) {
      assert (a in h.open && now.open[a].request == h.open[a].request)
          || (e.Staged? && now.open[a].request == e.request);
    }
  }

  lemma OpenFits(env: Env, uploader: bool, h: Host, op: Op)
    requires op.Open? && OpenStep(env, uploader, h, op).effects != []
    ensures var e := OpenStep(env, uploader, h, op).effects[0];
            e.Staged? && Acceptable(e.request) && ResponseFits(env, e.request)
  {
  }

  /** The size check at open is sufficient: in every run, no commit through the client's 64 KiB buffer
      is refused as too large, whatever the digest and whatever size up to the largest int64. */
  lemma ClientCommitNeverTooLarge(env: Env, uploader: bool, disk: map<Path, seq<byte>>, ops: seq<Op>, op: Op)
    requires env.Valid() && op.Commit? && op.buffer == MAX_COMMIT_RESPONSE
    requires StagingOnDisk(disk) == {} && Opens(ops) < HANDLE_LIMIT
    requires var h := Run(env, uploader, disk, ops).host; op.handle in h.open ==> h.open[op.handle].size <= MAX_INT64
    ensures CommitStep(env, Run(env, uploader, disk, ops).host, op).code != TOO_LARGE
  {
    OpenRequestsFit(env, uploader, disk, ops);
    EveryRunIsSound(env, uploader, disk, ops);
    var h := Run(env, uploader, disk, ops).host;
    if op.handle in h.open {
      var s := h.open[op.handle];
      SmallerResponse(env, s.request, env.digest(s.hashed), s.size);
    }
  }
}
