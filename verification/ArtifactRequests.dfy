/** What the staging host promises its caller, told from the calls themselves: which records it publishes,
    which calls it accepts, and the codes it answers the others with. */
module ArtifactRequests {
  import opened Bytes
  import opened Results
  import opened Strings
  import opened Decimal
  import opened Artifacts
  import opened ArtifactRuns
  import opened ArtifactIntegrity

  /** A digest and a size are what open and commit ask for: what the commit gives counts, where it gives none
      what the open declared, and what neither gives is not asked for. */
  ghost predicate AsRequested(env: Env, declaredDigest: string, declaredSize: int, commit: CommitRequest,
      digest: string, size: int) {
    && (env.Normal(commit.sha256) != "" ==> digest == env.Normal(commit.sha256))
    && (env.Normal(commit.sha256) == "" && declaredDigest != "" ==> digest == declaredDigest)
    && (commit.sizeBytes > 0 ==> size == commit.sizeBytes)
    && (commit.sizeBytes <= 0 && declaredSize > 0 ==> size == declaredSize)
  }

  /** A stream's request as it was opened: trimmed, the digest in lower case, the content type never blank. */
  ghost predicate AsOpened(env: Env, sent: OpenRequest, kept: OpenRequest) {
    && kept.objectKey == TrimSpace(sent.objectKey)
    && kept.contentType == (if TrimSpace(sent.contentType) == "" then "application/octet-stream"
         else TrimSpace(sent.contentType))
    && kept.sha256 == MapChars(env.lower, TrimSpace(sent.sha256))
    && kept.sizeBytes == sent.sizeBytes && kept.attributes == sent.attributes
  }

  // ----- publications

  /** The call that opened a handle. */
  ghost predicate OpenedAt(env: Env, uploader: bool, disk: map<Path, seq<byte>>, ops: seq<Op>, n: nat, handle: uint32,
      kept: OpenRequest) {
    && n < |ops| && ops[n].Open? && ops[n].openRequest.Some?
    && Step(env, uploader, Run(env, uploader, disk, ops[..n]).host, ops[n]).code == handle
    && AsOpened(env, ops[n].openRequest.value, kept)
  }

  lemma OpenedStays(env: Env, uploader: bool, disk: map<Path, seq<byte>>, ops: seq<Op>, op: Op, n: nat,
      handle: uint32, kept: OpenRequest)
    requires OpenedAt(env, uploader, disk, ops, n, handle, kept)
    ensures OpenedAt(env, uploader, disk, ops + [op], n, handle, kept)
  {
    assert (ops + [op])[..n] == ops[..n];
  }

  lemma RequestKept(env: Env, sent: OpenRequest)
    ensures AsOpened(env, sent, NormalRequest(env, sent))
  {
  }

  lemma AddIssues(h: Host, request: OpenRequest, id: nat)
    requires h.next + 1 < HANDLE_LIMIT
    ensures var now := Add(h, request, id);
      && Signed(NextHandle(h.next)) == h.next + 1 && h.next + 1 in now.open
      && now.open == h.open[h.next + 1 := now.open[h.next + 1]] && now.open[h.next + 1].request == request
  {
    assert NextHandle(h.next) == h.next + 1;
  }

  /** A successful open stages a stream for the request it was given. */
  lemma OpenStages(env: Env, uploader: bool, h: Host, op: Op)
    requires op.Open? && OpenStep(env, uploader, h, op).effects != []
    ensures var outcome := OpenStep(env, uploader, h, op);
      && op.openRequest.Some? && op.temp.Some? && outcome.code == Signed(NextHandle(h.next))
      && outcome.host == Add(h, NormalRequest(env, op.openRequest.value), op.temp.value)
  {
  }

  /** A successful open issues the next handle, for the request it was given. */
  lemma OpenIssues(env: Env, uploader: bool, h: Host, op: Op)
    requires op.Open? && OpenStep(env, uploader, h, op).effects != [] && h.next + 1 < HANDLE_LIMIT
    ensures var outcome := OpenStep(env, uploader, h, op);
      && outcome.code == h.next + 1 && op.openRequest.Some? && h.next + 1 in outcome.host.open
      && outcome.host.open == h.open[h.next + 1 := outcome.host.open[h.next + 1]]
      && AsOpened(env, op.openRequest.value, outcome.host.open[h.next + 1].request)
  {
    OpenStages(env, uploader, h, op);
    RequestKept(env, op.openRequest.value);
    AddIssues(h, NormalRequest(env, op.openRequest.value), op.temp.value);
  }

  /** Every stream open after a call was open before it, under the same request, or is opened by it. */
  lemma OpenBeforeOrNow(env: Env, uploader: bool, h: Host, op: Op, handle: uint32)
    requires h.next + 1 < HANDLE_LIMIT || !op.Open?
    requires handle in Step(env, uploader, h, op).host.open
    ensures var outcome := Step(env, uploader, h, op);
      var kept := outcome.host.open[handle].request;
      || (handle in h.open && h.open[handle].request == kept)
      || (op.Open? && op.openRequest.Some? && outcome.code == handle && AsOpened(env, op.openRequest.value, kept))
  {
    StepExplained(env, uploader, h, op);
    if op.Open? && OpenStep(env, uploader, h, op).effects != [] { OpenIssues(env, uploader, h, op); }
  }

  lemma OpenedNow(env: Env, uploader: bool, disk: map<Path, seq<byte>>, ops: seq<Op>, op: Op, handle: uint32,
      kept: OpenRequest)
    requires op.Open? && op.openRequest.Some? && AsOpened(env, op.openRequest.value, kept)
    requires Step(env, uploader, Run(env, uploader, disk, ops).host, op).code == handle
    ensures OpenedAt(env, uploader, disk, ops + [op], |ops|, handle, kept)
  {
    assert (ops + [op])[..|ops|] == ops;
  }

  lemma RunNext(env: Env, uploader: bool, disk: map<Path, seq<byte>>, ops: seq<Op>, op: Op)
    ensures var w := Run(env, uploader, disk, ops);
      Run(env, uploader, disk, ops + [op]) == Next(env, uploader, w, op)
  {
    assert (ops + [op])[..|ops|] == ops;
  }

  /** Every open stream holds the request of the call that opened it. */
  lemma {:induction false} OpenStreamWasOpened(env: Env, uploader: bool, disk: map<Path, seq<byte>>, ops: seq<Op>,
      handle: uint32)
    requires StagingOnDisk(disk) == {} && Opens(ops) < HANDLE_LIMIT
    requires handle in Run(env, uploader, disk, ops).host.open
    ensures exists n: nat :: OpenedAt(env, uploader, disk, ops, n, handle,
      Run(env, uploader, disk, ops).host.open[handle].request)
  {
    if ops != [] {
      var init, op := ops[..|ops| - 1], ops[|ops| - 1];
      assert ops == init + [op];
      EveryRunIsSound(env, uploader, disk, init);
      RunNext(env, uploader, disk, init, op);
      var h := Run(env, uploader, disk, init).host;
      var kept := Run(env, uploader, disk, ops).host.open[handle].request;
      OpenBeforeOrNow(env, uploader, h, op, handle);
      if handle in h.open && h.open[handle].request == kept {
        OpenStreamWasOpened(env, uploader, disk, init, handle);
        var n: nat :| OpenedAt(env, uploader, disk, init, n, handle, h.open[handle].request);
        OpenedStays(env, uploader, disk, init, op, n, handle, kept);
      } else {
        OpenedNow(env, uploader, disk, init, op, handle, kept);
      }
    }
  }

  lemma VerifiedIff(env: Env, declared: OpenRequest, commit: CommitRequest, digest: string, size: int)
    ensures Verified(env, declared, commit, digest, size)
       <==> AsRequested(env, declared.sha256, declared.sizeBytes, commit, digest, size)
  {
  }

  /** A commit adds one record, and writes one object: of the bytes given, under the request given. */
  ghost predicate Records(env: Env, kept: OpenRequest, body: seq<byte>, before: Host, now: Host) {
    && now.committed
         == before.committed + [Artifact(kept.objectKey, kept.contentType, env.digest(body), |body|, kept.attributes)]
    && Object(kept.objectKey) in now.disk && now.disk[Object(kept.objectKey)] == body
  }

  /** What a successful commit publishes: a record of the payloads that reached the file. */
  lemma CommitPublishes(env: Env, h: Host, log: seq<Effect>, op: Op)
    requires FilesHold(h) && StreamsAgree(h, log) && op.Commit? && CommitStep(env, h, op).code >= 0
    ensures op.commitRequest.Some? && op.handle in h.open
    ensures var s, body := h.open[op.handle], Flatten(Payloads(log, op.handle));
      && Records(env, s.request, body, h, CommitStep(env, h, op).host)
      && AsRequested(env, s.request.sha256, s.request.sizeBytes, op.commitRequest.value, env.digest(body), |body|)
  {
    var s := h.open[op.handle];
    assert StreamAgrees(s, Payloads(log, op.handle), Declared(log, op.handle));
    VerifiedIff(env, s.request, op.commitRequest.value, env.digest(s.hashed), s.size);
  }

  /** The commit `op` after the calls `ops` publishes what call `n` opened. */
  ghost predicate PublishesOpened(env: Env, uploader: bool, disk: map<Path, seq<byte>>, ops: seq<Op>, op: Op, n: nat)
    requires op.Commit?
  {
    && n < |ops| && ops[n].Open? && ops[n].openRequest.Some? && op.commitRequest.Some?
    && Step(env, uploader, Run(env, uploader, disk, ops[..n]).host, ops[n]).code == op.handle
    && var w, sent := Run(env, uploader, disk, ops), ops[n].openRequest.value;
       var body := Flatten(Payloads(w.log, op.handle));
       && (exists kept ::
           AsOpened(env, sent, kept) && Records(env, kept, body, w.host, CommitStep(env, w.host, op).host))
       && AsRequested(env, env.Normal(sent.sha256), sent.sizeBytes, op.commitRequest.value, env.digest(body), |body|)
  }

  /** For every successful commit of every run there is the open that issued its handle. The record published
      is under that open's key, type and attributes, with the digest and size of the payloads that reached the
      file; they are those that commit and open asked for, and the object is these payloads. */
  lemma EveryPublicationAsRequested(env: Env, uploader: bool, disk: map<Path, seq<byte>>, ops: seq<Op>, op: Op)
    requires StagingOnDisk(disk) == {} && Opens(ops) < HANDLE_LIMIT && op.Commit?
    requires CommitStep(env, Run(env, uploader, disk, ops).host, op).code >= 0
    ensures exists n: nat :: PublishesOpened(env, uploader, disk, ops, op, n)
  {
    var w := Run(env, uploader, disk, ops);
    EveryRunIsSound(env, uploader, disk, ops);
    CommitPublishes(env, w.host, w.log, op);
    var kept := w.host.open[op.handle].request;
    OpenStreamWasOpened(env, uploader, disk, ops, op.handle);
    var n: nat :| OpenedAt(env, uploader, disk, ops, n, op.handle, kept);
    assert PublishesOpened(env, uploader, disk, ops, op, n);
  }

  // ----- answers

  /** The text of a commit response, given how strings and attributes are written. */
  function ResponseText(quoted: string -> string, attributes: map<string, string> -> string, a: Artifact): string
    requires a.sizeBytes >= 0
  {
    "{\"object_key\":" + quoted(a.objectKey)
    + (if a.contentType == "" then "" else ",\"content_type\":" + quoted(a.contentType))
    + (if a.sha256 == "" then "" else ",\"sha256\":" + quoted(a.sha256))
    + (if a.sizeBytes == 0 then "" else ",\"size_bytes\":" + Numeral(a.sizeBytes))
    + (if a.attributes == map[] then "" else ",\"attributes\":" + attributes(a.attributes))
    + "}"
  }

  function Numeral(n: nat): (s: string) {
    var digits := Digits(n);
    seq(|digits|, i requires 0 <= i < |digits| => '0' + digits[i] as char)
  }

  lemma {:induction false} NumeralLength(n: nat)
    ensures |Numeral(n)| == DecimalLength(n)
  {
    if n >= 10 { NumeralLength(n / 10); }
  }

  /** The length the host compares with the buffer is that of the response's text. */
  lemma ResponseLengthIs(env: Env, quoted: string -> string, attributes: map<string, string> -> string, a: Artifact)
    requires a.sizeBytes >= 0
    requires env.quotedLength(a.objectKey) == |quoted(a.objectKey)|
      && env.quotedLength(a.contentType) == |quoted(a.contentType)| && env.quotedLength(a.sha256) == |quoted(a.sha256)|
    requires env.attributesLength(a.attributes) == |attributes(a.attributes)|
    ensures ResponseLength(env, a) == |ResponseText(quoted, attributes, a)|
  {
    NumeralLength(a.sizeBytes);
  }

  /** In every run, a commit that could be decoded, on an open handle, answers with an error exactly in the
      cases listed, and otherwise with the length of its response. */
  lemma CommitAnswers(env: Env, uploader: bool, disk: map<Path, seq<byte>>, ops: seq<Op>, op: Op)
    requires StagingOnDisk(disk) == {} && Opens(ops) < HANDLE_LIMIT && op.Commit?
    requires op.commitRequest.Some? && op.handle in Run(env, uploader, disk, ops).host.open
    ensures var w := Run(env, uploader, disk, ops);
      var kept, body := w.host.open[op.handle].request, Flatten(Payloads(w.log, op.handle));
      var length := ResponseLength(env, Artifact(kept.objectKey, kept.contentType, env.digest(body), |body|,
        kept.attributes));
      CommitStep(env, w.host, op).code ==
        if !AsRequested(env, kept.sha256, kept.sizeBytes, op.commitRequest.value, env.digest(body), |body|) then -1
        else if op.closed && length > op.buffer then -3
        else if !op.closed || !op.mkdir || !op.chmod || !op.renamed then -5
        else length
  {
    var w := Run(env, uploader, disk, ops);
    EveryRunIsSound(env, uploader, disk, ops);
    CommitCode(env, w.host, w.log, op);
  }

  lemma CommitCode(env: Env, h: Host, log: seq<Effect>, op: Op)
    requires FilesHold(h) && StreamsAgree(h, log) && op.Commit? && op.commitRequest.Some? && op.handle in h.open
    ensures var kept, body := h.open[op.handle].request, Flatten(Payloads(log, op.handle));
      var length := ResponseLength(env, Artifact(kept.objectKey, kept.contentType, env.digest(body), |body|,
        kept.attributes));
      CommitStep(env, h, op).code ==
        if !AsRequested(env, kept.sha256, kept.sizeBytes, op.commitRequest.value, env.digest(body), |body|) then -1
        else if op.closed && length > op.buffer then -3
        else if !op.closed || !op.mkdir || !op.chmod || !op.renamed then -5
        else length
  {
    var s := h.open[op.handle];
    assert StreamAgrees(s, Payloads(log, op.handle), Declared(log, op.handle));
    VerifiedIff(env, s.request, op.commitRequest.value, env.digest(s.hashed), s.size);
  }

  /** In every run, a write reaches the file exactly under the conditions listed, and is accepted unless it
      takes the stream past its declared size: an index that is positive must be the number of payloads before. */
  lemma WriteAnswers(env: Env, uploader: bool, disk: map<Path, seq<byte>>, ops: seq<Op>, op: Op)
    requires StagingOnDisk(disk) == {} && Opens(ops) < HANDLE_LIMIT && op.Write?
    ensures var w := Run(env, uploader, disk, ops);
      var outcome, payloads := WriteStep(w.host, op), Payloads(w.log, op.handle);
      && (outcome.effects == [Reached(op.handle, op.payload)] <==>
            && 0 < |op.payload| <= 2097152 && op.index.Some? && op.handle in w.host.open
            && (op.index.value <= 0 || op.index.value == |payloads|) && op.written)
      && (outcome.code >= 0 <==>
            && outcome.effects == [Reached(op.handle, op.payload)]
            && var declared := w.host.open[op.handle].request.sizeBytes;
               declared <= 0 || |Flatten(payloads)| + |op.payload| <= declared)
      && (outcome.code >= 0 ==> outcome.code == |op.payload|)
  {
    var w := Run(env, uploader, disk, ops);
    EveryRunIsSound(env, uploader, disk, ops);
    WriteAnswer(w.host, w.log, op);
  }

  lemma WriteAnswer(h: Host, log: seq<Effect>, op: Op)
    requires FilesHold(h) && StreamsAgree(h, log) && op.Write?
    ensures var outcome, payloads := WriteStep(h, op), Payloads(log, op.handle);
      && (outcome.effects == [Reached(op.handle, op.payload)] <==>
            && 0 < |op.payload| <= 2097152 && op.index.Some? && op.handle in h.open
            && (op.index.value <= 0 || op.index.value == |payloads|) && op.written)
      && (outcome.code >= 0 <==>
            && outcome.effects == [Reached(op.handle, op.payload)]
            && var declared := h.open[op.handle].request.sizeBytes;
               declared <= 0 || |Flatten(payloads)| + |op.payload| <= declared)
      && (outcome.code >= 0 ==> outcome.code == |op.payload|)
  {
    if op.handle in h.open {
      assert StreamAgrees(h.open[op.handle], Payloads(log, op.handle), Declared(log, op.handle));
    }
  }

  /** The errors of a write. */
  lemma WriteErrors(h: Host, op: Op)
    requires op.Write? && WriteStep(h, op).code < 0
    ensures WriteStep(h, op).code ==
      if op.payload == [] then -1
      else if |op.payload| > 2097152 then -3
      else if op.index.Some? && op.handle !in h.open then -7
      else if op.index.Some? && (op.index.value <= 0 || op.index.value == h.open[op.handle].nextIndex)
        && WriteStep(h, op).effects == [] then -5
      else -1
  {
  }

  /** An open succeeds exactly under the conditions listed. */
  lemma OpenSucceedsIff(env: Env, uploader: bool, h: Host, op: Op)
    requires op.Open? && h.next + 1 < HANDLE_LIMIT
    ensures var outcome := OpenStep(env, uploader, h, op);
      outcome.code >= 0 <==>
        && uploader && 0 < op.encodedLength <= 2097152 && op.openRequest.Some?
        && OpensFor(env, NormalRequest(env, op.openRequest.value)) && |h.open| < 8
        && op.mkdir && op.temp.Some? && Staging(op.temp.value) !in h.disk
    ensures OpenStep(env, uploader, h, op).code < 0 ==> OpenStep(env, uploader, h, op).host == h
  {
    assert NextHandle(h.next) == h.next + 1;
  }

  /** A request a stream may be opened for. */
  predicate OpensFor(env: Env, kept: OpenRequest) {
    && ValidKey(kept.objectKey) && (kept.sha256 == "" || IsDigest(kept.sha256)) && kept.sizeBytes >= 0
    && ResponseLength(env, Artifact(kept.objectKey, kept.contentType, seq(64, _ => 'f'), 0x7FFF_FFFF_FFFF_FFFF,
         kept.attributes)) <= 65536
  }

  /** The errors of an open. */
  lemma OpenErrors(env: Env, uploader: bool, h: Host, op: Op)
    requires op.Open? && OpenStep(env, uploader, h, op).code < 0 && h.next + 1 < HANDLE_LIMIT
    ensures OpenStep(env, uploader, h, op).code ==
      if !uploader then -4
      else if op.encodedLength > 2097152 then -3
      else if op.encodedLength == 0 || op.openRequest.None? then -1
      else
        var kept := NormalRequest(env, op.openRequest.value);
        if !ValidKey(kept.objectKey) || (kept.sha256 != "" && !IsDigest(kept.sha256)) || kept.sizeBytes < 0 then -1
        else if !OpensFor(env, kept) || |h.open| >= 8 then -3
        else -5
  {
    assert NextHandle(h.next) == h.next + 1;
  }

  /** An abort succeeds exactly on an open handle; a call on any other is refused as such, unless it is refused
      before it comes to the handle. */
  lemma HandleErrors(env: Env, h: Host, op: Op)
    ensures op.Abort? ==> AbortStep(h, op).code == if op.handle in h.open then 0 else -7
    ensures op.Commit? && op.commitRequest.None? ==>
              CommitStep(env, h, op).code == -1 && CommitStep(env, h, op).host == h
    ensures op.Commit? && op.commitRequest.Some? && op.handle !in h.open ==> CommitStep(env, h, op).code == -7
  {
  }

  /** A digest is 64 hexadecimal digits. */
  lemma DigestIff(s: string)
    ensures IsDigest(s) <==> |s| == 64 && forall c <- s :: IsHexDigit(c)
  {
    assert forall i | 0 <= i < |s| :: s[i] in s;
  }

  /** The characters of keys and digests. */
  lemma CharacterTables(c: char)
    ensures IsKeyChar(c) <==>
      || c in {'a', 'b', 'c', 'd', 'e', 'f', 'g', 'h', 'i', 'j', 'k', 'l', 'm'}
      || c in {'n', 'o', 'p', 'q', 'r', 's', 't', 'u', 'v', 'w', 'x', 'y', 'z'}
      || c in {'A', 'B', 'C', 'D', 'E', 'F', 'G', 'H', 'I', 'J', 'K', 'L', 'M'}
      || c in {'N', 'O', 'P', 'Q', 'R', 'S', 'T', 'U', 'V', 'W', 'X', 'Y', 'Z'}
      || c in {'0', '1', '2', '3', '4', '5', '6', '7', '8', '9', '.', '_', '/', '-'}
    ensures IsHexDigit(c) <==>
      c in {'0', '1', '2', '3', '4', '5', '6', '7', '8', '9', 'a', 'b', 'c', 'd', 'e', 'f', 'A', 'B', 'C', 'D', 'E',
          'F'}
  {
  }
}
