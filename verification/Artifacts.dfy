/** The artifact staging host as a state machine: streams behind handles, staging files, and the
    records of what was committed. Operating-system outcomes and decoded requests are inputs. */
module Artifacts {
  import opened Bytes
  import opened Results
  import opened Strings

  const OK := 0
  const INVALID := -1
  const TOO_LARGE := -3
  const NOT_FOUND := -4
  const INTERNAL := -5
  const BAD_HANDLE := -7

  const MAX_PAYLOAD := 2 * 1024 * 1024
  const MAX_OPEN_STREAMS := 8
  const MAX_COMMIT_RESPONSE := 64 * 1024
  const MAX_INT64: nat := 0x7FFF_FFFF_FFFF_FFFF
  const HANDLE_LIMIT: nat := 0x8000_0000
  const DEFAULT_CONTENT_TYPE := "application/octet-stream"

  /** What the model does not define: the digest as lower-case hexadecimal, and the encoded lengths of
      a JSON string and of an attribute object. */
  datatype Env = Env(
    digest: seq<byte> -> string, quotedLength: string -> nat, attributesLength: map<string, string> -> nat,
    lower: char -> char)
  {
    ghost predicate Valid() {
      && (forall body: seq<byte> :: IsDigest(digest(body)))
      && (forall s: string :: IsDigest(s) ==> quotedLength(s) == 66)
    }

    /** A text as digests are compared: lower-case, without surrounding space. */
    function Normal(text: string): string {
      MapChars(lower, TrimSpace(text))
    }
  }

  predicate IsHexDigit(c: char) {
    '0' <= c <= '9' || 'a' <= c <= 'f' || 'A' <= c <= 'F'
  }

  predicate IsDigest(s: string) {
    |s| == 64 && forall i | 0 <= i < 64 :: IsHexDigit(s[i])
  }

  datatype OpenRequest = OpenRequest(
    objectKey: string, contentType: string, sha256: string, sizeBytes: int, attributes: map<string, string>)

  datatype CommitRequest = CommitRequest(sha256: string, sizeBytes: int)

  /** A commit response; a committed record holds the same five values. */
  datatype Artifact = Artifact(
    objectKey: string, contentType: string, sha256: string, sizeBytes: int, attributes: map<string, string>)

  /** Staging files and objects have disjoint names. */
  datatype Path = Staging(id: nat) | Object(key: string)

  datatype Stream = Stream(request: OpenRequest, file: nat, hashed: seq<byte>, size: int, nextIndex: int)

  datatype Host = Host(next: uint32, open: map<uint32, Stream>, committed: seq<Artifact>, disk: map<Path, seq<byte>>)

  /** One call, with what the operating system answers along the way. */
  datatype Op =
    | Open(encodedLength: nat, openRequest: Option<OpenRequest>, mkdir: bool, temp: Option<nat>)
    | Write(handle: uint32, index: Option<int>, payload: seq<byte>, written: bool)
    | Commit(handle: uint32, commitRequest: Option<CommitRequest>, buffer: nat, closed: bool, mkdir: bool, chmod: bool,
        renamed: bool)
    | Abort(handle: uint32)

  /** What a call did to files. */
  datatype Effect =
    | Staged(handle: uint32, request: OpenRequest)
    | Reached(handle: uint32, payload: seq<byte>)
    | Published(handle: uint32, commit: CommitRequest, artifact: Artifact)
    | Discarded(handle: uint32)

  datatype Outcome = Outcome(host: Host, code: int, effects: seq<Effect>)

  function Refuse(h: Host, code: int): Outcome {
    Outcome(h, code, [])
  }

  // ----- object keys and response sizes

  predicate IsKeyChar(c: char) {
    'A' <= c <= 'Z' || 'a' <= c <= 'z' || '0' <= c <= '9' || c == '.' || c == '_' || c == '/' || c == '-'
  }

  /** The host's test of an object key, branch for branch. */
  predicate ValidKey(key: string) {
    && key != "" && !HasPrefix(key, "/") && !Contains(key, "..") && !Contains(key, "//")
    && (forall i | 0 <= i < |key| :: IsKeyChar(key[i]))
    && (forall segment <- Split(key, '/') :: segment != "" && segment != ".")
  }

  function DecimalLength(n: nat): nat {
    if n < 10 then 1 else 1 + DecimalLength(n / 10)
  }

  function OptionalLength(present: bool, length: nat): nat {
    if present then length else 0
  }

  /** The length of the JSON encoding of a commit response: empty fields and a zero size are left out. */
  function ResponseLength(env: Env, a: Artifact): nat {
    14 + env.quotedLength(a.objectKey)
    + OptionalLength(a.contentType != "", 16 + env.quotedLength(a.contentType))
    + OptionalLength(a.sha256 != "", 10 + env.quotedLength(a.sha256))
    + OptionalLength(a.sizeBytes != 0, 14 + (if a.sizeBytes < 0 then 1 + DecimalLength(-a.sizeBytes)
        else DecimalLength(a.sizeBytes)))
    + OptionalLength(a.attributes != map[], 14 + env.attributesLength(a.attributes))
    + 1
  }

  function Response(r: OpenRequest, digest: string, size: int): Artifact {
    Artifact(r.objectKey, r.contentType, digest, size, r.attributes)
  }

  /** The digest the open-time check stands in for the real one. */
  function PlaceholderDigest(): (digest: string)
    ensures IsDigest(digest)
  {
    seq(64, _ => 'f')
  }

  // ----- the four calls and the cleanup

  function NormalRequest(env: Env, r: OpenRequest): OpenRequest {
    var contentType := TrimSpace(r.contentType);
    OpenRequest(TrimSpace(r.objectKey), if contentType == "" then DEFAULT_CONTENT_TYPE else contentType,
                env.Normal(r.sha256), r.sizeBytes, r.attributes)
  }

  predicate Acceptable(r: OpenRequest) {
    ValidKey(r.objectKey) && (r.sha256 != "" ==> IsDigest(r.sha256)) && r.sizeBytes >= 0
  }

  /** The largest response a commit of this request may need fits the client's buffer. */
  predicate ResponseFits(env: Env, r: OpenRequest) {
    ResponseLength(env, Response(r, PlaceholderDigest(), MAX_INT64)) <= MAX_COMMIT_RESPONSE
  }

  function NextHandle(next: uint32): uint32 {
    (next + 1) % UINT32_LIMIT
  }

  /** A 32-bit handle returned as a signed number. */
  function Signed(handle: uint32): (n: int)
    ensures -0x8000_0000 <= n < 0x8000_0000 && (n == handle || n == handle - 0x1_0000_0000)
  {
    if handle < HANDLE_LIMIT then handle else handle - UINT32_LIMIT
  }

  // The four ways a call changes the host.

  function Add(h: Host, request: OpenRequest, id: nat): Host {
    var handle := NextHandle(h.next);
    Host(handle, h.open[handle := Stream(request, id, [], 0, 0)], h.committed, h.disk[Staging(id) := []])
  }

  function Extend(h: Host, handle: uint32, payload: seq<byte>): Host
    requires handle in h.open && Staging(h.open[handle].file) in h.disk
  {
    var s := h.open[handle];
    var extended := s.(hashed := s.hashed + payload, size := s.size + |payload|, nextIndex := s.nextIndex + 1);
    h.(open := h.open[handle := extended],
       disk := h.disk[Staging(s.file) := h.disk[Staging(s.file)] + payload])
  }

  function Drop(h: Host, handle: uint32): Host
    requires handle in h.open
  {
    h.(open := h.open - {handle}, disk := h.disk - {Staging(h.open[handle].file)})
  }

  function Publish(h: Host, handle: uint32, artifact: Artifact): Host
    requires handle in h.open && Staging(h.open[handle].file) in h.disk
  {
    var dropped := Drop(h, handle);
    dropped.(committed := h.committed + [artifact],
             disk := dropped.disk[Object(artifact.objectKey) := h.disk[Staging(h.open[handle].file)]])
  }

  function OpenStep(env: Env, uploader: bool, h: Host, op: Op): Outcome
    requires op.Open?
  {
    if !uploader then Refuse(h, NOT_FOUND)
    else if op.encodedLength == 0 then Refuse(h, INVALID)
    else if op.encodedLength > MAX_PAYLOAD then Refuse(h, TOO_LARGE)
    else if op.openRequest.None? then Refuse(h, INVALID)
    else
      var request := NormalRequest(env, op.openRequest.value);
      if !Acceptable(request) then Refuse(h, INVALID)
      else if !ResponseFits(env, request) then Refuse(h, TOO_LARGE)
      else if |h.open| >= MAX_OPEN_STREAMS then Refuse(h, TOO_LARGE)
      else if !op.mkdir || op.temp.None? || Staging(op.temp.value) in h.disk then Refuse(h, INTERNAL)
      else
        Outcome(Add(h, request, op.temp.value), Signed(NextHandle(h.next)), [Staged(NextHandle(h.next), request)])
  }

  function WriteStep(h: Host, op: Op): Outcome
    requires op.Write?
  {
    if op.payload == [] then Refuse(h, INVALID)
    else if |op.payload| > MAX_PAYLOAD then Refuse(h, TOO_LARGE)
    else if op.index.None? then Refuse(h, INVALID)
    else if op.handle !in h.open then Refuse(h, BAD_HANDLE)
    else
      var s := h.open[op.handle];
      if op.index.value > 0 && op.index.value != s.nextIndex then Refuse(h, INVALID)
      else if !op.written || Staging(s.file) !in h.disk then Refuse(h, INTERNAL)
      else
        Outcome(Extend(h, op.handle, op.payload),
                if s.request.sizeBytes > 0 && s.size + |op.payload| > s.request.sizeBytes then INVALID
                else |op.payload|,
                [Reached(op.handle, op.payload)])
  }

  /** The digest and size a commit must match: its own where given, else those declared at open. */
  function ExpectedDigest(env: Env, declared: OpenRequest, commit: CommitRequest): string {
    if env.Normal(commit.sha256) != "" then env.Normal(commit.sha256) else declared.sha256
  }

  function ExpectedSize(declared: OpenRequest, commit: CommitRequest): int {
    if commit.sizeBytes > 0 then commit.sizeBytes else declared.sizeBytes
  }

  predicate Verified(env: Env, declared: OpenRequest, commit: CommitRequest, digest: string, size: int) {
    && (ExpectedDigest(env, declared, commit) != "" ==> ExpectedDigest(env, declared, commit) == digest)
    && (ExpectedSize(declared, commit) > 0 ==> ExpectedSize(declared, commit) == size)
  }

  function CommitStep(env: Env, h: Host, op: Op): Outcome
    requires op.Commit?
  {
    if op.commitRequest.None? then Refuse(h, INVALID)
    else if op.handle !in h.open then Refuse(h, BAD_HANDLE)
    else
      var s := h.open[op.handle];
      var response := Response(s.request, env.digest(s.hashed), s.size);
      var discarded := Drop(h, op.handle);
      if !Verified(env, s.request, op.commitRequest.value, response.sha256, s.size) then
        Outcome(discarded, INVALID, [Discarded(op.handle)])
      else if !op.closed then Outcome(discarded, INTERNAL, [Discarded(op.handle)])
      else if ResponseLength(env, response) > op.buffer then Outcome(discarded, TOO_LARGE, [Discarded(op.handle)])
      else if !op.mkdir || !op.chmod || !op.renamed || Staging(s.file) !in h.disk then
        Outcome(discarded, INTERNAL, [Discarded(op.handle)])
      else
        Outcome(Publish(h, op.handle, response), ResponseLength(env, response),
            [Published(op.handle, op.commitRequest.value, response)])
  }

  function AbortStep(h: Host, op: Op): Outcome
    requires op.Abort?
  {
    if op.handle !in h.open then Refuse(h, BAD_HANDLE) else Outcome(Drop(h, op.handle), OK, [Discarded(op.handle)])
  }

  function Step(env: Env, uploader: bool, h: Host, op: Op): Outcome {
    match op
    case Open(_, _, _, _) => OpenStep(env, uploader, h, op)
    case Write(_, _, _, _) => WriteStep(h, op)
    case Commit(_, _, _, _, _, _, _) => CommitStep(env, h, op)
    case Abort(_) => AbortStep(h, op)
  }

  function StagingFiles(open: map<uint32, Stream>): set<Path> {
    set handle <- open :: Staging(open[handle].file)
  }

  /** The cleanup at the end of a run: every open stream's staging file goes. */
  function Cleanup(h: Host): Host {
    h.(open := map[], disk := h.disk - StagingFiles(h.open))
  }
}
