/** The staging host and its client as objects: a table of streams that are updated in place, and a
    client stub that keeps a handle. */
module ArtifactHost {
  import opened Bytes
  import opened Results
  import opened Artifacts

  class LocalStream {
    var request: OpenRequest
    var file: nat
    var hashed: seq<byte>
    var size: int
    var nextIndex: int
    ghost const handle: uint32

    constructor (request: OpenRequest, file: nat, ghost handle: uint32)
      ensures Model() == Stream(request, file, [], 0, 0) && this.handle == handle
    {
      this.request, this.file, hashed, size, nextIndex, this.handle := request, file, [], 0, 0, handle;
    }

    method Absorb(payload: seq<byte>)
      modifies this
      ensures Model() == old(Model()).(hashed := old(hashed) + payload, size := old(size) + |payload|,
          nextIndex := old(nextIndex) + 1)
    {
      hashed := hashed + payload;
      size := size + |payload|;
      nextIndex := nextIndex + 1;
    }

    function Model(): Stream
      reads this
    {
      Stream(request, file, hashed, size, nextIndex)
    }
  }

  class LocalArtifacts {
    const env: Env
    const uploader: bool
    var next: uint32
    var open: map<uint32, LocalStream>
    var committed: seq<Artifact>
    ghost var disk: map<Path, seq<byte>>
    ghost var table: map<uint32, Stream>
    ghost var owner: map<nat, uint32>
    ghost var Objects: set<LocalStream>

    /** `table` mirrors the streams behind the handles. Every stream knows its handle and every staging
        file its owner, so no two handles share either. */
    ghost predicate Valid()
      reads this, Objects
    {
      table.Keys == open.Keys && forall a <- open :: Mirrors(a)
    }

    ghost predicate Mirrors(a: uint32)
      requires a in open && table.Keys == open.Keys
      reads this, Objects
    {
      && open[a] in Objects && open[a].handle == a && open[a].Model() == table[a]
      && Staging(table[a].file) in disk && table[a].file in owner && owner[table[a].file] == a
    }

    ghost function Model(): Host
      reads this
    {
      Host(next, table, committed, disk)
    }

    constructor (env: Env, uploader: bool, ghost disk: map<Path, seq<byte>>)
      ensures Valid() && Model() == Host(0, map[], [], disk) && Objects == {}
      ensures this.env == env && this.uploader == uploader
    {
      this.env, this.uploader, next, open, committed, this.disk, table, owner, Objects := env, uploader, 0, map[], [],
          disk, map[], map[], {};
    }

    /** Creating a staging file gives a name that was not taken, or fails. */
    method Open(encodedLength: nat, decoded: Option<OpenRequest>, mkdir: bool, temp: Option<nat>) returns (code: int)
      requires Valid() && (temp.Some? ==> Staging(temp.value) !in disk)
      modifies this
      ensures Valid() && fresh(Objects - old(Objects))
      ensures var outcome := OpenStep(env, uploader, old(Model()), Op.Open(encodedLength, decoded, mkdir, temp));
              Model() == outcome.host && code == outcome.code
    {
      if !uploader { return NOT_FOUND; }
      if encodedLength == 0 { return INVALID; }
      if encodedLength > MAX_PAYLOAD { return TOO_LARGE; }
      if decoded.None? { return INVALID; }
      var request := NormalRequest(env, decoded.value);
      if !Acceptable(request) { return INVALID; }
      if !ResponseFits(env, request) { return TOO_LARGE; }
      assert |open| == |table| by { assert |open.Keys| == |table.Keys|; }
      if |open| >= MAX_OPEN_STREAMS { return TOO_LARGE; }
      if !mkdir { return INTERNAL; }
      if temp.None? { return INTERNAL; }
      code := AddStream(request, temp.value);
    }

    method AddStream(request: OpenRequest, id: nat) returns (code: int)
      requires Valid() && Staging(id) !in disk
      modifies this
      ensures Valid() && fresh(Objects - old(Objects))
      ensures Model() == Add(old(Model()), request, id) && code == Signed(NextHandle(old(next)))
    {
      var stream := new LocalStream(request, id, NextHandle(next));
      Insert(stream);
      return Signed(next);
    }

    /** Enters a stream under the next handle, and its staging file on disk. */
    method Insert(stream: LocalStream)
      requires Valid() && Staging(stream.file) !in disk && stream.handle == NextHandle(next)
      requires stream.Model() == Stream(stream.request, stream.file, [], 0, 0)
      modifies this
      ensures Valid() && Objects == old(Objects) + {stream}
      ensures Model() == Add(old(Model()), stream.request, stream.file)
    {
      next := NextHandle(next);
      open := open[next := stream];
      Objects := Objects + {stream};
      disk := disk[Staging(stream.file) := []];
      table := table[next := stream.Model()];
      owner := owner[stream.file := next];
      forall a <- open ensures Mirrors(a) {
        if a != next { assert old(Mirrors(a)); }
      }
    }

    method Write(handle: uint32, index: Option<int>, payload: seq<byte>, written: bool) returns (code: int)
      requires Valid()
      modifies this, Objects
      ensures Valid() && Objects == old(Objects)
      ensures var outcome := WriteStep(old(Model()), Op.Write(handle, index, payload, written));
              Model() == outcome.host && code == outcome.code
    {
      if payload == [] { return INVALID; }
      if |payload| > MAX_PAYLOAD { return TOO_LARGE; }
      if index.None? { return INVALID; }
      if handle !in open { return BAD_HANDLE; }
      var stream := open[handle];
      if index.value > 0 && index.value != stream.nextIndex { return INVALID; }
      if !written { return INTERNAL; }
      Append(handle, stream, payload);
      if stream.request.sizeBytes > 0 && stream.size > stream.request.sizeBytes { return INVALID; }
      return |payload|;
    }

    method Append(handle: uint32, stream: LocalStream, payload: seq<byte>)
      requires Valid() && handle in open && stream == open[handle]
      modifies this`disk, this`table, stream
      ensures Valid() && Model() == Extend(old(Model()), handle, payload) && stream.request == old(stream.request)
          && stream.size == old(stream.size) + |payload|
    {
      disk := disk[Staging(stream.file) := disk[Staging(stream.file)] + payload];
      stream.Absorb(payload);
      table := table[handle := stream.Model()];
      forall a <- open ensures Mirrors(a) {
        assert old(Mirrors(a));
      }
    }

    /** Takes a stream out of the table. */
    method Remove(handle: uint32) returns (stream: LocalStream)
      requires Valid() && handle in open
      modifies this`open, this`table
      ensures Valid() && stream.Model() == old(table[handle])
      ensures open == old(open) - {handle} && table == old(table) - {handle}
      ensures forall a <- table :: table[a].file != stream.file
    {
      stream := open[handle];
      open := open - {handle};
      table := table - {handle};
    }

    method Discard(stream: LocalStream)
      requires Valid() && forall a <- table :: table[a].file != stream.file
      modifies this`disk
      ensures Valid() && disk == old(disk) - {Staging(stream.file)}
    {
      disk := disk - {Staging(stream.file)};
    }

    /** The staging file becomes the object, and the record is kept. */
    method Rename(stream: LocalStream, answer: Artifact)
      requires Valid() && Staging(stream.file) in disk && forall a <- table :: table[a].file != stream.file
      modifies this`disk, this`committed
      ensures Valid() && committed == old(committed) + [answer]
      ensures disk == (old(disk) - {Staging(stream.file)})[Object(answer.objectKey) := old(disk)[Staging(stream.file)]]
    {
      ghost var body := disk[Staging(stream.file)];
      Discard(stream);
      disk := disk[Object(answer.objectKey) := body];
      committed := committed + [answer];
      forall a <- open ensures Mirrors(a) {
        assert old(Mirrors(a));
      }
    }

    method DropStream(handle: uint32)
      requires Valid() && handle in open
      modifies this`open, this`table, this`disk
      ensures Valid() && Model() == Drop(old(Model()), handle) && open == old(open) - {handle}
    {
      var stream := Remove(handle);
      Discard(stream);
    }

    /** `buffer` is the length of the response buffer; the response is what was copied to it. */
    method Commit(handle: uint32, decoded: Option<CommitRequest>, buffer: nat, closed: bool, mkdir: bool, chmod: bool,
        renamed: bool)
        returns (code: int, response: Option<Artifact>)
      requires Valid()
      modifies this
      ensures Valid() && Objects == old(Objects)
      ensures var outcome := CommitStep(env, old(Model()),
          Op.Commit(handle, decoded, buffer, closed, mkdir, chmod, renamed));
              && Model() == outcome.host && code == outcome.code
              && (response.Some? <==> code >= 0)
              && (response.Some? ==> Model().committed == old(Model()).committed + [response.value])
    {
      response := None;
      if decoded.None? { return INVALID, None; }
      if handle !in open { return BAD_HANDLE, None; }
      ghost var before := Model();
      var stream := Remove(handle);
      var digest := env.digest(stream.hashed);
      if !Verified(env, stream.request, decoded.value, digest, stream.size) {
        Discard(stream);
        return INVALID, None;
      }
      if !closed {
        Discard(stream);
        return INTERNAL, None;
      }
      var answer := Response(stream.request, digest, stream.size);
      if ResponseLength(env, answer) > buffer {
        Discard(stream);
        return TOO_LARGE, None;
      }
      if !mkdir || !chmod || !renamed {
        Discard(stream);
        return INTERNAL, None;
      }
      Rename(stream, answer);
      assert Model() == Publish(before, handle, answer);
      return ResponseLength(env, answer), Some(answer);
    }

    method Abort(handle: uint32) returns (code: int)
      requires Valid()
      modifies this
      ensures Valid() && Objects == old(Objects)
      ensures var outcome := AbortStep(old(Model()), Op.Abort(handle));
              Model() == outcome.host && code == outcome.code
    {
      if handle !in open { return BAD_HANDLE; }
      DropStream(handle);
      return OK;
    }

    /** The cleanup at the end of a run, over the open streams in any order. */
    method AbortOpenArtifacts()
      requires Valid()
      modifies this
      ensures Valid() && Objects == old(Objects) && Model() == Cleanup(old(Model()))
    {
      while open != map[]
        invariant Valid() && Objects == old(Objects) && Cleanup(Model()) == Cleanup(old(Model()))
        decreases open.Keys
      {
        var handle :| handle in open;
        CleanupAfterDrop(Model(), handle);
        DropStream(handle);
      }
    }
  }

  datatype ClientError = Cancelled | NotInitialized | HostCode(code: int)

  /** The client's stub of a stream: no more than the handle the host gave it. A failed commit leaves
      the handle, although the host has closed it. */
  class ArtifactStream {
    var handle: uint32

    constructor (handle: uint32)
      ensures this.handle == handle
    {
      this.handle := handle;
    }

    /** `live` says that the context has not ended. */
    method WriteChunk(host: LocalArtifacts, live: bool, index: int, payload: seq<byte>, written: bool)
        returns (r: Result<nat, ClientError>)
      requires host.Valid()
      modifies host, host.Objects
      ensures host.Valid() && host.Objects == old(host.Objects)
      ensures !live || handle == 0 ==>
          host.Model() == old(host.Model()) && r == Err(if live then NotInitialized else Cancelled)
      ensures live && handle != 0 ==>
                var outcome := WriteStep(old(host.Model()), Op.Write(handle, Some(index), payload, written));
                host.Model() == outcome.host
                    && r == (if outcome.code < 0 then Err(HostCode(outcome.code)) else Ok(outcome.code))
      ensures handle !in old(host.table) ==> r.Err? && host.Model() == old(host.Model())
    {
      if !live { return Err(Cancelled); }
      if handle == 0 { return Err(NotInitialized); }
      var code := host.Write(handle, Some(index), payload, written);
      if code < 0 { return Err(HostCode(code)); }
      return Ok(code);
    }

    method Commit(host: LocalArtifacts, live: bool, request: CommitRequest, closed: bool, mkdir: bool, chmod: bool,
        renamed: bool)
        returns (r: Result<Artifact, ClientError>)
      requires host.Valid() && (this as object) != host && (this as object) !in host.Objects
      modifies this, host
      ensures host.Valid() && host.Objects == old(host.Objects)
      ensures handle == if r.Ok? then 0 else old(handle)
      ensures !live || old(handle) == 0 ==>
          host.Model() == old(host.Model()) && r == Err(if live then NotInitialized else Cancelled)
      ensures live && old(handle) != 0 ==>
                var outcome := CommitStep(host.env, old(host.Model()),
                    Op.Commit(old(handle), Some(request), MAX_COMMIT_RESPONSE, closed, mkdir, chmod, renamed));
                && host.Model() == outcome.host && old(handle) !in host.table
                && (r.Ok? <==> outcome.code >= 0) && (r.Ok? ==> host.committed == old(host.committed) + [r.value])
      ensures old(handle) !in old(host.table) ==> r.Err? && host.Model() == old(host.Model())
    {
      if !live { return Err(Cancelled); }
      if handle == 0 { return Err(NotInitialized); }
      var code, response := host.Commit(handle, Some(request), MAX_COMMIT_RESPONSE, closed, mkdir, chmod, renamed);
      if code < 0 { return Err(HostCode(code)); }
      handle := 0;
      return Ok(response.value);
    }

    method Abort(host: LocalArtifacts) returns (error: Option<ClientError>)
      requires host.Valid() && (this as object) != host && (this as object) !in host.Objects
      modifies this, host
      ensures host.Valid() && host.Objects == old(host.Objects)
      ensures handle == if error == None then 0 else old(handle)
      ensures error == None <==> old(handle) != 0 && old(handle) in old(host.table)
      ensures host.Model() == if error == None then Drop(old(host.Model()), old(handle)) else old(host.Model())
    {
      if handle == 0 { return Some(NotInitialized); }
      var code := host.Abort(handle);
      if code >= 0 { handle := 0; }
      return if code >= 0 then None else Some(HostCode(code));
    }
  }

  /** One call through a stub, with what its context and the operating system answer. */
  datatype StubCall =
    | WriteCall(live: bool, index: int, payload: seq<byte>, written: bool)
    | CommitCall(live: bool, request: CommitRequest, closed: bool, mkdir: bool, chmod: bool, renamed: bool)
    | AbortCall

  /** Makes the call and returns its error, if any. */
  method Call(host: LocalArtifacts, stream: ArtifactStream, call: StubCall) returns (error: Option<ClientError>)
    requires host.Valid() && (stream as object) != host && (stream as object) !in host.Objects
    modifies stream, host, host.Objects
    ensures host.Valid() && host.Objects == old(host.Objects)
    ensures old(stream.handle) == 0 || old(stream.handle) !in old(host.table) ==>
      error != None && stream.handle == old(stream.handle) && host.Model() == old(host.Model())
  {
    match call {
      case WriteCall(live, index, payload, written) =>
        var r := stream.WriteChunk(host, live, index, payload, written);
        return if r.Ok? then None else Some(r.error);
      case CommitCall(live, request, closed, mkdir, chmod, renamed) =>
        var r := stream.Commit(host, live, request, closed, mkdir, chmod, renamed);
        return if r.Ok? then None else Some(r.error);
      case AbortCall =>
        error := stream.Abort(host);
    }
  }

  /** After a commit that reached the host, whatever the operating system answered it and whether or not it
      succeeded, every later call through the same stub fails and leaves the host as the commit left it. */
  method UseAfterCommit(
      host: LocalArtifacts, stream: ArtifactStream, request: CommitRequest,
      closed: bool, mkdir: bool, chmod: bool, renamed: bool, later: seq<StubCall>)
      returns (r: Result<Artifact, ClientError>, errors: seq<Option<ClientError>>)
    requires host.Valid() && (stream as object) != host && (stream as object) !in host.Objects
    modifies stream, host, host.Objects
    ensures host.Valid() && |errors| == |later| && forall i | 0 <= i < |later| :: errors[i] != None
    ensures old(stream.handle) == 0 ==> r.Err? && host.Model() == old(host.Model())
    ensures old(stream.handle) != 0 ==>
      var op := Op.Commit(old(stream.handle), Some(request), MAX_COMMIT_RESPONSE, closed, mkdir, chmod, renamed);
      var outcome := CommitStep(host.env, old(host.Model()), op);
      host.Model() == outcome.host && (r.Ok? <==> outcome.code >= 0)
  {
    r := stream.Commit(host, true, request, closed, mkdir, chmod, renamed);
    errors := CallAll(host, stream, later);
  }

  /** Through a stub whose handle is cleared or no longer open, every call of any sequence fails and leaves
      the host as it is. */
  method CallAll(host: LocalArtifacts, stream: ArtifactStream, calls: seq<StubCall>)
      returns (errors: seq<Option<ClientError>>)
    requires host.Valid() && (stream as object) != host && (stream as object) !in host.Objects
    requires stream.handle == 0 || stream.handle !in host.table
    modifies stream, host, host.Objects
    ensures host.Valid() && host.Model() == old(host.Model())
    ensures |errors| == |calls| && forall i | 0 <= i < |calls| :: errors[i] != None
  {
    ghost var start, objects := host.Model(), host.Objects;
    errors := [];
    for i := 0 to |calls|
      invariant host.Valid() && host.Objects == objects && host.Model() == start
      invariant stream.handle == 0 || stream.handle !in host.table
      invariant |errors| == i && forall j | 0 <= j < i :: errors[j] != None
    {
      var error := Call(host, stream, calls[i]);
      errors := errors + [error];
    }
  }

  lemma CleanupAfterDrop(h: Host, handle: uint32)
    requires handle in h.open
    ensures Cleanup(Drop(h, handle)) == Cleanup(h)
  {
    var left := Drop(h, handle).open;
    assert forall a <- left :: left[a] == h.open[a];
    assert StagingFiles(h.open) == StagingFiles(left) + {Staging(h.open[handle].file)} by {
      assert forall a <- h.open :: a == handle || a in left;
    }
    assert h.disk - {Staging(h.open[handle].file)} - StagingFiles(left) == h.disk - StagingFiles(h.open);
  }
}
