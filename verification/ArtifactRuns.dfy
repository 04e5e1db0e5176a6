/** What holds over every run of the staging host: handles, staging files, and the integrity of what
    was committed. */
module ArtifactRuns {
  import opened Bytes
  import opened Results
  import opened Artifacts

  // ----- the handle table and the staging directory agree

  ghost predicate HandlesIssued(h: Host) {
    h.next < HANDLE_LIMIT && |h.open| <= MAX_OPEN_STREAMS && forall a <- h.open :: 0 < a <= h.next
  }

  ghost predicate FilesDistinct(open: map<uint32, Stream>) {
    forall a <- open, b <- open :: a != b ==> open[a].file != open[b].file
  }

  function StagingOnDisk(disk: map<Path, seq<byte>>): set<Path> {
    set p <- disk | p.Staging?
  }

  ghost predicate FilesStaged(h: Host) {
    StagingOnDisk(h.disk) == StagingFiles(h.open)
  }

  ghost predicate FilesHold(h: Host) {
    forall a <- h.open ::
      var s := h.open[a];
      Staging(s.file) in h.disk && h.disk[Staging(s.file)] == s.hashed && s.size == |s.hashed| && s.nextIndex >= 0
  }

  ghost predicate Consistent(h: Host) {
    HandlesIssued(h) && FilesDistinct(h.open) && FilesStaged(h) && FilesHold(h)
  }

  lemma AddStagesFile(h: Host, request: OpenRequest, id: nat)
    requires FilesStaged(h) && NextHandle(h.next) !in h.open
    ensures FilesStaged(Add(h, request, id))
  {
    var now, handle := Add(h, request, id), NextHandle(h.next);
    assert now.open[handle].file == id;
    assert forall a <- h.open :: now.open[a] == h.open[a];
    assert StagingOnDisk(now.disk) == StagingOnDisk(h.disk) + {Staging(id)};
    assert StagingFiles(now.open) == StagingFiles(h.open) + {Staging(id)};
  }

  lemma AddKeepsConsistent(h: Host, request: OpenRequest, id: nat)
    requires Consistent(h) && h.next + 1 < HANDLE_LIMIT && |h.open| < MAX_OPEN_STREAMS && Staging(id) !in h.disk
    ensures Consistent(Add(h, request, id))
  {
    AddStagesFile(h, request, id);
    assert |Add(h, request, id).open| == |h.open| + 1;
  }

  lemma ExtendKeepsConsistent(h: Host, handle: uint32, payload: seq<byte>)
    requires Consistent(h) && handle in h.open
    ensures Consistent(Extend(h, handle, payload))
  {
    var now := Extend(h, handle, payload);
    assert now.open.Keys == h.open.Keys;
    assert forall a <- h.open :: now.open[a].file == h.open[a].file;
    assert StagingOnDisk(now.disk) == StagingOnDisk(h.disk);
    assert StagingFiles(now.open) == StagingFiles(h.open);
  }

  lemma DropKeepsConsistent(h: Host, handle: uint32)
    requires Consistent(h) && handle in h.open
    ensures Consistent(Drop(h, handle))
  {
    var now := Drop(h, handle);
    var gone := Staging(h.open[handle].file);
    assert now.open.Keys == h.open.Keys - {handle};
    assert StagingOnDisk(now.disk) == StagingOnDisk(h.disk) - {gone};
    assert StagingFiles(now.open) == StagingFiles(h.open) - {gone} by {
      forall p | p in StagingFiles(h.open) - {gone} ensures p in StagingFiles(now.open) {
        var a :| a in h.open && Staging(h.open[a].file) == p;
        assert a in now.open && now.open[a] == h.open[a];
      }
      assert forall a <- now.open :: now.open[a] == h.open[a];
    }
  }

  lemma PublishKeepsConsistent(h: Host, handle: uint32, artifact: Artifact)
    requires Consistent(h) && handle in h.open
    ensures Consistent(Publish(h, handle, artifact))
  {
    DropKeepsConsistent(h, handle);
    var dropped, now := Drop(h, handle), Publish(h, handle, artifact);
    assert StagingOnDisk(now.disk) == StagingOnDisk(dropped.disk);
  }

  /** Every call either leaves the host as it is, without effects, or changes it in the one way its
      effect names. */
  ghost predicate Explained(h: Host, op: Op, now: Host, effects: seq<Effect>) {
    if effects == [] then now == h
    else
      && |effects| == 1
      && match effects[0]
         case Staged(handle, request) =>
           && op.Open? && op.temp.Some? && Staging(op.temp.value) !in h.disk && |h.open| < MAX_OPEN_STREAMS
           && handle == NextHandle(h.next) && now == Add(h, request, op.temp.value)
         case Reached(handle, payload) =>
           handle in h.open && Staging(h.open[handle].file) in h.disk && now == Extend(h, handle, payload)
         case Published(handle, _, artifact) =>
           handle in h.open && Staging(h.open[handle].file) in h.disk && now == Publish(h, handle, artifact)
         case Discarded(handle) => handle in h.open && now == Drop(h, handle)
  }

  lemma OpenExplained(env: Env, uploader: bool, h: Host, op: Op)
    requires op.Open?
    ensures Explained(h, op, OpenStep(env, uploader, h, op).host, OpenStep(env, uploader, h, op).effects)
  {
  }

  lemma CommitExplained(env: Env, h: Host, op: Op)
    requires op.Commit?
    ensures Explained(h, op, CommitStep(env, h, op).host, CommitStep(env, h, op).effects)
  {
  }

  lemma StepExplained(env: Env, uploader: bool, h: Host, op: Op)
    ensures Explained(h, op, Step(env, uploader, h, op).host, Step(env, uploader, h, op).effects)
  {
    match op
    case Open(_, _, _, _) => OpenExplained(env, uploader, h, op);
    case Commit(_, _, _, _, _, _, _) => CommitExplained(env, h, op);
    case _ =>
  }

  lemma ExplainedKeepsConsistent(h: Host, op: Op, now: Host, effects: seq<Effect>)
    requires Explained(h, op, now, effects)
    requires Consistent(h) && (op.Open? ==> h.next + 1 < HANDLE_LIMIT)
    ensures Consistent(now)
  {
    if effects != [] {
      match effects[0]
      case Staged(_, request) => AddKeepsConsistent(h, request, op.temp.value);
      case Reached(handle, payload) => ExtendKeepsConsistent(h, handle, payload);
      case Published(handle, _, artifact) => PublishKeepsConsistent(h, handle, artifact);
      case Discarded(handle) => DropKeepsConsistent(h, handle);
    }
  }
}
