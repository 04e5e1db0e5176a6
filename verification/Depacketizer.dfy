/** The depacketizer as an object: fragments are slices of buffers it owns, extended in place when
    their capacity allows, and an access unit is handed out in a buffer of its own. */
module Depacketizer {
  import opened Bytes
  import opened Results
  import opened H264
  import opened H264Runs

  /** A slice of a buffer from its start: `len` bytes used of the buffer's capacity. */
  datatype Slice = Slice(buf: array<byte>, len: nat)

  /** Appending writes into spare capacity when there is enough, and moves to a larger buffer otherwise. */
  method AppendBytes(s: Slice, extra: seq<byte>) returns (r: Slice)
    requires s.len <= s.buf.Length
    modifies s.buf
    ensures r.len == s.len + |extra| <= r.buf.Length
    ensures if s.len + |extra| <= s.buf.Length then r.buf == s.buf else fresh(r.buf)
    ensures r.buf[..r.len] == old(s.buf[..s.len]) + extra
  {
    var needed := s.len + |extra|;
    var target := s.buf;
    if needed > s.buf.Length {
      var capacity: nat :| needed <= capacity;
      target := new byte[capacity](_ => 0);
      forall k | 0 <= k < s.len { target[k] := s.buf[k]; }
    }
    assert target[..s.len] == old(s.buf[..s.len]);
    forall k | 0 <= k < |extra| { target[s.len + k] := extra[k]; }
    r := Slice(target, needed);
    assert target[..s.len] == old(s.buf[..s.len]);
  }

  method AnnexBUnit(nal: seq<byte>) returns (unit: Slice)
    ensures fresh(unit.buf) && unit.len == unit.buf.Length
    ensures unit.buf[..] == START_CODE + nal
  {
    var buf := new byte[4 + |nal|](_ => 0);
    forall k | 0 <= k < 4 { buf[k] := START_CODE[k]; }
    forall k | 0 <= k < |nal| { buf[4 + k] := nal[k]; }
    unit := Slice(buf, 4 + |nal|);
  }

  /** Slice by slice, the bytes in use are the given ones. */
  ghost predicate Reads(parts: seq<Slice>, contents: seq<seq<byte>>)
    reads set i | 0 <= i < |parts| :: parts[i].buf
  {
    && |parts| == |contents|
    && forall i | 0 <= i < |parts| :: parts[i].len <= parts[i].buf.Length && parts[i].buf[..parts[i].len] == contents[i]
  }

  method TotalLength(parts: seq<Slice>, ghost contents: seq<seq<byte>>) returns (size: nat)
    requires Reads(parts, contents)
    ensures size == |Flatten(contents)|
  {
    size := 0;
    for i := 0 to |parts|
      invariant size == |Flatten(contents[..i])|
    {
      FlattenPrefix(contents, i);
      size := size + parts[i].len;
    }
    assert contents[..|parts|] == contents;
  }

  method CopyInto(out: array<byte>, at: nat, part: Slice)
    requires part.len <= part.buf.Length && at + part.len <= out.Length && part.buf != out
    modifies out
    ensures out[..at + part.len] == old(out[..at]) + part.buf[..part.len]
  {
    forall k | 0 <= k < part.len { out[at + k] := part.buf[k]; }
    assert out[..at] == old(out[..at]);
  }

  /** One buffer of the exact size, filled part by part. */
  method JoinFragments(parts: seq<Slice>, ghost contents: seq<seq<byte>>) returns (out: array<byte>)
    requires Reads(parts, contents)
    ensures fresh(out) && out[..] == Flatten(contents)
  {
    var size := TotalLength(parts, contents);
    out := new byte[size](_ => 0);
    var filled := 0;
    for i := 0 to |parts|
      invariant filled == |Flatten(contents[..i])| <= size
      invariant out[..filled] == Flatten(contents[..i])
    {
      FlattenPrefix(contents, i);
      FlattenPrefixFits(contents, i + 1);
      CopyInto(out, filled, parts[i]);
      filled := filled + parts[i].len;
    }
    assert contents[..|parts|] == contents;
    assert out[..size] == out[..];
  }

  class Depacketizer {
    var timestamp: uint32
    var assembling: bool
    var fragments: seq<Slice>
    var keyframe: bool
    ghost var Held: seq<seq<byte>>
    ghost var Repr: set<object>

    /** The fragments' buffers belong to the object, the last fragment shares its buffer with no
        other, and `Held` is what the fragments read. */
    ghost predicate Owns()
      reads this, Repr
    {
      && this in Repr
      && (forall i | 0 <= i < |fragments| :: fragments[i].buf in Repr)
      && (forall i | 0 <= i < |fragments| - 1 :: fragments[i].buf != fragments[|fragments| - 1].buf)
      && Reads(fragments, Held)
    }

    ghost function Model(): Assembly
      reads this
    {
      Assembly(assembling, timestamp, Held, keyframe)
    }

    ghost predicate Valid()
      reads this, Repr
    {
      Owns() && WellFormed(Model())
    }

    constructor ()
      ensures Valid() && fresh(Repr)
      ensures Model() == Assembly(false, 0, [], false)
    {
      timestamp, assembling, fragments, keyframe := 0, false, [], false;
      Held := [];
      Repr := {this};
    }

    method AddUnit(nal: seq<byte>, idr: bool)
      requires Owns()
      modifies this
      ensures Owns() && fresh(Repr - old(Repr)) && old(Repr) <= Repr
      ensures Model() == old(Model()).(fragments := old(Held) + [START_CODE + nal], keyframe := old(keyframe) || idr)
    {
      var unit := AnnexBUnit(nal);
      assert unit.buf[..unit.len] == unit.buf[..];
      fragments := fragments + [unit];
      keyframe := keyframe || idr;
      Held := Held + [START_CODE + nal];
      Repr := Repr + {unit.buf};
    }

    method ExtendLast(tail: seq<byte>, idr: bool)
      requires Owns() && fragments != []
      modifies this, fragments[|fragments| - 1].buf
      ensures Owns() && fresh(Repr - old(Repr)) && old(Repr) <= Repr
      ensures Model() == Take(old(Model()), Continues(tail, idr)).0
    {
      var n := |fragments| - 1;
      var last := AppendBytes(fragments[n], tail);
      ReplaceLast(last, Held[n] + tail, idr);
    }

    /** Puts a slice in the place of the last fragment, whose contents may have changed. */
    method ReplaceLast(last: Slice, ghost contents: seq<byte>, idr: bool)
      requires this in Repr && fragments != [] && |Held| == |fragments|
      requires forall i | 0 <= i < |fragments| - 1 :: fragments[i].buf in Repr && fragments[i].buf != last.buf
      requires Reads(fragments[..|fragments| - 1], Held[..|fragments| - 1])
      requires last.len <= last.buf.Length && last.buf[..last.len] == contents
      modifies this
      ensures Owns() && Repr == old(Repr) + {last.buf}
      ensures Model() == old(Model()).(fragments := old(Held)[..|old(Held)| - 1] + [contents],
          keyframe := old(keyframe) || idr)
    {
      var n := |fragments| - 1;
      fragments := fragments[..n] + [last];
      keyframe := keyframe || idr;
      Held := Held[..n] + [contents];
      Repr := Repr + {last.buf};
    }

    /** Starts over when nothing is being assembled or the timestamp is another one. */
    method Begin(timestamp: uint32)
      requires Owns()
      modifies this
      ensures Owns() && Repr == old(Repr)
      ensures Model() == Begun(old(Model()), timestamp)
    {
      if !assembling || this.timestamp != timestamp {
        fragments := [];
        keyframe := false;
        this.timestamp := timestamp;
        assembling := true;
        Held := [];
      }
    }

    /** Joins what is held into a new buffer and lets go of it. */
    method Finish() returns (unit: array<byte>, key: bool)
      requires Owns()
      modifies this
      ensures Owns() && Repr == old(Repr)
      ensures Model() == Assembly(false, old(timestamp), [], false)
      ensures fresh(unit) && unit !in Repr && unit[..] == Flatten(old(Held)) && key == old(keyframe)
    {
      unit := JoinFragments(fragments, Held);
      key := keyframe;
      fragments := [];
      keyframe := false;
      assembling := false;
      Held := [];
    }

    /** The case of a payload that is one NAL unit. */
    method PushSingle(payload: array<byte>)
      requires Owns() && payload !in Repr && payload.Length > 0 && 1 <= payload[0] % 32 <= 23
      modifies this
      ensures Owns() && fresh(Repr - old(Repr)) && old(Repr) <= Repr
      ensures (Model(), None) == Take(old(Model()), Interpret(payload[..]))
    {
      BeginsOne(Model(), payload[..], None);
      AddUnit(payload[..], payload[0] % 32 == 5);
    }

    /** The case of a fragmentation unit, with the end bit of its header. */
    method PushFragment(payload: array<byte>) returns (end: bool, error: Option<Error>)
      requires Owns() && payload !in Repr && payload.Length > 0 && payload[0] % 32 == FU_A
      modifies Repr
      ensures Owns() && fresh(Repr - old(Repr)) && old(Repr) <= Repr
      ensures (Model(), error) == Take(old(Model()), Interpret(payload[..]))
    {
      ghost var bytes := payload[..];
      if payload.Length < 2 {
        BeginsNone(Model(), Some(TooShort));
        return false, Some(TooShort);
      }
      var indicator, header := payload[0], payload[1];
      var start := header >= 128;
      end := header / 64 % 2 == 1;
      var reconstructed := [indicator - indicator % 32 + header % 32] + payload[2..];
      assert reconstructed[1..] == bytes[2..] == payload[2..];
      if start {
        BeginsOne(Model(), reconstructed, None);
        AddUnit(reconstructed, header % 32 == 5);
      } else if |fragments| > 0 {
        ExtendLast(reconstructed[1..], header % 32 == 5);
      } else {
        return end, Some(TooShort);
      }
      error := None;
    }

    /** The loop over an aggregation packet. The source's own test for an empty unit is left out:
        a size of zero has already failed. */
    method PushAggregate(payload: array<byte>) returns (error: Option<Error>)
      requires Owns() && payload !in Repr && payload.Length > 0 && payload[0] % 32 == STAP_A
      modifies this
      ensures Owns() && fresh(Repr - old(Repr)) && old(Repr) <= Repr
      ensures (Model(), error) == Take(old(Model()), Interpret(payload[..]))
    {
      ghost var was, bytes := Model(), payload[..];
      ghost var rest := Aggregated(bytes[1..]);
      var offset := 1;
      while offset + 2 <= payload.Length
        invariant 1 <= offset <= payload.Length
        invariant Owns() && fresh(Repr - old(Repr)) && old(Repr) <= Repr
        invariant payload[..] == bytes && rest == Aggregated(bytes[offset..])
        invariant Take(was, Aggregated(bytes[1..])) == Take(Model(), rest)
      {
        ghost var at, before := offset, Model();
        var size := BigEndian16(payload[offset], payload[offset + 1]);
        offset := offset + 2;
        if size == 0 || offset + size > payload.Length {
          BeginsNone(before, Some(TooShort));
          return Some(TooShort);
        }
        var nal := payload[offset..offset + size];
        offset := offset + size;
        AddUnit(nal, nal[0] % 32 == 5);
        assert nal == bytes[at + 2..offset];
        AggregatedNext(bytes, at, nal, offset);
        ghost var next := Aggregated(bytes[offset..]);
        BeginsNext(before, nal, next.nals, next.error);
        rest := next;
      }
      BeginsNone(Model(), None);
      return None;
    }

    /** Feeds one payload. The unit handed out, when there is one, is in a new buffer the
        depacketizer does not keep, and the payload's buffer is not kept either. */
    method Push(payload: array<byte>, marker: bool, timestamp: uint32)
        returns (unit: array?<byte>, key: bool, complete: bool, error: Option<Error>)
      requires Valid() && payload !in Repr
      modifies Repr
      ensures Valid() && fresh(Repr - old(Repr)) && old(Repr) <= Repr
      ensures Model() == Step(old(Model()), Read(payload[..], marker, timestamp)).0
      ensures match Step(old(Model()), Read(payload[..], marker, timestamp)).1
              case Failed(e) => unit == null && !key && !complete && error == Some(e)
              case Pending => unit == null && !key && !complete && error == None
              case Emitted(bytes, k) =>
                && unit != null && fresh(unit) && unit !in Repr
                && unit[..] == bytes && key == k && complete && error == None
    {
      unit, key, complete, error := null, false, false, None;
      if payload.Length == 0 {
        error := Some(TooShort);
        return;
      }
      StepKeepsWellFormed(Model(), Read(payload[..], marker, timestamp));
      Begin(timestamp);

      var nalType := payload[0] % 32;
      if 1 <= nalType <= 23 {
        PushSingle(payload);
      } else if nalType == 24 {
        error := PushAggregate(payload);
        if error.Some? { return; }
      } else if nalType == 28 {
        var end;
        end, error := PushFragment(payload);
        if error.Some? { return; }
        if !end && !marker { return; }
      } else {
        BeginsNone(Model(), Some(Unsupported));
        error := Some(Unsupported);
        return;
      }

      if !marker { return; }
      complete := true;
      unit, key := Finish();
    }
  }

  lemma BeginsNone(s: Assembly, error: Option<Error>)
    ensures Take(s, Begins([], error)) == (s, error)
  {
    assert s.fragments + Units([]) == s.fragments;
  }

  lemma BeginsOne(s: Assembly, nal: Nal, error: Option<Error>)
    requires nal != []
    ensures Take(s, Begins([nal], error))
         == (s.(fragments := s.fragments + [START_CODE + nal], keyframe := s.keyframe || nal[0] % 32 == IDR), error)
  {
    assert Units([nal]) == [START_CODE + nal];
    assert nal in [nal];
  }

  lemma BeginsNext(s: Assembly, nal: Nal, nals: seq<Nal>, error: Option<Error>)
    requires nal != []
    ensures Take(s, Begins([nal] + nals, error))
         == Take(s.(fragments := s.fragments + [START_CODE + nal], keyframe := s.keyframe || nal[0] % 32 == IDR),
             Begins(nals, error))
  {
    assert s.fragments + Units([nal] + nals) == s.fragments + [START_CODE + nal] + Units(nals);
    assert AnyIdr([nal] + nals) == (nal[0] % 32 == IDR || AnyIdr(nals)) by {
      assert nal in [nal] + nals;
      assert forall n <- nals :: n in [nal] + nals;
    }
  }

  lemma AggregatedNext(payload: seq<byte>, at: int, nal: seq<byte>, to: int)
    requires nal != [] && 0 <= at < at + 2 < to <= |payload| && nal == payload[at + 2..to]
    requires BigEndian16(payload[at], payload[at + 1]) == |nal|
    ensures var next := Aggregated(payload[to..]);
            Aggregated(payload[at..]) == Begins([nal] + next.nals, next.error)
  {
    var here := payload[at..];
    assert here[2..2 + |nal|] == nal && here[2 + |nal|..] == payload[to..];
  }

  /** A whole run: the state is the one the history gives, and a unit handed out before the run is
      as it was after it. */
  method PushAll(d: Depacketizer, payloads: seq<array<byte>>, markers: seq<bool>, timestamps: seq<uint32>,
                 ghost h: seq<Arrival>, unit: array<byte>)
    requires d.Valid() && unit !in d.Repr && |payloads| == |markers| == |timestamps| == |h|
    requires forall i | 0 <= i < |h| ::
        payloads[i] !in d.Repr && h[i] == Read(payloads[i][..], markers[i], timestamps[i])
    modifies d.Repr
    ensures d.Valid() && d.Model() == Run(old(d.Model()), h).state
    ensures unit !in d.Repr && unit[..] == old(unit[..])
  {
    ghost var start := d.Model();
    for i := 0 to |payloads|
      invariant d.Valid() && fresh(d.Repr - old(d.Repr))
      invariant d.Model() == Run(start, h[..i]).state
      invariant unit[..] == old(unit[..])
      invariant forall k | 0 <= k < |h| :: h[k] == Read(payloads[k][..], markers[k], timestamps[k])
    {
      assert h[..i + 1][..i] == h[..i];
      var u, key, complete, error := d.Push(payloads[i], markers[i], timestamps[i]);
    }
    assert h[..|h|] == h;
  }
}
