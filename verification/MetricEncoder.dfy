/** The encoder itself: buffers grown field by field, proved to hold the messages' encodings. */
module MetricEncoder {
  import opened Bytes
  import opened Results
  import opened Wire
  import opened Metrics
  import opened MetricBatches

  /** The bytes one slot adds to a message, and a message slot by slot. */
  function SlotBytes(slot: Slot): seq<byte>
    decreases if slot.ChunkSlot? then |slot.chunks| else 0
  {
    match slot
    case NumberSlot(num, n) => if n == 0 then [] else Field(num, Number(n)).Encode()
    case DoubleSlot(num, bits) => if IsZeroDouble(bits) then [] else Field(num, Fixed(bits)).Encode()
    case ChunkSlot(num, chunks) =>
      if chunks == [] then []
      else SlotBytes(ChunkSlot(num, chunks[..|chunks| - 1])) + ChunkBytes(num, chunks[|chunks| - 1])
  }

  function ChunkBytes(num: nat, chunk: seq<byte>): seq<byte> {
    if chunk == [] then [] else Field(num, Chunk(chunk)).Encode()
  }

  function MessageBytes(slots: seq<Slot>): seq<byte> {
    if slots == [] then [] else MessageBytes(slots[..|slots| - 1]) + SlotBytes(slots[|slots| - 1])
  }

  lemma OneField(num: nat, value: Value)
    ensures EncodeFields(Numbered(num, [value])) == Field(num, value).Encode()
  {
    var fields := Numbered(num, [value]);
    assert fields == [Field(num, value)];
    assert fields[1..] == [];
    assert EncodeFields(fields) == fields[0].Encode() + EncodeFields([]);
  }

  lemma NumberedChunksAppend(num: nat, a: seq<seq<byte>>, b: seq<seq<byte>>)
    ensures Numbered(num, ChunkValues(a + b)) == Numbered(num, ChunkValues(a)) + Numbered(num, ChunkValues(b))
  {
    var whole, left, right := Numbered(num, ChunkValues(a + b)), Numbered(num, ChunkValues(a)),
        Numbered(num, ChunkValues(b));
    assert |whole| == |left + right| == |a| + |b|;
    forall i | 0 <= i < |whole| ensures whole[i] == (left + right)[i] {
      assert whole[i] == Field(num, Chunk((a + b)[i]));
    }
  }

  lemma ChunkFieldsAppend(num: nat, a: seq<seq<byte>>, b: seq<seq<byte>>)
    ensures EncodeFields(Numbered(num, ChunkValues(a + b)))
        == EncodeFields(Numbered(num, ChunkValues(a))) + EncodeFields(Numbered(num, ChunkValues(b)))
  {
    NumberedChunksAppend(num, a, b);
    EncodeFieldsAppend(Numbered(num, ChunkValues(a)), Numbered(num, ChunkValues(b)));
  }

  lemma {:induction false} ChunksEncode(num: nat, chunks: seq<seq<byte>>)
    ensures SlotBytes(ChunkSlot(num, chunks)) == EncodeFields(Numbered(num, ChunkValues(NonEmpty(chunks))))
    decreases |chunks|
  {
    if chunks != [] {
      var init, last := chunks[..|chunks| - 1], chunks[|chunks| - 1];
      ChunksEncode(num, init);
      if last == [] {
        assert NonEmpty(chunks) == NonEmpty(init);
      } else {
        ChunkFieldsAppend(num, NonEmpty(init), [last]);
        assert ChunkValues([last]) == [Chunk(last)];
        OneField(num, Chunk(last));
      }
    }
  }

  lemma SlotEncodes(slot: Slot)
    ensures SlotBytes(slot) == EncodeFields(Numbered(slot.num, slot.Values()))
  {
    match slot
    case NumberSlot(num, n) => OneField(num, Number(n));
    case DoubleSlot(num, bits) => OneField(num, Fixed(bits));
    case ChunkSlot(num, chunks) => ChunksEncode(num, chunks);
  }

  lemma {:induction false} MessageEncodes(slots: seq<Slot>)
    ensures MessageBytes(slots) == EncodeMessage(slots)
  {
    if slots != [] {
      var init, last := slots[..|slots| - 1], slots[|slots| - 1];
      MessageEncodes(init);
      SlotEncodes(last);
      EncodeFieldsAppend(MessageFields(init), Numbered(last.num, last.Values()));
    }
  }

  lemma MessageSnoc(slots: seq<Slot>, slot: Slot)
    ensures MessageBytes(slots + [slot]) == MessageBytes(slots) + SlotBytes(slot)
  {
    assert (slots + [slot])[..|slots|] == slots;
  }

  lemma ChunkSnoc(num: nat, chunks: seq<seq<byte>>, chunk: seq<byte>)
    ensures SlotBytes(ChunkSlot(num, chunks + [chunk])) == SlotBytes(ChunkSlot(num, chunks)) + ChunkBytes(num, chunk)
  {
    assert (chunks + [chunk])[..|chunks|] == chunks;
  }

  lemma OneChunk(num: nat, chunk: seq<byte>)
    ensures SlotBytes(ChunkSlot(num, [chunk])) == ChunkBytes(num, chunk)
  {
    ChunkSnoc(num, [], chunk);
    assert [] + [chunk] == [chunk];
  }

  method AppendTag(out: seq<byte>, field: nat, wireType: nat) returns (r: seq<byte>)
    requires field < 1000 && wireType < 8
    ensures r == out + Varint(field * 8 + wireType)
  {
    r := AppendUvarint(out, field * 8 + wireType);
  }

  /** Strings and messages are written the same way: not at all when empty. */
  method AppendMessageField(out: seq<byte>, field: nat, value: seq<byte>) returns (r: seq<byte>)
    requires field < 1000
    ensures r == out + ChunkBytes(field, value)
  {
    if value == [] { return out; }
    r := AppendTag(out, field, 2);
    r := AppendUvarint(r, |value|);
    r := r + value;
    var tag, size := Varint(field * 8 + 2), Varint(|value|);
    ConcatIsAssociative(out, tag, size);
    ConcatIsAssociative(out, tag + size, value);
    ConcatIsAssociative(tag, size, value);
  }

  method AppendStringField(out: seq<byte>, field: nat, value: Text) returns (r: seq<byte>)
    requires field < 1000
    ensures r == out + SlotBytes(TextSlot(field, value))
  {
    OneChunk(field, value);
    if value == [] { return out; }
    r := AppendTag(out, field, 2);
    r := AppendUvarint(r, |value|);
    r := r + value;
    var tag, size := Varint(field * 8 + 2), Varint(|value|);
    ConcatIsAssociative(out, tag, size);
    ConcatIsAssociative(out, tag + size, value);
    ConcatIsAssociative(tag, size, value);
  }

  method AppendUint64Field(out: seq<byte>, field: nat, value: uint64) returns (r: seq<byte>)
    requires field < 1000
    ensures r == out + SlotBytes(NumberSlot(field, value))
  {
    if value == 0 { return out; }
    r := AppendTag(out, field, 0);
    r := AppendUvarint(r, value);
    ConcatIsAssociative(out, Varint(field * 8), Varint(value));
  }

  method AppendUint32Field(out: seq<byte>, field: nat, value: uint32) returns (r: seq<byte>)
    requires field < 1000
    ensures r == out + SlotBytes(NumberSlot(field, value))
  {
    r := AppendUint64Field(out, field, value);
  }

  /** A negative value is converted to 64 bits with its sign, and takes ten bytes. */
  method AppendInt32Field(out: seq<byte>, field: nat, value: int32) returns (r: seq<byte>)
    requires field < 1000
    ensures r == out + SlotBytes(NumberSlot(field, SignExtend(value)))
  {
    r := AppendUint64Field(out, field, SignExtend(value));
  }

  method AppendBoolField(out: seq<byte>, field: nat, value: bool) returns (r: seq<byte>)
    requires field < 1000
    ensures r == out + SlotBytes(NumberSlot(field, Bit(value)))
  {
    if !value { return out; }
    r := AppendTag(out, field, 0);
    r := r + [1];
    assert Varint(1) == [1];
    ConcatIsAssociative(out, Varint(field * 8), [1]);
  }

  method AppendDoubleField(out: seq<byte>, field: nat, bits: uint64) returns (r: seq<byte>)
    requires field < 1000
    ensures r == out + SlotBytes(DoubleSlot(field, bits))
  {
    if IsZeroDouble(bits) { return out; }
    r := AppendTag(out, field, 1);
    r := r + LittleEndian(bits, 8);
    ConcatIsAssociative(out, Varint(field * 8 + 1), LittleEndian(bits, 8));
  }

  /** Every field an appender writes is self-delimiting: in front of anything that follows, it reads
      back as itself. */
  lemma AppendedFieldReadsBack(slot: Slot, value: Value, rest: seq<byte>)
    requires slot.num < 1000 && slot.Values() == [value] && value.Fits()
    ensures ReadField(SlotBytes(slot) + rest) == Some((Field(slot.num, value), rest))
  {
    SlotEncodes(slot);
    OneField(slot.num, value);
    ReadInvertsField(Field(slot.num, value), rest);
  }

  lemma Grown(slots: seq<Slot>, i: nat)
    requires i < |slots|
    ensures MessageBytes(slots[..i + 1]) == MessageBytes(slots[..i]) + SlotBytes(slots[i])
  {
    assert slots[..i + 1] == slots[..i] + [slots[i]];
    MessageSnoc(slots[..i], slots[i]);
  }

  lemma Whole(slots: seq<Slot>, n: nat)
    requires n == |slots|
    ensures MessageBytes(slots[..n]) == EncodeMessage(slots)
  {
    assert slots[..n] == slots;
    MessageEncodes(slots);
  }

  method StringMapEntryProto(entry: Entry) returns (out: seq<byte>)
    ensures out == EncodeEntry(entry)
  {
    ghost var slots := EntrySlots(entry);
    out := AppendStringField([], 1, entry.key);
    Grown(slots, 0);
    out := AppendStringField(out, 2, entry.value);
    Grown(slots, 1);
    Whole(slots, 2);
  }

  lemma EncodeAllSnoc<A>(encode: A -> seq<byte>, items: seq<A>, i: nat)
    requires i < |items|
    ensures EncodeAll(encode, items[..i + 1]) == EncodeAll(encode, items[..i]) + [encode(items[i])]
  {
  }

  method AppendStringMapEntries(out: seq<byte>, field: nat, entries: seq<Entry>) returns (r: seq<byte>)
    requires field < 1000
    ensures r == out + SlotBytes(ChunkSlot(field, EncodeEntries(entries)))
  {
    r := out;
    for i := 0 to |entries|
      invariant r == out + SlotBytes(ChunkSlot(field, EncodeEntries(entries[..i])))
    {
      var chunk := StringMapEntryProto(entries[i]);
      r := AppendMessageField(r, field, chunk);
      ghost var chunks := EncodeEntries(entries[..i]);
      EncodeAllSnoc(EncodeEntry, entries, i);
      ChunkSnoc(field, chunks, chunk);
      ConcatIsAssociative(out, SlotBytes(ChunkSlot(field, chunks)), ChunkBytes(field, chunk));
    }
    assert entries[..|entries|] == entries;
  }

  method MetricPointProto(p: Point) returns (out: seq<byte>)
    ensures out == EncodePoint(p)
  {
    ghost var slots := PointSlots(p, EncodeEntries(p.attributes), EncodeEntries(p.metadata));
    out := AppendPointValue(p, EncodeEntries(p.attributes), EncodeEntries(p.metadata));
    out := AppendStringField(out, 6, p.resetAnchor);
    Grown(slots, 5);
    out := AppendInt32Field(out, 7, p.ifIndex);
    Grown(slots, 6);
    out := AppendStringField(out, 8, p.interfaceUid);
    Grown(slots, 7);
    out := AppendStringField(out, 9, p.seriesIdentityHint);
    Grown(slots, 8);
    out := AppendStringMapEntries(out, 20, p.attributes);
    Grown(slots, 9);
    out := AppendStringMapEntries(out, 21, p.metadata);
    Grown(slots, 10);
    Whole(slots, 11);
  }

  /** The first five fields of a point. */
  method AppendPointValue(p: Point, ghost attributes: seq<seq<byte>>, ghost metadata: seq<seq<byte>>)
      returns (out: seq<byte>)
    ensures out == MessageBytes(PointSlots(p, attributes, metadata)[..5])
  {
    ghost var slots := PointSlots(p, attributes, metadata);
    out := AppendDoubleField([], 1, p.value);
    Grown(slots, 0);
    out := AppendStringField(out, 2, p.rawValue);
    Grown(slots, 1);
    out := AppendInt32Field(out, 3, p.rawValueType);
    Grown(slots, 2);
    out := AppendUint64Field(out, 4, p.observedAt);
    Grown(slots, 3);
    out := AppendUint64Field(out, 5, p.startTime);
    Grown(slots, 4);
  }

  method MetricProto(m: Metric) returns (out: seq<byte>)
    ensures out == EncodeMetric(m)
  {
    ghost var slots := MetricSlots(m, ListsOf(m));
    out := AppendMetricScalars(m, ListsOf(m));
    out := AppendPoints(out, m.points);
    Grown(slots, 8);
    out := AppendStringMapEntries(out, 30, m.tags);
    Grown(slots, 9);
    out := AppendStringMapEntries(out, 31, m.metadata);
    Grown(slots, 10);
    out := AppendStringMapEntries(out, 32, m.thresholds);
    Grown(slots, 11);
    Whole(slots, 12);
  }

  /** The fields of a metric that are not repeated. */
  method AppendMetricScalars(m: Metric, ghost lists: MetricLists) returns (out: seq<byte>)
    ensures out == MessageBytes(MetricSlots(m, lists)[..8])
  {
    ghost var slots := MetricSlots(m, lists);
    out := AppendStringField([], 1, m.name);
    Grown(slots, 0);
    out := AppendStringField(out, 2, m.metricType);
    Grown(slots, 1);
    out := AppendInt32Field(out, 3, m.kind);
    Grown(slots, 2);
    out := AppendInt32Field(out, 4, m.temporality);
    Grown(slots, 3);
    out := AppendBoolField(out, 5, m.isMonotonic);
    Grown(slots, 4);
    out := AppendStringField(out, 6, m.unit);
    Grown(slots, 5);
    out := AppendDoubleField(out, 7, m.scale);
    Grown(slots, 6);
    out := AppendUint32Field(out, 8, m.counterWidth);
    Grown(slots, 7);
  }

  /** The loop over a metric's points. */
  method AppendPoints(out: seq<byte>, points: seq<Point>) returns (r: seq<byte>)
    ensures r == out + SlotBytes(ChunkSlot(20, EncodePoints(points)))
  {
    r := out;
    for i := 0 to |points|
      invariant r == out + SlotBytes(ChunkSlot(20, EncodePoints(points[..i])))
    {
      var chunk := MetricPointProto(points[i]);
      r := AppendMessageField(r, 20, chunk);
      ghost var chunks := EncodePoints(points[..i]);
      EncodeAllSnoc(EncodePoint, points, i);
      ChunkSnoc(20, chunks, chunk);
      ConcatIsAssociative(out, SlotBytes(ChunkSlot(20, chunks)), ChunkBytes(20, chunk));
    }
    assert points[..|points|] == points;
  }

  method MetricResourceProto(r: Resource) returns (out: seq<byte>)
    ensures out == EncodeResource(r)
  {
    ghost var slots := ResourceSlots(r, EncodeEntries(r.attributes));
    out := AppendResourceAgent(r, EncodeEntries(r.attributes));
    out := AppendStringField(out, 6, r.hostId);
    Grown(slots, 5);
    out := AppendStringField(out, 7, r.hostIp);
    Grown(slots, 6);
    out := AppendStringField(out, 8, r.targetDeviceIp);
    Grown(slots, 7);
    out := AppendStringField(out, 9, r.deviceId);
    Grown(slots, 8);
    out := AppendStringField(out, 10, r.kvStoreId);
    Grown(slots, 9);
    out := AppendStringMapEntries(out, 20, r.attributes);
    Grown(slots, 10);
    Whole(slots, 11);
  }

  /** The first five fields of a resource. */
  method AppendResourceAgent(r: Resource, ghost attributes: seq<seq<byte>>) returns (out: seq<byte>)
    ensures out == MessageBytes(ResourceSlots(r, attributes)[..5])
  {
    ghost var slots := ResourceSlots(r, attributes);
    out := AppendStringField([], 1, r.agentId);
    Grown(slots, 0);
    out := AppendStringField(out, 2, r.gatewayId);
    Grown(slots, 1);
    out := AppendStringField(out, 3, r.partition);
    Grown(slots, 2);
    out := AppendStringField(out, 4, r.serviceName);
    Grown(slots, 3);
    out := AppendStringField(out, 5, r.serviceType);
    Grown(slots, 4);
  }

  method MetricIngestIdentityProto(d: Identity) returns (out: seq<byte>)
    ensures out == EncodeIdentity(d)
  {
    ghost var slots := IdentitySlots(d, EncodeEntries(d.attributes));
    out := AppendStringField([], 1, d.source);
    Grown(slots, 0);
    out := AppendStringField(out, 2, d.payloadKind);
    Grown(slots, 1);
    out := AppendStringField(out, 3, d.producerId);
    Grown(slots, 2);
    out := AppendStringField(out, 4, d.producerKind);
    Grown(slots, 3);
    out := AppendStringField(out, 5, d.attestedBy);
    Grown(slots, 4);
    out := AppendStringMapEntries(out, 20, d.attributes);
    Grown(slots, 5);
    Whole(slots, 6);
  }

  /** The loop over a batch's metrics. */
  method AppendMetrics(out: seq<byte>, metrics: seq<Metric>) returns (r: seq<byte>)
    ensures r == out + SlotBytes(ChunkSlot(20, EncodeMetrics(metrics)))
  {
    r := out;
    for i := 0 to |metrics|
      invariant r == out + SlotBytes(ChunkSlot(20, EncodeMetrics(metrics[..i])))
    {
      var chunk := MetricProto(metrics[i]);
      r := AppendMessageField(r, 20, chunk);
      ghost var chunks := EncodeMetrics(metrics[..i]);
      EncodeAllSnoc(EncodeMetric, metrics, i);
      ChunkSnoc(20, chunks, chunk);
      ConcatIsAssociative(out, SlotBytes(ChunkSlot(20, chunks)), ChunkBytes(20, chunk));
    }
    assert metrics[..|metrics|] == metrics;
  }

  method MetricBatchProto(batch: Batch) returns (out: seq<byte>)
    ensures out == EncodeBatch(batch)
  {
    var b := Defaulted(batch);
    var resource := MetricResourceProto(b.resource);
    var identity := MetricIngestIdentityProto(b.identity);
    ghost var slots := BatchSlots(b, resource, identity, EncodeMetrics(b.metrics));
    out := AppendStringField([], 1, b.schemaVersion);
    Grown(slots, 0);
    out := AppendMessageField(out, 2, resource);
    OneChunk(2, resource);
    Grown(slots, 1);
    out := AppendMessageField(out, 3, identity);
    OneChunk(3, identity);
    Grown(slots, 2);
    out := AppendStringField(out, 4, b.ingressId);
    Grown(slots, 3);
    out := AppendUint64Field(out, 5, b.ingressAt);
    Grown(slots, 4);
    out := AppendUint64Field(out, 6, b.emittedAt);
    Grown(slots, 5);
    out := AppendMetrics(out, b.metrics);
    Grown(slots, 6);
    Whole(slots, 7);
  }
}
