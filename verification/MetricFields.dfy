/** What a reader finds in an encoded metric batch, told in the batch's own fields and in the numbers the
    wire format gives them. */
module MetricFields {
  import opened Bytes
  import opened Results
  import opened Wire
  import opened Metrics
  import opened MetricBatches

  // ----- what a batch says, field by field

  predicate SaysEntry(e: Entry) {
    e.key != [] || e.value != []
  }

  /** The entries with a key or a value, in order. */
  function SaidEntries(entries: seq<Entry>): seq<Entry> {
    if entries == [] then []
    else
      var last := entries[|entries| - 1];
      SaidEntries(entries[..|entries| - 1]) + (if SaysEntry(last) then [last] else [])
  }

  /** A double as it is read: both zeros as zero. */
  predicate DoubleRead(bits: uint64, read: uint64) {
    if bits == 0 || bits == 0x8000_0000_0000_0000 then read == 0 else read == bits
  }

  /** `q` is what is read of `p`. */
  predicate PointRead(p: Point, q: Point) {
    && DoubleRead(p.value, q.value) && q.rawValue == p.rawValue && q.rawValueType == p.rawValueType
    && q.observedAt == p.observedAt && q.startTime == p.startTime && q.resetAnchor == p.resetAnchor
    && q.ifIndex == p.ifIndex && q.interfaceUid == p.interfaceUid && q.seriesIdentityHint == p.seriesIdentityHint
    && q.attributes == SaidEntries(p.attributes) && q.metadata == SaidEntries(p.metadata)
  }

  predicate SaysPoint(p: Point) {
    !PointRead(p, Point(0, [], 0, 0, 0, [], 0, [], [], [], []))
  }

  /** The points that say something are read, in order. */
  predicate PointsReadAs(points: seq<Point>, read: seq<Point>) {
    if points == [] then read == []
    else
      var init, last := points[..|points| - 1], points[|points| - 1];
      if SaysPoint(last) then
        read != [] && PointRead(last, read[|read| - 1]) && PointsReadAs(init, read[..|read| - 1])
      else PointsReadAs(init, read)
  }

  predicate MetricRead(m: Metric, n: Metric) {
    && n.name == m.name && n.metricType == m.metricType && n.kind == m.kind && n.temporality == m.temporality
    && n.isMonotonic == m.isMonotonic && n.unit == m.unit && DoubleRead(m.scale, n.scale)
    && n.counterWidth == m.counterWidth && PointsReadAs(m.points, n.points)
    && n.tags == SaidEntries(m.tags) && n.metadata == SaidEntries(m.metadata)
    && n.thresholds == SaidEntries(m.thresholds)
  }

  predicate SaysMetric(m: Metric) {
    !MetricRead(m, Metric([], [], 0, 0, false, [], 0, 0, [], [], [], []))
  }

  predicate MetricsReadAs(metrics: seq<Metric>, read: seq<Metric>) {
    if metrics == [] then read == []
    else
      var init, last := metrics[..|metrics| - 1], metrics[|metrics| - 1];
      if SaysMetric(last) then
        read != [] && MetricRead(last, read[|read| - 1]) && MetricsReadAs(init, read[..|read| - 1])
      else MetricsReadAs(init, read)
  }

  predicate ResourceRead(r: Resource, q: Resource) {
    && q.agentId == r.agentId && q.gatewayId == r.gatewayId && q.partition == r.partition
    && q.serviceName == r.serviceName && q.serviceType == r.serviceType && q.hostId == r.hostId
    && q.hostIp == r.hostIp && q.targetDeviceIp == r.targetDeviceIp && q.deviceId == r.deviceId
    && q.kvStoreId == r.kvStoreId && q.attributes == SaidEntries(r.attributes)
  }

  /** A text, or where it is empty the name of the envelope's schema. */
  predicate SchemaRead(text: Text, read: Text) {
    if text == [] then read == Ascii("serviceradar.metric.v1") else read == text
  }

  predicate IdentityRead(d: Identity, e: Identity) {
    && e.source == d.source && SchemaRead(d.payloadKind, e.payloadKind) && e.producerId == d.producerId
    && e.producerKind == d.producerKind && e.attestedBy == d.attestedBy && e.attributes == SaidEntries(d.attributes)
  }

  predicate BatchRead(b: Batch, c: Batch) {
    && SchemaRead(b.schemaVersion, c.schemaVersion) && ResourceRead(b.resource, c.resource)
    && IdentityRead(b.identity, c.identity) && c.ingressId == b.ingressId && c.ingressAt == b.ingressAt
    && c.emittedAt == b.emittedAt && MetricsReadAs(b.metrics, c.metrics)
  }

  // ----- the normal forms say that

  lemma {:induction false} EntriesSaid(entries: seq<Entry>)
    ensures KeepEntries(entries) == SaidEntries(entries)
  {
    if entries != [] { EntriesSaid(entries[..|entries| - 1]); }
  }

  lemma PointSaid(p: Point)
    ensures PointRead(p, NormalPoint(p))
    ensures SaysPoint(p) <==> NormalPoint(p) != BLANK_POINT
  {
    EntriesSaid(p.attributes);
    EntriesSaid(p.metadata);
  }

  lemma {:induction false} PointsSaid(points: seq<Point>)
    ensures PointsReadAs(points, KeepPoints(points))
    ensures PointsReadAs(points, []) <==> KeepPoints(points) == []
  {
    if points != [] {
      var init, last := points[..|points| - 1], points[|points| - 1];
      PointsSaid(init);
      PointSaid(last);
      if SaysPoint(last) {
        assert KeepPoints(points)[..|KeepPoints(points)| - 1] == KeepPoints(init);
      } else {
        assert KeepPoints(init) + [] == KeepPoints(init);
      }
    }
  }

  lemma MetricSaid(m: Metric)
    ensures MetricRead(m, NormalMetric(m))
    ensures SaysMetric(m) <==> NormalMetric(m) != BLANK_METRIC
  {
    PointsSaid(m.points);
    EntriesSaid(m.tags);
    EntriesSaid(m.metadata);
    EntriesSaid(m.thresholds);
  }

  lemma {:induction false} MetricsSaid(metrics: seq<Metric>)
    ensures MetricsReadAs(metrics, KeepMetrics(metrics))
  {
    if metrics != [] {
      var init, last := metrics[..|metrics| - 1], metrics[|metrics| - 1];
      MetricsSaid(init);
      MetricSaid(last);
      if SaysMetric(last) {
        assert KeepMetrics(metrics)[..|KeepMetrics(metrics)| - 1] == KeepMetrics(init);
      } else {
        assert KeepMetrics(init) + [] == KeepMetrics(init);
      }
    }
  }

  lemma SchemaNamed(text: Text)
    ensures SchemaRead(text, if text == [] then SCHEMA_VERSION else text)
  {
    assert SCHEMA_VERSION == Ascii("serviceradar.metric.v1");
  }

  lemma BatchSaid(b: Batch)
    ensures BatchRead(b, NormalBatch(b))
  {
    SchemaNamed(b.schemaVersion);
    SchemaNamed(b.identity.payloadKind);
    EntriesSaid(b.resource.attributes);
    EntriesSaid(b.identity.attributes);
    MetricsSaid(b.metrics);
  }

  /** What decoding an encoded batch gives, field by field through all four levels: every scalar and text as
      it was, the schema's name where the version or the payload kind was empty, both zeros as zero, and
      exactly the elements that say something. */
  lemma BatchReadsBack(b: Batch)
    requires |EncodeBatch(b)| < UINT64_LIMIT
    ensures var read := DecodeBatch(EncodeBatch(b));
            read.Some? && BatchRead(b, read.value)
  {
    BatchRoundTrip(b);
    BatchSaid(b);
  }

  // ----- the numbers the fields have on the wire

  /** A 32-bit integer is written as the 64-bit two's complement. */
  predicate SignedRead(v: int32, n: uint64) {
    if v < 0 then n == 0x1_0000_0000_0000_0000 + v else n == v
  }

  lemma BatchOnWire(batch: Batch)
    requires |EncodeBatch(batch)| < UINT64_LIMIT
    ensures var fields := ParseFields(EncodeBatch(batch));
      && fields.Some? && SchemaRead(batch.schemaVersion, TextAt(fields.value, 1))
      && TextAt(fields.value, 2) == EncodeResource(batch.resource) && TextAt(fields.value, 4) == batch.ingressId
      && NumberAt(fields.value, 5) == batch.ingressAt && NumberAt(fields.value, 6) == batch.emittedAt
      && MetricsAt(fields.value, 20) == Some(KeepMetrics(batch.metrics))
    ensures |TextAt(ParseFields(EncodeBatch(batch)).value, 3)| < UINT64_LIMIT
    ensures var fields := ParseFields(TextAt(ParseFields(EncodeBatch(batch)).value, 3));
      && fields.Some? && SchemaRead(batch.identity.payloadKind, TextAt(fields.value, 2))
      && TextAt(fields.value, 1) == batch.identity.source && TextAt(fields.value, 3) == batch.identity.producerId
      && TextAt(fields.value, 4) == batch.identity.producerKind
      && TextAt(fields.value, 5) == batch.identity.attestedBy
      && EntriesAt(fields.value, 20) == Some(SaidEntries(batch.identity.attributes))
  {
    var b := Defaulted(batch);
    var resource, identity, metrics := EncodeResource(b.resource), EncodeIdentity(b.identity), EncodeMetrics(b.metrics);
    var slots := BatchSlots(b, resource, identity, metrics);
    BatchPartsRead(b, slots);
    BatchScalarsRead(b, resource, identity, metrics, MessageFields(slots));
    SchemaNamed(batch.schemaVersion);
    SchemaNamed(batch.identity.payloadKind);
    BatchOrdered(b, resource, identity, metrics);
    OrderedIsDistinct(slots);
    ChunkIsPart(slots, 2, 0);
    IdentityOnWire(b.identity);
    EntriesSaid(b.identity.attributes);
  }

  lemma IdentityOnWire(d: Identity)
    requires |EncodeIdentity(d)| < UINT64_LIMIT
    ensures var fields := ParseFields(EncodeIdentity(d));
      && fields.Some? && TextAt(fields.value, 1) == d.source && TextAt(fields.value, 2) == d.payloadKind
      && TextAt(fields.value, 3) == d.producerId && TextAt(fields.value, 4) == d.producerKind
      && TextAt(fields.value, 5) == d.attestedBy && EntriesAt(fields.value, 20) == Some(KeepEntries(d.attributes))
  {
    var attributes := EncodeEntries(d.attributes);
    var slots := IdentitySlots(d, attributes);
    IdentityOrdered(d, attributes);
    MessageReadsBack(slots);
    IdentityTextsRead(d, attributes, MessageFields(slots));
    EntriesRead(slots, 5, d.attributes);
  }

  lemma ResourceOnWire(r: Resource)
    requires |EncodeResource(r)| < UINT64_LIMIT
    ensures var fields := ParseFields(EncodeResource(r));
      && fields.Some? && TextAt(fields.value, 1) == r.agentId && TextAt(fields.value, 2) == r.gatewayId
      && TextAt(fields.value, 3) == r.partition && TextAt(fields.value, 4) == r.serviceName
      && TextAt(fields.value, 5) == r.serviceType && TextAt(fields.value, 6) == r.hostId
      && TextAt(fields.value, 7) == r.hostIp && TextAt(fields.value, 8) == r.targetDeviceIp
      && TextAt(fields.value, 9) == r.deviceId && TextAt(fields.value, 10) == r.kvStoreId
      && EntriesAt(fields.value, 20) == Some(KeepEntries(r.attributes))
  {
    var attributes := EncodeEntries(r.attributes);
    var slots := ResourceSlots(r, attributes);
    ResourceOrdered(r, attributes);
    MessageReadsBack(slots);
    ResourceTextsRead(r, attributes, MessageFields(slots));
    EntriesRead(slots, 10, r.attributes);
  }

  lemma MetricOnWire(m: Metric)
    requires |EncodeMetric(m)| < UINT64_LIMIT
    ensures var fields := ParseFields(EncodeMetric(m));
      && fields.Some? && TextAt(fields.value, 1) == m.name && TextAt(fields.value, 2) == m.metricType
      && SignedRead(m.kind, NumberAt(fields.value, 3)) && SignedRead(m.temporality, NumberAt(fields.value, 4))
      && (NumberAt(fields.value, 5) == if m.isMonotonic then 1 else 0) && TextAt(fields.value, 6) == m.unit
      && DoubleRead(m.scale, DoubleAt(fields.value, 7)) && NumberAt(fields.value, 8) == m.counterWidth
      && PointsAt(fields.value, 20) == Some(KeepPoints(m.points))
      && EntriesAt(fields.value, 30) == Some(KeepEntries(m.tags))
      && EntriesAt(fields.value, 31) == Some(KeepEntries(m.metadata))
      && EntriesAt(fields.value, 32) == Some(KeepEntries(m.thresholds))
  {
    var slots := MetricSlots(m, ListsOf(m));
    MetricListsRead(m);
    MetricScalarsRead(m, ListsOf(m), MessageFields(slots));
    MetricNumbersRead(m, ListsOf(m), MessageFields(slots));
  }

  lemma MetricNumbersRead(m: Metric, lists: MetricLists, fields: seq<Field>)
    requires AllReadBack(fields, MetricSlots(m, lists))
    ensures SignedRead(m.kind, NumberAt(fields, 3)) && SignedRead(m.temporality, NumberAt(fields, 4))
    ensures (NumberAt(fields, 5) == if m.isMonotonic then 1 else 0) && NumberAt(fields, 8) == m.counterWidth
  {
    var slots := MetricSlots(m, lists);
    assert ReadsBack(fields, slots[2]) && ReadsBack(fields, slots[3]);
    assert ReadsBack(fields, slots[4]) && ReadsBack(fields, slots[7]);
  }

  lemma PointOnWire(p: Point)
    requires |EncodePoint(p)| < UINT64_LIMIT
    ensures var fields := ParseFields(EncodePoint(p));
      && fields.Some? && DoubleRead(p.value, DoubleAt(fields.value, 1)) && TextAt(fields.value, 2) == p.rawValue
      && SignedRead(p.rawValueType, NumberAt(fields.value, 3)) && NumberAt(fields.value, 4) == p.observedAt
      && NumberAt(fields.value, 5) == p.startTime && TextAt(fields.value, 6) == p.resetAnchor
      && SignedRead(p.ifIndex, NumberAt(fields.value, 7)) && TextAt(fields.value, 8) == p.interfaceUid
      && TextAt(fields.value, 9) == p.seriesIdentityHint
      && EntriesAt(fields.value, 20) == Some(KeepEntries(p.attributes))
      && EntriesAt(fields.value, 21) == Some(KeepEntries(p.metadata))
  {
    var attributes, metadata := EncodeEntries(p.attributes), EncodeEntries(p.metadata);
    var slots := PointSlots(p, attributes, metadata);
    PointOrdered(p, attributes, metadata);
    MessageReadsBack(slots);
    PointScalarsRead(p, attributes, metadata, MessageFields(slots));
    PointNumbersRead(p, attributes, metadata, MessageFields(slots));
    EntriesRead(slots, 9, p.attributes);
    EntriesRead(slots, 10, p.metadata);
  }

  lemma PointNumbersRead(p: Point, attributes: seq<seq<byte>>, metadata: seq<seq<byte>>, fields: seq<Field>)
    requires AllReadBack(fields, PointSlots(p, attributes, metadata))
    ensures SignedRead(p.rawValueType, NumberAt(fields, 3)) && SignedRead(p.ifIndex, NumberAt(fields, 7))
  {
    var slots := PointSlots(p, attributes, metadata);
    assert ReadsBack(fields, slots[2]) && ReadsBack(fields, slots[6]);
  }

  lemma EntryOnWire(e: Entry)
    requires |EncodeEntry(e)| < UINT64_LIMIT
    ensures var fields := ParseFields(EncodeEntry(e));
      fields.Some? && TextAt(fields.value, 1) == e.key && TextAt(fields.value, 2) == e.value
  {
    var slots := EntrySlots(e);
    MessageReadsBack(slots);
    assert slots[0] == TextSlot(1, e.key) && slots[1] == TextSlot(2, e.value);
    TextReads(MessageFields(slots), 1, e.key);
    TextReads(MessageFields(slots), 2, e.value);
  }

  // ----- the bytes

  /** The value of digits to the base 128, least first, marks taken off. */
  function Base128(bytes: seq<byte>): nat {
    if bytes == [] then 0 else bytes[0] % 128 + 128 * Base128(bytes[1..])
  }

  /** A varint holds the number's digits to the base 128, least first and no more than it needs, all of them
      marked but the last. */
  lemma {:induction false} VarintDigits(n: nat)
    ensures Base128(Varint(n)) == n
    ensures forall i | 0 <= i < |Varint(n)| :: Varint(n)[i] >= 128 <==> i < |Varint(n)| - 1
    ensures |Varint(n)| > 1 ==> Varint(n)[|Varint(n)| - 1] != 0
  {
    if n < 128 {
      assert Varint(n) == [n] && Base128([]) == 0;
    } else {
      VarintDigits(n / 128);
      assert Varint(n)[1..] == Varint(n / 128);
    }
  }

  /** The bytes of field 1 with the number 150, of field 2 with the text "testing", and of field 1 with the
      double 1. */
  lemma FieldExamples()
    ensures Field(1, Number(150)).Encode() == [0x08, 0x96, 0x01]
    ensures Field(2, Chunk(Ascii("testing"))).Encode() == [0x12, 0x07] + Ascii("testing")
    ensures Field(1, Fixed(0x3FF0_0000_0000_0000)).Encode() == [0x09, 0, 0, 0, 0, 0, 0, 0xF0, 0x3F]
  {
    assert Varint(1) == [1] && Varint(150) == [0x96, 1];
    OneDouble();
  }

  lemma OneDouble()
    ensures LittleEndian(0x3FF0_0000_0000_0000, 8) == [0, 0, 0, 0, 0, 0, 0xF0, 0x3F]
  {
    assert LittleEndian(0x3FF0, 2) == [0xF0, 0x3F];
    assert LittleEndian(0x3FF0_0000_0000, 6) == [0, 0, 0, 0, 0xF0, 0x3F];
  }
}
