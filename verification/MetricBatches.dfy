/** The upper levels of the metric batch: resource, ingest identity, metrics and the batch itself, and
    the round trip through all four levels of messages. */
module MetricBatches {
  import opened Bytes
  import opened Results
  import opened Wire
  import opened Metrics

  // ----- lists of points

  function EncodePoints(points: seq<Point>): seq<seq<byte>> {
    EncodeAll(EncodePoint, points)
  }

  function PointsAt(fields: seq<Field>, num: nat): Option<seq<Point>> {
    DecodeAll(DecodePoint, ChunksAt(fields, num))
  }

  function KeepPoints(points: seq<Point>): seq<Point> {
    Keep(NormalPoint, BLANK_POINT, points)
  }

  lemma PointsRead(slots: seq<Slot>, i: nat, points: seq<Point>)
    requires Ordered(slots) && |EncodeMessage(slots)| < UINT64_LIMIT
    requires i < |slots| && slots[i].ChunkSlot? && slots[i].chunks == EncodePoints(points)
        && ReadsBack(MessageFields(slots), slots[i])
    ensures PointsAt(MessageFields(slots), slots[i].num) == Some(KeepPoints(points))
  {
    OrderedIsDistinct(slots);
    forall j | 0 <= j < |points|
      ensures EncodePoint(points[j]) == [] <==> NormalPoint(points[j]) == BLANK_POINT
      ensures DecodePoint(EncodePoint(points[j])) == Some(NormalPoint(points[j]))
    {
      ChunkIsPart(slots, i, j);
      PointRoundTrip(points[j]);
      PointBlank(points[j]);
    }
    DecodeInvertsEncodeAll(EncodePoint, DecodePoint, NormalPoint, BLANK_POINT, points);
  }

  lemma PointsKept(points: seq<Point>)
    ensures NonEmpty(EncodePoints(points)) == [] <==> KeepPoints(points) == []
    ensures NonEmpty(EncodePoints(KeepPoints(points))) == NonEmpty(EncodePoints(points))
  {
    forall j | 0 <= j < |points|
      ensures EncodePoint(points[j]) == [] <==> NormalPoint(points[j]) == BLANK_POINT
      ensures EncodePoint(NormalPoint(points[j])) == EncodePoint(points[j])
    {
      PointBlank(points[j]);
      PointCanonical(points[j]);
    }
    KeepNothing(EncodePoint, NormalPoint, BLANK_POINT, points);
    KeepEncodesTheSame(EncodePoint, NormalPoint, BLANK_POINT, points);
  }

  // ----- metrics

  const BLANK_METRIC := Metric([], [], 0, 0, false, [], 0, 0, [], [], [], [])

  /** A metric's repeated elements, already encoded. */
  datatype MetricLists = MetricLists(points: seq<seq<byte>>, tags: seq<seq<byte>>, metadata: seq<seq<byte>>,
      thresholds: seq<seq<byte>>) {
    function NonEmptyLists(): MetricLists {
      MetricLists(NonEmpty(points), NonEmpty(tags), NonEmpty(metadata), NonEmpty(thresholds))
    }
  }

  function MetricSlots(m: Metric, lists: MetricLists): seq<Slot> {
    [TextSlot(1, m.name), TextSlot(2, m.metricType), NumberSlot(3, SignExtend(m.kind)),
     NumberSlot(4, SignExtend(m.temporality)), NumberSlot(5, Bit(m.isMonotonic)), TextSlot(6, m.unit),
     DoubleSlot(7, m.scale), NumberSlot(8, m.counterWidth), ChunkSlot(20, lists.points),
     ChunkSlot(30, lists.tags), ChunkSlot(31, lists.metadata), ChunkSlot(32, lists.thresholds)]
  }

  function ListsOf(m: Metric): MetricLists {
    MetricLists(EncodePoints(m.points), EncodeEntries(m.tags), EncodeEntries(m.metadata), EncodeEntries(m.thresholds))
  }

  function EncodeMetric(m: Metric): seq<byte> {
    EncodeMessage(MetricSlots(m, ListsOf(m)))
  }

  function DecodeMetric(bytes: seq<byte>): Option<Metric> {
    match ParseFields(bytes)
    case None => None
    case Some(fields) => MetricOf(fields)
  }

  function MetricOf(fields: seq<Field>): Option<Metric> {
    match (PointsAt(fields, 20), EntriesAt(fields, 30), EntriesAt(fields, 31), EntriesAt(fields, 32))
    case (Some(points), Some(tags), Some(metadata), Some(thresholds)) =>
      Some(Metric(TextAt(fields, 1), TextAt(fields, 2), Truncate(NumberAt(fields, 3)), Truncate(NumberAt(fields, 4)),
                  NumberAt(fields, 5) != 0, TextAt(fields, 6), DoubleAt(fields, 7), Low32(NumberAt(fields, 8)),
                  points, tags, metadata, thresholds))
    case _ => None
  }

  function NormalMetric(m: Metric): Metric {
    m.(scale := PlusZero(m.scale), points := KeepPoints(m.points), tags := KeepEntries(m.tags),
       metadata := KeepEntries(m.metadata), thresholds := KeepEntries(m.thresholds))
  }

  lemma MetricOrdered(m: Metric, lists: MetricLists)
    ensures var slots := MetricSlots(m, lists);
            && Ordered(slots) && |slots| == 12
            && slots[8] == ChunkSlot(20, lists.points) && slots[9] == ChunkSlot(30, lists.tags)
            && slots[10] == ChunkSlot(31, lists.metadata) && slots[11] == ChunkSlot(32, lists.thresholds)
  {
  }

  lemma MetricScalarsRead(m: Metric, lists: MetricLists, fields: seq<Field>)
    requires AllReadBack(fields, MetricSlots(m, lists))
    ensures TextAt(fields, 1) == m.name && TextAt(fields, 2) == m.metricType && TextAt(fields, 6) == m.unit
    ensures Truncate(NumberAt(fields, 3)) == m.kind && Truncate(NumberAt(fields, 4)) == m.temporality
    ensures (NumberAt(fields, 5) != 0) == m.isMonotonic && Low32(NumberAt(fields, 8)) == m.counterWidth
    ensures DoubleAt(fields, 7) == PlusZero(m.scale)
  {
    var slots := MetricSlots(m, lists);
    assert ReadsBack(fields, slots[2]) && ReadsBack(fields, slots[3]) && ReadsBack(fields, slots[4]);
    assert ReadsBack(fields, slots[6]) && ReadsBack(fields, slots[7]);
    TruncateInvertsSignExtend(m.kind);
    TruncateInvertsSignExtend(m.temporality);
    assert ReadsBack(fields, slots[0]) && ReadsBack(fields, slots[1]) && ReadsBack(fields, slots[5]);
    TextReads(fields, 1, m.name);
    TextReads(fields, 2, m.metricType);
    TextReads(fields, 6, m.unit);
  }

  lemma MetricListsRead(m: Metric)
    requires |EncodeMetric(m)| < UINT64_LIMIT
    ensures var fields := MessageFields(MetricSlots(m, ListsOf(m)));
            && ParseFields(EncodeMetric(m)) == Some(fields) && AllReadBack(fields, MetricSlots(m, ListsOf(m)))
            && PointsAt(fields, 20) == Some(KeepPoints(m.points)) && EntriesAt(fields, 30) == Some(KeepEntries(m.tags))
            && EntriesAt(fields, 31) == Some(KeepEntries(m.metadata))
            && EntriesAt(fields, 32) == Some(KeepEntries(m.thresholds))
  {
    var slots := MetricSlots(m, ListsOf(m));
    MetricOrdered(m, ListsOf(m));
    MessageReadsBack(slots);
    PointsRead(slots, 8, m.points);
    EntriesRead(slots, 9, m.tags);
    EntriesRead(slots, 10, m.metadata);
    EntriesRead(slots, 11, m.thresholds);
  }

  lemma MetricAssembles(m: Metric, lists: MetricLists, fields: seq<Field>)
    requires AllReadBack(fields, MetricSlots(m, lists))
    requires PointsAt(fields, 20) == Some(KeepPoints(m.points)) && EntriesAt(fields, 30) == Some(KeepEntries(m.tags))
    requires EntriesAt(fields, 31) == Some(KeepEntries(m.metadata))
        && EntriesAt(fields, 32) == Some(KeepEntries(m.thresholds))
    ensures MetricOf(fields) == Some(NormalMetric(m))
  {
    MetricScalarsRead(m, lists, fields);
  }

  lemma MetricRoundTrip(m: Metric)
    requires |EncodeMetric(m)| < UINT64_LIMIT
    ensures DecodeMetric(EncodeMetric(m)) == Some(NormalMetric(m))
  {
    MetricListsRead(m);
    MetricAssembles(m, ListsOf(m), MessageFields(MetricSlots(m, ListsOf(m))));
  }

  lemma MetricSaysNothing(m: Metric, lists: MetricLists)
    ensures AllSayNothing(MetricSlots(m, lists))
       <==> lists.NonEmptyLists() == MetricLists([], [], [], [])
            && m.(scale := PlusZero(m.scale), points := [], tags := [], metadata := [], thresholds := [])
                == BLANK_METRIC
  {
    var slots := MetricSlots(m, lists);
    TextSaysNothing(1, m.name);
    TextSaysNothing(2, m.metricType);
    TextSaysNothing(6, m.unit);
    TruncateInvertsSignExtend(m.kind);
    TruncateInvertsSignExtend(m.temporality);
    if AllSayNothing(slots) {
      assert SaysNothing(slots[0]) && SaysNothing(slots[1]) && SaysNothing(slots[2]) && SaysNothing(slots[3]);
      assert SaysNothing(slots[4]) && SaysNothing(slots[5]) && SaysNothing(slots[6]) && SaysNothing(slots[7]);
      assert SaysNothing(slots[8]) && SaysNothing(slots[9]) && SaysNothing(slots[10]) && SaysNothing(slots[11]);
    }
  }

  lemma MetricBlank(m: Metric)
    ensures EncodeMetric(m) == [] <==> NormalMetric(m) == BLANK_METRIC
  {
    EmptyMessage(MetricSlots(m, ListsOf(m)));
    MetricSaysNothing(m, ListsOf(m));
    PointsKept(m.points);
    EntriesKept(m.tags);
    EntriesKept(m.metadata);
    EntriesKept(m.thresholds);
  }

  lemma MetricSaysTheSame(m: Metric, n: Metric, lists: MetricLists, lists': MetricLists)
    requires n == m.(scale := n.scale, points := n.points, tags := n.tags, metadata := n.metadata,
        thresholds := n.thresholds)
    requires PlusZero(n.scale) == PlusZero(m.scale) && lists'.NonEmptyLists() == lists.NonEmptyLists()
    ensures EncodeMessage(MetricSlots(n, lists')) == EncodeMessage(MetricSlots(m, lists))
  {
    SameFields(MetricSlots(n, lists'), MetricSlots(m, lists));
  }

  lemma MetricCanonical(m: Metric)
    ensures EncodeMetric(NormalMetric(m)) == EncodeMetric(m)
  {
    PointsKept(m.points);
    EntriesKept(m.tags);
    EntriesKept(m.metadata);
    EntriesKept(m.thresholds);
    MetricSaysTheSame(m, NormalMetric(m), ListsOf(m), ListsOf(NormalMetric(m)));
  }

  function EncodeMetrics(metrics: seq<Metric>): seq<seq<byte>> {
    EncodeAll(EncodeMetric, metrics)
  }

  function MetricsAt(fields: seq<Field>, num: nat): Option<seq<Metric>> {
    DecodeAll(DecodeMetric, ChunksAt(fields, num))
  }

  function KeepMetrics(metrics: seq<Metric>): seq<Metric> {
    Keep(NormalMetric, BLANK_METRIC, metrics)
  }

  lemma MetricsRead(slots: seq<Slot>, i: nat, metrics: seq<Metric>)
    requires Ordered(slots) && |EncodeMessage(slots)| < UINT64_LIMIT
    requires i < |slots| && slots[i].ChunkSlot? && slots[i].chunks == EncodeMetrics(metrics)
        && ReadsBack(MessageFields(slots), slots[i])
    ensures MetricsAt(MessageFields(slots), slots[i].num) == Some(KeepMetrics(metrics))
  {
    OrderedIsDistinct(slots);
    forall j | 0 <= j < |metrics|
      ensures EncodeMetric(metrics[j]) == [] <==> NormalMetric(metrics[j]) == BLANK_METRIC
      ensures DecodeMetric(EncodeMetric(metrics[j])) == Some(NormalMetric(metrics[j]))
    {
      ChunkIsPart(slots, i, j);
      MetricRoundTrip(metrics[j]);
      MetricBlank(metrics[j]);
    }
    DecodeInvertsEncodeAll(EncodeMetric, DecodeMetric, NormalMetric, BLANK_METRIC, metrics);
  }

  lemma MetricsKept(metrics: seq<Metric>)
    ensures NonEmpty(EncodeMetrics(KeepMetrics(metrics))) == NonEmpty(EncodeMetrics(metrics))
  {
    forall j | 0 <= j < |metrics|
      ensures EncodeMetric(metrics[j]) == [] <==> NormalMetric(metrics[j]) == BLANK_METRIC
      ensures EncodeMetric(NormalMetric(metrics[j])) == EncodeMetric(metrics[j])
    {
      MetricBlank(metrics[j]);
      MetricCanonical(metrics[j]);
    }
    KeepEncodesTheSame(EncodeMetric, NormalMetric, BLANK_METRIC, metrics);
  }

  // ----- resource and identity

  function ResourceSlots(r: Resource, attributes: seq<seq<byte>>): seq<Slot> {
    [TextSlot(1, r.agentId), TextSlot(2, r.gatewayId), TextSlot(3, r.partition), TextSlot(4, r.serviceName),
     TextSlot(5, r.serviceType), TextSlot(6, r.hostId), TextSlot(7, r.hostIp), TextSlot(8, r.targetDeviceIp),
     TextSlot(9, r.deviceId), TextSlot(10, r.kvStoreId), ChunkSlot(20, attributes)]
  }

  function EncodeResource(r: Resource): seq<byte> {
    EncodeMessage(ResourceSlots(r, EncodeEntries(r.attributes)))
  }

  function DecodeResource(bytes: seq<byte>): Option<Resource> {
    match ParseFields(bytes)
    case None => None
    case Some(fields) => ResourceOf(fields)
  }

  function ResourceOf(fields: seq<Field>): Option<Resource> {
    match EntriesAt(fields, 20)
    case None => None
    case Some(attributes) =>
      Some(Resource(TextAt(fields, 1), TextAt(fields, 2), TextAt(fields, 3), TextAt(fields, 4), TextAt(fields, 5),
                    TextAt(fields, 6), TextAt(fields, 7), TextAt(fields, 8), TextAt(fields, 9), TextAt(fields, 10),
                    attributes))
  }

  function NormalResource(r: Resource): Resource {
    r.(attributes := KeepEntries(r.attributes))
  }

  lemma ResourceOrdered(r: Resource, attributes: seq<seq<byte>>)
    ensures var slots := ResourceSlots(r, attributes);
            Ordered(slots) && |slots| == 11 && slots[10] == ChunkSlot(20, attributes)
  {
  }

  lemma ResourceTextsRead(r: Resource, attributes: seq<seq<byte>>, fields: seq<Field>)
    requires AllReadBack(fields, ResourceSlots(r, attributes))
    ensures TextAt(fields, 1) == r.agentId && TextAt(fields, 2) == r.gatewayId && TextAt(fields, 3) == r.partition
    ensures TextAt(fields, 4) == r.serviceName && TextAt(fields, 5) == r.serviceType && TextAt(fields, 6) == r.hostId
    ensures TextAt(fields, 7) == r.hostIp && TextAt(fields, 8) == r.targetDeviceIp && TextAt(fields, 9) == r.deviceId
    ensures TextAt(fields, 10) == r.kvStoreId
  {
    var slots := ResourceSlots(r, attributes);
    assert ReadsBack(fields, slots[0]) && ReadsBack(fields, slots[1]) && ReadsBack(fields, slots[2])
        && ReadsBack(fields, slots[3]);
    assert ReadsBack(fields, slots[4]) && ReadsBack(fields, slots[5]) && ReadsBack(fields, slots[6])
        && ReadsBack(fields, slots[7]);
    assert ReadsBack(fields, slots[8]) && ReadsBack(fields, slots[9]);
    TextReads(fields, 1, r.agentId);
    TextReads(fields, 2, r.gatewayId);
    TextReads(fields, 3, r.partition);
    TextReads(fields, 4, r.serviceName);
    TextReads(fields, 5, r.serviceType);
    TextReads(fields, 6, r.hostId);
    TextReads(fields, 7, r.hostIp);
    TextReads(fields, 8, r.targetDeviceIp);
    TextReads(fields, 9, r.deviceId);
    TextReads(fields, 10, r.kvStoreId);
  }

  lemma ResourceRoundTrip(r: Resource)
    requires |EncodeResource(r)| < UINT64_LIMIT
    ensures DecodeResource(EncodeResource(r)) == Some(NormalResource(r))
  {
    var attributes := EncodeEntries(r.attributes);
    var slots := ResourceSlots(r, attributes);
    ResourceOrdered(r, attributes);
    MessageReadsBack(slots);
    ResourceTextsRead(r, attributes, MessageFields(slots));
    EntriesRead(slots, 10, r.attributes);
  }

  lemma ResourceSaysTheSame(r: Resource, q: Resource, attributes: seq<seq<byte>>, attributes': seq<seq<byte>>)
    requires q == r.(attributes := q.attributes) && NonEmpty(attributes') == NonEmpty(attributes)
    ensures EncodeMessage(ResourceSlots(q, attributes')) == EncodeMessage(ResourceSlots(r, attributes))
  {
    SameFields(ResourceSlots(q, attributes'), ResourceSlots(r, attributes));
  }

  lemma ResourceCanonical(r: Resource)
    ensures EncodeResource(NormalResource(r)) == EncodeResource(r)
  {
    EntriesKept(r.attributes);
    ResourceSaysTheSame(r, NormalResource(r), EncodeEntries(r.attributes), EncodeEntries(KeepEntries(r.attributes)));
  }

  function IdentitySlots(d: Identity, attributes: seq<seq<byte>>): seq<Slot> {
    [TextSlot(1, d.source), TextSlot(2, d.payloadKind), TextSlot(3, d.producerId), TextSlot(4, d.producerKind),
     TextSlot(5, d.attestedBy), ChunkSlot(20, attributes)]
  }

  function EncodeIdentity(d: Identity): seq<byte> {
    EncodeMessage(IdentitySlots(d, EncodeEntries(d.attributes)))
  }

  function DecodeIdentity(bytes: seq<byte>): Option<Identity> {
    match ParseFields(bytes)
    case None => None
    case Some(fields) => IdentityOf(fields)
  }

  function IdentityOf(fields: seq<Field>): Option<Identity> {
    match EntriesAt(fields, 20)
    case None => None
    case Some(attributes) =>
      Some(Identity(TextAt(fields, 1), TextAt(fields, 2), TextAt(fields, 3), TextAt(fields, 4), TextAt(fields, 5),
          attributes))
  }

  function NormalIdentity(d: Identity): Identity {
    d.(attributes := KeepEntries(d.attributes))
  }

  lemma IdentityTextsRead(d: Identity, attributes: seq<seq<byte>>, fields: seq<Field>)
    requires AllReadBack(fields, IdentitySlots(d, attributes))
    ensures TextAt(fields, 1) == d.source && TextAt(fields, 2) == d.payloadKind && TextAt(fields, 3) == d.producerId
    ensures TextAt(fields, 4) == d.producerKind && TextAt(fields, 5) == d.attestedBy
  {
    var slots := IdentitySlots(d, attributes);
    assert ReadsBack(fields, slots[0]) && ReadsBack(fields, slots[1]) && ReadsBack(fields, slots[2]);
    assert ReadsBack(fields, slots[3]) && ReadsBack(fields, slots[4]);
    TextReads(fields, 1, d.source);
    TextReads(fields, 2, d.payloadKind);
    TextReads(fields, 3, d.producerId);
    TextReads(fields, 4, d.producerKind);
    TextReads(fields, 5, d.attestedBy);
  }

  lemma IdentityOrdered(d: Identity, attributes: seq<seq<byte>>)
    ensures var slots := IdentitySlots(d, attributes);
            Ordered(slots) && |slots| == 6 && slots[5] == ChunkSlot(20, attributes)
  {
  }

  lemma IdentityRoundTrip(d: Identity)
    requires |EncodeIdentity(d)| < UINT64_LIMIT
    ensures DecodeIdentity(EncodeIdentity(d)) == Some(NormalIdentity(d))
  {
    var attributes := EncodeEntries(d.attributes);
    var slots := IdentitySlots(d, attributes);
    IdentityOrdered(d, attributes);
    MessageReadsBack(slots);
    IdentityTextsRead(d, attributes, MessageFields(slots));
    EntriesRead(slots, 5, d.attributes);
  }

  lemma IdentitySaysTheSame(d: Identity, e: Identity, attributes: seq<seq<byte>>, attributes': seq<seq<byte>>)
    requires e == d.(attributes := e.attributes) && NonEmpty(attributes') == NonEmpty(attributes)
    ensures EncodeMessage(IdentitySlots(e, attributes')) == EncodeMessage(IdentitySlots(d, attributes))
  {
    SameFields(IdentitySlots(e, attributes'), IdentitySlots(d, attributes));
  }

  lemma IdentityCanonical(d: Identity)
    ensures EncodeIdentity(NormalIdentity(d)) == EncodeIdentity(d)
  {
    EntriesKept(d.attributes);
    IdentitySaysTheSame(d, NormalIdentity(d), EncodeEntries(d.attributes), EncodeEntries(KeepEntries(d.attributes)));
  }

  // ----- the batch

  /** The two defaults the encoder fills in. */
  function Defaulted(b: Batch): Batch {
    b.(schemaVersion := if b.schemaVersion == [] then SCHEMA_VERSION else b.schemaVersion,
       identity := b.identity.(payloadKind := if b.identity.payloadKind == [] then SCHEMA_VERSION
           else b.identity.payloadKind))
  }

  function BatchSlots(b: Batch, resource: seq<byte>, identity: seq<byte>, metrics: seq<seq<byte>>): seq<Slot> {
    [TextSlot(1, b.schemaVersion), ChunkSlot(2, [resource]), ChunkSlot(3, [identity]), TextSlot(4, b.ingressId),
     NumberSlot(5, b.ingressAt), NumberSlot(6, b.emittedAt), ChunkSlot(20, metrics)]
  }

  function EncodeBatch(batch: Batch): seq<byte> {
    var b := Defaulted(batch);
    EncodeMessage(BatchSlots(b, EncodeResource(b.resource), EncodeIdentity(b.identity), EncodeMetrics(b.metrics)))
  }

  function DecodeBatch(bytes: seq<byte>): Option<Batch> {
    match ParseFields(bytes)
    case None => None
    case Some(fields) => BatchOf(fields)
  }

  /** An absent submessage reads as a blank one. */
  function BatchOf(fields: seq<Field>): Option<Batch> {
    var resource := TextAt(fields, 2);
    var identity := TextAt(fields, 3);
    match (DecodeResource(resource), DecodeIdentity(identity), MetricsAt(fields, 20))
    case (Some(r), Some(d), Some(metrics)) =>
      Some(Batch(TextAt(fields, 1), r, d, TextAt(fields, 4), NumberAt(fields, 5), NumberAt(fields, 6), metrics))
    case _ => None
  }

  /** The batch as a reader sees it: defaults filled in, negative zeros read as zero, and at every level
      the elements that have nothing left to say dropped. */
  function NormalBatch(batch: Batch): Batch {
    var b := Defaulted(batch);
    b.(resource := NormalResource(b.resource), identity := NormalIdentity(b.identity),
        metrics := KeepMetrics(b.metrics))
  }

  lemma BatchOrdered(b: Batch, resource: seq<byte>, identity: seq<byte>, metrics: seq<seq<byte>>)
    ensures var slots := BatchSlots(b, resource, identity, metrics);
            && Ordered(slots) && |slots| == 7
            && slots[1] == ChunkSlot(2, [resource]) && slots[2] == ChunkSlot(3, [identity])
            && slots[6] == ChunkSlot(20, metrics)
  {
  }

  lemma BatchScalarsRead(b: Batch, resource: seq<byte>, identity: seq<byte>, metrics: seq<seq<byte>>,
      fields: seq<Field>)
    requires AllReadBack(fields, BatchSlots(b, resource, identity, metrics))
    ensures TextAt(fields, 1) == b.schemaVersion && TextAt(fields, 2) == resource && TextAt(fields, 3) == identity
    ensures TextAt(fields, 4) == b.ingressId && NumberAt(fields, 5) == b.ingressAt && NumberAt(fields, 6) == b.emittedAt
  {
    var slots := BatchSlots(b, resource, identity, metrics);
    assert ReadsBack(fields, slots[0]) && ReadsBack(fields, slots[1]) && ReadsBack(fields, slots[2]);
    assert ReadsBack(fields, slots[3]) && ReadsBack(fields, slots[4]) && ReadsBack(fields, slots[5]);
    TextReads(fields, 1, b.schemaVersion);
    TextReads(fields, 2, resource);
    TextReads(fields, 3, identity);
    TextReads(fields, 4, b.ingressId);
  }

  /** For a batch with its defaults filled in. */
  lemma BatchPartsRead(b: Batch, slots: seq<Slot>)
    requires slots == BatchSlots(b, EncodeResource(b.resource), EncodeIdentity(b.identity), EncodeMetrics(b.metrics))
    requires |EncodeMessage(slots)| < UINT64_LIMIT
    ensures var fields := MessageFields(slots);
            && ParseFields(EncodeMessage(slots)) == Some(fields) && AllReadBack(fields, slots)
            && DecodeResource(EncodeResource(b.resource)) == Some(NormalResource(b.resource))
            && DecodeIdentity(EncodeIdentity(b.identity)) == Some(NormalIdentity(b.identity))
            && MetricsAt(fields, 20) == Some(KeepMetrics(b.metrics))
  {
    BatchOrdered(b, EncodeResource(b.resource), EncodeIdentity(b.identity), EncodeMetrics(b.metrics));
    OrderedIsDistinct(slots);
    MessageReadsBack(slots);
    ChunkIsPart(slots, 1, 0);
    ResourceRoundTrip(b.resource);
    ChunkIsPart(slots, 2, 0);
    IdentityRoundTrip(b.identity);
    MetricsRead(slots, 6, b.metrics);
  }

  lemma BatchAssembles(b: Batch, resource: seq<byte>, identity: seq<byte>, metrics: seq<seq<byte>>, fields: seq<Field>)
    requires AllReadBack(fields, BatchSlots(b, resource, identity, metrics))
    requires DecodeResource(resource) == Some(NormalResource(b.resource))
        && DecodeIdentity(identity) == Some(NormalIdentity(b.identity))
    requires MetricsAt(fields, 20) == Some(KeepMetrics(b.metrics))
    ensures BatchOf(fields)
         == Some(b.(resource := NormalResource(b.resource), identity := NormalIdentity(b.identity),
             metrics := KeepMetrics(b.metrics)))
  {
    BatchScalarsRead(b, resource, identity, metrics, fields);
  }

  /** The round trip through all four levels. A Go slice is never as long as the bound. */
  lemma BatchRoundTrip(batch: Batch)
    requires |EncodeBatch(batch)| < UINT64_LIMIT
    ensures DecodeBatch(EncodeBatch(batch)) == Some(NormalBatch(batch))
  {
    var b := Defaulted(batch);
    var resource, identity, metrics := EncodeResource(b.resource), EncodeIdentity(b.identity), EncodeMetrics(b.metrics);
    var slots := BatchSlots(b, resource, identity, metrics);
    BatchPartsRead(b, slots);
    BatchAssembles(b, resource, identity, metrics, MessageFields(slots));
  }

  lemma BatchSaysTheSame(b: Batch, c: Batch, resource: seq<byte>, identity: seq<byte>, metrics: seq<seq<byte>>,
      metrics': seq<seq<byte>>)
    requires c == b.(resource := c.resource, identity := c.identity, metrics := c.metrics)
        && NonEmpty(metrics') == NonEmpty(metrics)
    ensures EncodeMessage(BatchSlots(c, resource, identity, metrics'))
        == EncodeMessage(BatchSlots(b, resource, identity, metrics))
  {
    SameFields(BatchSlots(c, resource, identity, metrics'), BatchSlots(b, resource, identity, metrics));
  }

  lemma BatchCanonical(batch: Batch)
    ensures EncodeBatch(NormalBatch(batch)) == EncodeBatch(batch)
  {
    var b := Defaulted(batch);
    ResourceCanonical(b.resource);
    IdentityCanonical(b.identity);
    MetricsKept(b.metrics);
    BatchSaysTheSame(b, NormalBatch(batch), EncodeResource(b.resource), EncodeIdentity(b.identity),
                     EncodeMetrics(b.metrics), EncodeMetrics(KeepMetrics(b.metrics)));
  }

  /** Two batches are written the same way exactly when they have the same normal form: on batches in
      normal form the encoder is injective. */
  lemma SameBytesIffSameNormalForm(a: Batch, b: Batch)
    requires |EncodeBatch(a)| < UINT64_LIMIT && |EncodeBatch(b)| < UINT64_LIMIT
    ensures EncodeBatch(a) == EncodeBatch(b) <==> NormalBatch(a) == NormalBatch(b)
  {
    BatchRoundTrip(a);
    BatchRoundTrip(b);
    BatchCanonical(a);
    BatchCanonical(b);
  }
}
