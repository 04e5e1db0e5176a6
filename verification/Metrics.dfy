/** The metric batch as data: what its fields mean on the wire, how a reader takes them back, and the
    normal form in which nothing is lost. Strings are their bytes; doubles are their bit patterns. */
module Metrics {
  import opened Bytes
  import opened Results
  import opened Wire

  type Text = seq<byte>
  type int32 = n: int | -0x8000_0000 <= n < 0x8000_0000

  const SCHEMA_VERSION: Text :=
    [115, 101, 114, 118, 105, 99, 101, 114, 97, 100, 97, 114, 46, 109, 101, 116, 114, 105, 99, 46, 118, 49]

  datatype Entry = Entry(key: Text, value: Text)

  datatype Resource = Resource(
    agentId: Text, gatewayId: Text, partition: Text, serviceName: Text, serviceType: Text, hostId: Text,
    hostIp: Text, targetDeviceIp: Text, deviceId: Text, kvStoreId: Text, attributes: seq<Entry>)

  datatype Identity = Identity(
    source: Text, payloadKind: Text, producerId: Text, producerKind: Text, attestedBy: Text, attributes: seq<Entry>)

  datatype Point = Point(
    value: uint64, rawValue: Text, rawValueType: int32, observedAt: uint64, startTime: uint64, resetAnchor: Text,
    ifIndex: int32, interfaceUid: Text, seriesIdentityHint: Text, attributes: seq<Entry>, metadata: seq<Entry>)

  datatype Metric = Metric(
    name: Text, metricType: Text, kind: int32, temporality: int32, isMonotonic: bool, unit: Text, scale: uint64,
    counterWidth: uint32, points: seq<Point>, tags: seq<Entry>, metadata: seq<Entry>, thresholds: seq<Entry>)

  datatype Batch = Batch(
    schemaVersion: Text, resource: Resource, identity: Identity, ingressId: Text, ingressAt: uint64,
    emittedAt: uint64, metrics: seq<Metric>)

  // ----- scalars

  /** A 32-bit integer as protobuf writes it: a negative one sign-extended to 64 bits. */
  function SignExtend(v: int32): uint64 {
    if v < 0 then v + UINT64_LIMIT else v
  }

  /** The low 32 bits, as a signed number. */
  function Truncate(n: uint64): int32 {
    var low := n % UINT32_LIMIT;
    if low < 0x8000_0000 then low else low - UINT32_LIMIT
  }

  lemma TruncateInvertsSignExtend(v: int32)
    ensures Truncate(SignExtend(v)) == v && (SignExtend(v) == 0 <==> v == 0)
  {
  }

  function Bit(b: bool): uint64 {
    if b then 1 else 0
  }

  function Low32(n: uint64): uint32 {
    n % UINT32_LIMIT
  }

  function TextSlot(num: nat, text: Text): Slot {
    ChunkSlot(num, [text])
  }

  // ----- lists of encoded elements

  function EncodeAll<A>(encode: A -> seq<byte>, items: seq<A>): (chunks: seq<seq<byte>>)
    ensures |chunks| == |items| && forall i | 0 <= i < |items| :: chunks[i] == encode(items[i])
  {
    seq(|items|, i requires 0 <= i < |items| => encode(items[i]))
  }

  function DecodeAll<A>(decode: seq<byte> -> Option<A>, chunks: seq<seq<byte>>): Option<seq<A>> {
    if chunks == [] then Some([])
    else
      match (DecodeAll(decode, chunks[..|chunks| - 1]), decode(chunks[|chunks| - 1]))
      case (Some(init), Some(last)) => Some(init + [last])
      case _ => None
  }

  /** The normal forms of the elements, blank ones dropped. */
  function Keep<A(==)>(normal: A -> A, blank: A, items: seq<A>): seq<A> {
    if items == [] then []
    else
      var last := normal(items[|items| - 1]);
      Keep(normal, blank, items[..|items| - 1]) + (if last == blank then [] else [last])
  }

  lemma {:induction false} DecodeInvertsEncodeAll<A>(
      encode: A -> seq<byte>, decode: seq<byte> -> Option<A>, normal: A -> A, blank: A, items: seq<A>)
    requires forall i | 0 <= i < |items| :: encode(items[i]) == [] <==> normal(items[i]) == blank
    requires forall i | 0 <= i < |items| ::
        encode(items[i]) != [] ==> decode(encode(items[i])) == Some(normal(items[i]))
    ensures DecodeAll(decode, NonEmpty(EncodeAll(encode, items))) == Some(Keep(normal, blank, items))
  {
    if items != [] {
      var init, last := items[..|items| - 1], items[|items| - 1];
      DecodeInvertsEncodeAll(encode, decode, normal, blank, init);
      var chunks := EncodeAll(encode, items);
      assert chunks[..|chunks| - 1] == EncodeAll(encode, init);
      var before := NonEmpty(EncodeAll(encode, init));
      var kept := Keep(normal, blank, init);
      if encode(last) == [] {
        assert before + [] == before && kept + [] == kept;
      } else {
        assert (before + [encode(last)])[..|before|] == before;
      }
    }
  }

  lemma {:induction false} KeepEncodesTheSame<A>(encode: A -> seq<byte>, normal: A -> A, blank: A, items: seq<A>)
    requires forall i | 0 <= i < |items| :: encode(items[i]) == [] <==> normal(items[i]) == blank
    requires forall i | 0 <= i < |items| :: encode(normal(items[i])) == encode(items[i])
    ensures NonEmpty(EncodeAll(encode, Keep(normal, blank, items))) == NonEmpty(EncodeAll(encode, items))
  {
    if items != [] {
      var init, last := items[..|items| - 1], items[|items| - 1];
      KeepEncodesTheSame(encode, normal, blank, init);
      var chunks, kept := EncodeAll(encode, items), Keep(normal, blank, init);
      assert chunks[..|chunks| - 1] == EncodeAll(encode, init);
      if normal(last) != blank {
        assert EncodeAll(encode, kept + [normal(last)]) == EncodeAll(encode, kept) + [encode(last)];
        NonEmptySnoc(EncodeAll(encode, kept), encode(last));
      } else {
        assert kept + [] == kept;
      }
    }
  }

  lemma NonEmptySnoc(chunks: seq<seq<byte>>, last: seq<byte>)
    ensures NonEmpty(chunks + [last]) == NonEmpty(chunks) + (if last == [] then [] else [last])
  {
    assert (chunks + [last])[..|chunks|] == chunks;
  }

  lemma {:induction false} KeepNothing<A>(encode: A -> seq<byte>, normal: A -> A, blank: A, items: seq<A>)
    requires forall i | 0 <= i < |items| :: encode(items[i]) == [] <==> normal(items[i]) == blank
    ensures Keep(normal, blank, items) == [] <==> NonEmpty(EncodeAll(encode, items)) == []
  {
    if items != [] {
      KeepNothing(encode, normal, blank, items[..|items| - 1]);
      assert EncodeAll(encode, items)[..|items| - 1] == EncodeAll(encode, items[..|items| - 1]);
    }
  }

  // ----- entries

  const BLANK_ENTRY := Entry([], [])

  function EntrySlots(e: Entry): seq<Slot> {
    [TextSlot(1, e.key), TextSlot(2, e.value)]
  }

  function EncodeEntry(e: Entry): seq<byte> {
    EncodeMessage(EntrySlots(e))
  }

  function DecodeEntry(bytes: seq<byte>): Option<Entry> {
    match ParseFields(bytes)
    case None => None
    case Some(fields) => Some(Entry(TextAt(fields, 1), TextAt(fields, 2)))
  }

  function SameEntry(e: Entry): Entry {
    e
  }

  lemma TextReads(fields: seq<Field>, num: nat, text: Text)
    requires ReadsBack(fields, TextSlot(num, text))
    ensures TextAt(fields, num) == text
  {
    NonEmptyOne(text);
  }

  lemma TextSaysNothing(num: nat, text: Text)
    ensures SaysNothing(TextSlot(num, text)) <==> text == []
  {
    NonEmptyOne(text);
  }

  lemma EntryRoundTrip(e: Entry)
    requires |EncodeEntry(e)| < UINT64_LIMIT
    ensures DecodeEntry(EncodeEntry(e)) == Some(e)
  {
    var slots := EntrySlots(e);
    MessageReadsBack(slots);
    assert slots[0] == TextSlot(1, e.key) && slots[1] == TextSlot(2, e.value);
    TextReads(MessageFields(slots), 1, e.key);
    TextReads(MessageFields(slots), 2, e.value);
  }

  lemma EntryBlank(e: Entry)
    ensures EncodeEntry(e) == [] <==> e == BLANK_ENTRY
  {
    var slots := EntrySlots(e);
    EmptyMessage(slots);
    TextSaysNothing(1, e.key);
    TextSaysNothing(2, e.value);
    assert slots[0] == TextSlot(1, e.key) && slots[1] == TextSlot(2, e.value);
  }

  function EncodeEntries(entries: seq<Entry>): seq<seq<byte>> {
    EncodeAll(EncodeEntry, entries)
  }

  function EntriesAt(fields: seq<Field>, num: nat): Option<seq<Entry>> {
    DecodeAll(DecodeEntry, ChunksAt(fields, num))
  }

  function KeepEntries(entries: seq<Entry>): seq<Entry> {
    Keep(SameEntry, BLANK_ENTRY, entries)
  }

  lemma EntriesRead(slots: seq<Slot>, i: nat, entries: seq<Entry>)
    requires Ordered(slots) && |EncodeMessage(slots)| < UINT64_LIMIT
    requires i < |slots| && slots[i].ChunkSlot? && slots[i].chunks == EncodeEntries(entries)
        && ReadsBack(MessageFields(slots), slots[i])
    ensures EntriesAt(MessageFields(slots), slots[i].num) == Some(KeepEntries(entries))
  {
    OrderedIsDistinct(slots);
    forall j | 0 <= j < |entries|
      ensures EncodeEntry(entries[j]) == [] <==> SameEntry(entries[j]) == BLANK_ENTRY
      ensures DecodeEntry(EncodeEntry(entries[j])) == Some(SameEntry(entries[j]))
    {
      ChunkIsPart(slots, i, j);
      EntryRoundTrip(entries[j]);
      EntryBlank(entries[j]);
    }
    DecodeInvertsEncodeAll(EncodeEntry, DecodeEntry, SameEntry, BLANK_ENTRY, entries);
  }

  lemma EntriesKept(entries: seq<Entry>)
    ensures NonEmpty(EncodeEntries(entries)) == [] <==> KeepEntries(entries) == []
    ensures NonEmpty(EncodeEntries(KeepEntries(entries))) == NonEmpty(EncodeEntries(entries))
  {
    forall j | 0 <= j < |entries| ensures EncodeEntry(entries[j]) == [] <==> SameEntry(entries[j]) == BLANK_ENTRY {
      EntryBlank(entries[j]);
    }
    KeepNothing(EncodeEntry, SameEntry, BLANK_ENTRY, entries);
    KeepEncodesTheSame(EncodeEntry, SameEntry, BLANK_ENTRY, entries);
  }

  // ----- points

  const BLANK_POINT := Point(0, [], 0, 0, 0, [], 0, [], [], [], [])

  /** A point's slots, its entries already encoded. */
  function PointSlots(p: Point, attributes: seq<seq<byte>>, metadata: seq<seq<byte>>): seq<Slot> {
    [DoubleSlot(1, p.value), TextSlot(2, p.rawValue), NumberSlot(3, SignExtend(p.rawValueType)),
     NumberSlot(4, p.observedAt), NumberSlot(5, p.startTime), TextSlot(6, p.resetAnchor),
     NumberSlot(7, SignExtend(p.ifIndex)), TextSlot(8, p.interfaceUid), TextSlot(9, p.seriesIdentityHint),
     ChunkSlot(20, attributes), ChunkSlot(21, metadata)]
  }

  function EncodePoint(p: Point): seq<byte> {
    EncodeMessage(PointSlots(p, EncodeEntries(p.attributes), EncodeEntries(p.metadata)))
  }

  function DecodePoint(bytes: seq<byte>): Option<Point> {
    match ParseFields(bytes)
    case None => None
    case Some(fields) => PointOf(fields)
  }

  function PointOf(fields: seq<Field>): Option<Point> {
    match (EntriesAt(fields, 20), EntriesAt(fields, 21))
    case (Some(attributes), Some(metadata)) =>
      Some(Point(DoubleAt(fields, 1), TextAt(fields, 2), Truncate(NumberAt(fields, 3)), NumberAt(fields, 4),
                 NumberAt(fields, 5), TextAt(fields, 6), Truncate(NumberAt(fields, 7)), TextAt(fields, 8),
                 TextAt(fields, 9), attributes, metadata))
    case _ => None
  }

  /** A point as a reader sees it: a negative zero reads as zero, blank entries are gone. */
  function NormalPoint(p: Point): Point {
    p.(value := PlusZero(p.value), attributes := KeepEntries(p.attributes), metadata := KeepEntries(p.metadata))
  }

  lemma PointOrdered(p: Point, attributes: seq<seq<byte>>, metadata: seq<seq<byte>>)
    ensures var slots := PointSlots(p, attributes, metadata);
            Ordered(slots) && |slots| == 11 && slots[9] == ChunkSlot(20, attributes)
                && slots[10] == ChunkSlot(21, metadata)
  {
  }

  lemma PointScalarsRead(p: Point, attributes: seq<seq<byte>>, metadata: seq<seq<byte>>, fields: seq<Field>)
    requires AllReadBack(fields, PointSlots(p, attributes, metadata))
    ensures DoubleAt(fields, 1) == PlusZero(p.value) && Truncate(NumberAt(fields, 3)) == p.rawValueType
    ensures NumberAt(fields, 4) == p.observedAt && NumberAt(fields, 5) == p.startTime
        && Truncate(NumberAt(fields, 7)) == p.ifIndex
    ensures TextAt(fields, 2) == p.rawValue && TextAt(fields, 6) == p.resetAnchor
    ensures TextAt(fields, 8) == p.interfaceUid && TextAt(fields, 9) == p.seriesIdentityHint
  {
    var slots := PointSlots(p, attributes, metadata);
    assert ReadsBack(fields, slots[0]) && ReadsBack(fields, slots[2]) && ReadsBack(fields, slots[3]);
    assert ReadsBack(fields, slots[4]) && ReadsBack(fields, slots[6]);
    TruncateInvertsSignExtend(p.rawValueType);
    TruncateInvertsSignExtend(p.ifIndex);
    assert ReadsBack(fields, slots[1]) && ReadsBack(fields, slots[5]) && ReadsBack(fields, slots[7])
        && ReadsBack(fields, slots[8]);
    TextReads(fields, 2, p.rawValue);
    TextReads(fields, 6, p.resetAnchor);
    TextReads(fields, 8, p.interfaceUid);
    TextReads(fields, 9, p.seriesIdentityHint);
  }

  lemma PointRoundTrip(p: Point)
    requires |EncodePoint(p)| < UINT64_LIMIT
    ensures DecodePoint(EncodePoint(p)) == Some(NormalPoint(p))
  {
    var attributes, metadata := EncodeEntries(p.attributes), EncodeEntries(p.metadata);
    var slots := PointSlots(p, attributes, metadata);
    PointOrdered(p, attributes, metadata);
    MessageReadsBack(slots);
    PointScalarsRead(p, attributes, metadata, MessageFields(slots));
    EntriesRead(slots, 9, p.attributes);
    EntriesRead(slots, 10, p.metadata);
  }

  lemma PointSaysNothing(p: Point, attributes: seq<seq<byte>>, metadata: seq<seq<byte>>)
    ensures AllSayNothing(PointSlots(p, attributes, metadata))
       <==> NonEmpty(attributes) == [] && NonEmpty(metadata) == []
            && p.(value := PlusZero(p.value), attributes := [], metadata := []) == BLANK_POINT
  {
    var slots := PointSlots(p, attributes, metadata);
    PointTextsSayNothing(p);
    TruncateInvertsSignExtend(p.rawValueType);
    TruncateInvertsSignExtend(p.ifIndex);
    if AllSayNothing(slots) {
      assert SaysNothing(slots[0]) && SaysNothing(slots[1]) && SaysNothing(slots[2]) && SaysNothing(slots[3]);
      assert SaysNothing(slots[4]) && SaysNothing(slots[5]) && SaysNothing(slots[6]) && SaysNothing(slots[7]);
      assert SaysNothing(slots[8]) && SaysNothing(slots[9]) && SaysNothing(slots[10]);
    }
  }

  lemma PointTextsSayNothing(p: Point)
    ensures SaysNothing(TextSlot(2, p.rawValue)) <==> p.rawValue == []
    ensures SaysNothing(TextSlot(6, p.resetAnchor)) <==> p.resetAnchor == []
    ensures SaysNothing(TextSlot(8, p.interfaceUid)) <==> p.interfaceUid == []
    ensures SaysNothing(TextSlot(9, p.seriesIdentityHint)) <==> p.seriesIdentityHint == []
  {
    TextSaysNothing(2, p.rawValue);
    TextSaysNothing(6, p.resetAnchor);
    TextSaysNothing(8, p.interfaceUid);
    TextSaysNothing(9, p.seriesIdentityHint);
  }

  lemma PointBlank(p: Point)
    ensures EncodePoint(p) == [] <==> NormalPoint(p) == BLANK_POINT
  {
    var attributes, metadata := EncodeEntries(p.attributes), EncodeEntries(p.metadata);
    EmptyMessage(PointSlots(p, attributes, metadata));
    PointSaysNothing(p, attributes, metadata);
    EntriesKept(p.attributes);
    EntriesKept(p.metadata);
  }

  lemma PointSaysTheSame(p: Point, q: Point, attributes: seq<seq<byte>>, metadata: seq<seq<byte>>,
      attributes': seq<seq<byte>>, metadata': seq<seq<byte>>)
    requires q == p.(value := q.value, attributes := q.attributes, metadata := q.metadata)
        && PlusZero(q.value) == PlusZero(p.value)
    requires NonEmpty(attributes') == NonEmpty(attributes) && NonEmpty(metadata') == NonEmpty(metadata)
    ensures EncodeMessage(PointSlots(q, attributes', metadata')) == EncodeMessage(PointSlots(p, attributes, metadata))
  {
    SameFields(PointSlots(q, attributes', metadata'), PointSlots(p, attributes, metadata));
  }

  lemma PointCanonical(p: Point)
    ensures EncodePoint(NormalPoint(p)) == EncodePoint(p)
  {
    EntriesKept(p.attributes);
    EntriesKept(p.metadata);
    PointSaysTheSame(p, NormalPoint(p), EncodeEntries(p.attributes), EncodeEntries(p.metadata),
                     EncodeEntries(NormalPoint(p).attributes), EncodeEntries(NormalPoint(p).metadata));
  }
}
