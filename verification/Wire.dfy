/** The protobuf wire format the metric encoder writes without a protobuf runtime: varints, tagged
    fields, messages as lists of slots, and a reader that inverts them. */
module Wire {
  import opened Bytes
  import opened Results

  // ----- varints and fixed 64-bit integers

  function Varint(n: nat): (bytes: seq<byte>)
    ensures bytes != []
  {
    if n < 128 then [n] else [128 + n % 128] + Varint(n / 128)
  }

  method AppendUvarint(out: seq<byte>, n: nat) returns (r: seq<byte>)
    ensures r == out + Varint(n)
  {
    r := out;
    var x := n;
    while x >= 128
      invariant r + Varint(x) == out + Varint(n)
    {
      r := r + [128 + x % 128];
      x := x / 128;
    }
    r := r + [x];
  }

  /** One more than the largest value `budget` varint bytes may carry: ten carry 64 bits. */
  function VarintLimit(budget: nat): (limit: nat)
    ensures budget > 0 ==> limit >= 2
  {
    if budget == 0 then 0 else if budget == 1 then 2 else 128 * VarintLimit(budget - 1)
  }

  /** Reads a varint of at most `budget` bytes; the last of them may only be 0 or 1. */
  function ReadVarintWithin(bytes: seq<byte>, budget: nat): (r: Option<(nat, seq<byte>)>)
    ensures r.Some? ==> |r.value.1| < |bytes| && r.value.0 < VarintLimit(budget)
    decreases budget
  {
    if bytes == [] || budget == 0 then None
    else if bytes[0] < 128 then
      if budget == 1 && bytes[0] > 1 then None else Some((bytes[0] as nat, bytes[1..]))
    else
      match ReadVarintWithin(bytes[1..], budget - 1)
      case None => None
      case Some((high, rest)) => Some((bytes[0] - 128 + 128 * high, rest))
  }

  function ReadVarint(bytes: seq<byte>): (r: Option<(uint64, seq<byte>)>)
    ensures r.Some? ==> |r.value.1| < |bytes|
  {
    TenBytesCarry64Bits();
    match ReadVarintWithin(bytes, 10)
    case None => None
    case Some((n, rest)) => Some((n, rest))
  }

  lemma {:induction false} ReadInvertsVarintWithin(n: nat, rest: seq<byte>, budget: nat)
    requires n < VarintLimit(budget)
    ensures ReadVarintWithin(Varint(n) + rest, budget) == Some((n, rest))
    decreases budget
  {
    if n >= 128 {
      assert budget > 1;
      ReadInvertsVarintWithin(n / 128, rest, budget - 1);
      assert (Varint(n) + rest)[1..] == Varint(n / 128) + rest;
    }
  }

  lemma TenBytesCarry64Bits()
    ensures VarintLimit(10) == UINT64_LIMIT
  {
    assert VarintLimit(4) == 0x40_0000;
    assert VarintLimit(7) == 0x800_0000_0000;
    assert VarintLimit(10) == UINT64_LIMIT;
  }

  lemma ReadInvertsVarint(n: uint64, rest: seq<byte>)
    ensures ReadVarint(Varint(n) + rest) == Some((n, rest))
  {
    TenBytesCarry64Bits();
    ReadInvertsVarintWithin(n, rest, 10);
  }

  function LittleEndian(n: nat, width: nat): (bytes: seq<byte>)
    ensures |bytes| == width
  {
    if width == 0 then [] else [n % 256] + LittleEndian(n / 256, width - 1)
  }

  function FromLittleEndian(bytes: seq<byte>): (n: nat)
    ensures n < Power256(|bytes|)
  {
    if bytes == [] then 0 else bytes[0] + 256 * FromLittleEndian(bytes[1..])
  }

  function Power256(width: nat): nat {
    if width == 0 then 1 else 256 * Power256(width - 1)
  }

  lemma {:induction false} LittleEndianInverts(n: nat, width: nat)
    requires n < Power256(width)
    ensures FromLittleEndian(LittleEndian(n, width)) == n
  {
    if width > 0 { LittleEndianInverts(n / 256, width - 1); }
  }

  lemma EightBytesCarry64Bits()
    ensures Power256(8) == UINT64_LIMIT
  {
    assert Power256(4) == UINT32_LIMIT;
  }

  // ----- fields

  datatype Value =
    | Number(n: uint64)
    | Fixed(bits: uint64)
    | Chunk(bytes: seq<byte>)
  {
    function WireType(): nat {
      match this
      case Number(_) => 0
      case Fixed(_) => 1
      case Chunk(_) => 2
    }

    predicate Fits() {
      Chunk? ==> |bytes| < UINT64_LIMIT
    }

    function Encode(): seq<byte> {
      match this
      case Number(n) => Varint(n)
      case Fixed(bits) => LittleEndian(bits, 8)
      case Chunk(bytes) => Varint(|bytes|) + bytes
    }
  }

  datatype Field = Field(num: nat, value: Value) {
    predicate Fits() {
      num * 8 + 7 < UINT64_LIMIT && value.Fits()
    }

    function Encode(): (bytes: seq<byte>)
      ensures bytes != []
    {
      Varint(num * 8 + value.WireType()) + value.Encode()
    }
  }

  function ReadValue(wireType: nat, bytes: seq<byte>): (r: Option<(Value, seq<byte>)>)
    ensures r.Some? ==> |r.value.1| <= |bytes|
  {
    if wireType == 0 then
      match ReadVarint(bytes)
      case None => None
      case Some((n, rest)) => Some((Number(n), rest))
    else if wireType == 1 then
      if |bytes| < 8 then None else EightBytesCarry64Bits(); Some((Fixed(FromLittleEndian(bytes[..8])), bytes[8..]))
    else if wireType == 2 then
      match ReadVarint(bytes)
      case None => None
      case Some((size, rest)) => if |rest| < size then None else Some((Chunk(rest[..size]), rest[size..]))
    else None
  }

  function ReadField(bytes: seq<byte>): (r: Option<(Field, seq<byte>)>)
    ensures r.Some? ==> |r.value.1| < |bytes|
  {
    match ReadVarint(bytes)
    case None => None
    case Some((tag, rest)) =>
      match ReadValue(tag % 8, rest)
      case None => None
      case Some((value, rest')) => Some((Field(tag / 8, value), rest'))
  }

  lemma ReadInvertsValue(v: Value, rest: seq<byte>)
    requires v.Fits()
    ensures ReadValue(v.WireType(), v.Encode() + rest) == Some((v, rest))
  {
    match v
    case Number(n) => ReadInvertsVarint(n, rest);
    case Fixed(bits) =>
      EightBytesCarry64Bits();
      LittleEndianInverts(bits, 8);
      assert (v.Encode() + rest)[..8] == LittleEndian(bits, 8);
      assert (v.Encode() + rest)[8..] == rest;
    case Chunk(bytes) =>
      ReadInvertsVarint(|bytes|, bytes + rest);
      ConcatIsAssociative(Varint(|bytes|), bytes, rest);
      assert (bytes + rest)[..|bytes|] == bytes && (bytes + rest)[|bytes|..] == rest;
  }

  lemma TagParts(num: nat, wireType: nat)
    requires wireType < 8
    ensures (num * 8 + wireType) / 8 == num && (num * 8 + wireType) % 8 == wireType
  {
  }

  /** A field is self-delimiting: reading one off its encoding followed by anything gives back the
      field and exactly what followed. */
  lemma ReadInvertsField(f: Field, rest: seq<byte>)
    requires f.Fits()
    ensures ReadField(f.Encode() + rest) == Some((f, rest))
  {
    var tag := f.num * 8 + f.value.WireType();
    TagParts(f.num, f.value.WireType());
    ConcatIsAssociative(Varint(tag), f.value.Encode(), rest);
    ReadInvertsVarint(tag, f.value.Encode() + rest);
    ReadInvertsValue(f.value, rest);
  }

  function EncodeFields(fields: seq<Field>): seq<byte> {
    if fields == [] then [] else fields[0].Encode() + EncodeFields(fields[1..])
  }

  function ParseFields(bytes: seq<byte>): Option<seq<Field>>
    decreases |bytes|
  {
    if bytes == [] then Some([])
    else
      match ReadField(bytes)
      case None => None
      case Some((field, rest)) =>
        match ParseFields(rest)
        case None => None
        case Some(fields) => Some([field] + fields)
  }

  predicate AllFit(fields: seq<Field>) {
    forall i | 0 <= i < |fields| :: fields[i].Fits()
  }

  lemma {:induction false} ParseInvertsFields(fields: seq<Field>)
    requires AllFit(fields)
    ensures ParseFields(EncodeFields(fields)) == Some(fields)
  {
    if fields != [] {
      ParseInvertsFields(fields[1..]);
      ReadInvertsField(fields[0], EncodeFields(fields[1..]));
      assert [fields[0]] + fields[1..] == fields;
    }
  }

  lemma {:induction false} EncodeFieldsAppend(a: seq<Field>, b: seq<Field>)
    ensures EncodeFields(a + b) == EncodeFields(a) + EncodeFields(b)
  {
    if a == [] {
      assert a + b == b;
    } else {
      assert (a + b)[1..] == a[1..] + b;
      EncodeFieldsAppend(a[1..], b);
      ConcatIsAssociative(a[0].Encode(), EncodeFields(a[1..]), EncodeFields(b));
    }
  }

  // ----- messages

  /** What a message says about one field number. A number, a double or a chunk is written only when
      it is not zero, not a zero of either sign, not empty. */
  datatype Slot =
    | NumberSlot(num: nat, n: uint64)
    | DoubleSlot(num: nat, bits: uint64)
    | ChunkSlot(num: nat, chunks: seq<seq<byte>>)
  {
    function Values(): seq<Value> {
      match this
      case NumberSlot(_, n) => if n == 0 then [] else [Number(n)]
      case DoubleSlot(_, bits) => if IsZeroDouble(bits) then [] else [Fixed(bits)]
      case ChunkSlot(_, chunks) => ChunkValues(NonEmpty(chunks))
    }
  }

  const SIGN_BIT: nat := 0x8000_0000_0000_0000

  /** Positive and negative zero, as IEEE 754 bit patterns. */
  predicate IsZeroDouble(bits: nat) {
    bits == 0 || bits == SIGN_BIT
  }

  function NonEmpty(chunks: seq<seq<byte>>): seq<seq<byte>> {
    if chunks == [] then []
    else NonEmpty(chunks[..|chunks| - 1]) + (if chunks[|chunks| - 1] == [] then [] else [chunks[|chunks| - 1]])
  }

  function ChunkValues(chunks: seq<seq<byte>>): (values: seq<Value>)
    ensures |values| == |chunks| && forall i | 0 <= i < |chunks| :: values[i] == Chunk(chunks[i])
  {
    seq(|chunks|, i requires 0 <= i < |chunks| => Chunk(chunks[i]))
  }

  function Numbered(num: nat, values: seq<Value>): (fields: seq<Field>)
    ensures |fields| == |values| && forall i | 0 <= i < |values| :: fields[i] == Field(num, values[i])
  {
    seq(|values|, i requires 0 <= i < |values| => Field(num, values[i]))
  }

  function MessageFields(slots: seq<Slot>): seq<Field> {
    if slots == [] then []
    else MessageFields(slots[..|slots| - 1]) + Numbered(slots[|slots| - 1].num, slots[|slots| - 1].Values())
  }

  function EncodeMessage(slots: seq<Slot>): seq<byte> {
    EncodeFields(MessageFields(slots))
  }

  /** The values a parsed message has under one field number, in order. */
  function Group(fields: seq<Field>, num: nat): seq<Value> {
    if fields == [] then []
    else
      var last := fields[|fields| - 1];
      Group(fields[..|fields| - 1], num) + (if last.num == num then [last.value] else [])
  }

  lemma {:induction false} GroupAppend(a: seq<Field>, b: seq<Field>, num: nat)
    ensures Group(a + b, num) == Group(a, num) + Group(b, num)
  {
    if b == [] {
      assert a + b == a;
    } else {
      assert (a + b)[..|a + b| - 1] == a + b[..|b| - 1];
      GroupAppend(a, b[..|b| - 1], num);
    }
  }

  lemma {:induction false} GroupNumbered(at: nat, values: seq<Value>, num: nat)
    ensures Group(Numbered(at, values), num) == if at == num then values else []
  {
    if values != [] {
      var init := values[..|values| - 1];
      GroupNumbered(at, init, num);
      assert Numbered(at, values)[..|values| - 1] == Numbered(at, init);
    }
  }

  predicate DistinctNumbers(slots: seq<Slot>) {
    forall i, j | 0 <= i < j < |slots| :: slots[i].num != slots[j].num
  }

  lemma GroupOfLastSlot(slots: seq<Slot>, num: nat)
    requires slots != []
    ensures Group(MessageFields(slots), num)
         == Group(MessageFields(slots[..|slots| - 1]), num) + (if slots[|slots| - 1].num == num
             then slots[|slots| - 1].Values() else [])
  {
    var last := slots[|slots| - 1];
    GroupAppend(MessageFields(slots[..|slots| - 1]), Numbered(last.num, last.Values()), num);
    GroupNumbered(last.num, last.Values(), num);
  }

  lemma {:induction false} GroupAbsent(slots: seq<Slot>, num: nat)
    requires forall i | 0 <= i < |slots| :: slots[i].num != num
    ensures Group(MessageFields(slots), num) == []
  {
    if slots != [] {
      GroupAbsent(slots[..|slots| - 1], num);
      GroupOfLastSlot(slots, num);
    }
  }

  lemma {:induction false} GroupOfSlot(slots: seq<Slot>, i: nat)
    requires i < |slots| && DistinctNumbers(slots)
    ensures Group(MessageFields(slots), slots[i].num) == slots[i].Values()
  {
    GroupOfLastSlot(slots, slots[i].num);
    if i < |slots| - 1 { GroupOfSlot(slots[..|slots| - 1], i); }
    else { GroupAbsent(slots[..|slots| - 1], slots[i].num); }
  }

  // ----- reading a message's slots back

  function ChunksOf(values: seq<Value>): seq<seq<byte>> {
    if values == [] then []
    else
      var last := values[|values| - 1];
      ChunksOf(values[..|values| - 1]) + (if last.Chunk? then [last.bytes] else [])
  }

  /** All chunks under a field number. */
  function ChunksAt(fields: seq<Field>, num: nat): seq<seq<byte>> {
    ChunksOf(Group(fields, num))
  }

  /** The last chunk under a field number, or the empty one. */
  function TextAt(fields: seq<Field>, num: nat): seq<byte> {
    var chunks := ChunksAt(fields, num);
    if chunks == [] then [] else chunks[|chunks| - 1]
  }

  /** The last value under a field number if it is a number, or zero. */
  function NumberAt(fields: seq<Field>, num: nat): uint64 {
    var values := Group(fields, num);
    if values == [] || !values[|values| - 1].Number? then 0 else values[|values| - 1].n
  }

  function DoubleAt(fields: seq<Field>, num: nat): uint64 {
    var values := Group(fields, num);
    if values == [] || !values[|values| - 1].Fixed? then 0 else values[|values| - 1].bits
  }

  function PlusZero(bits: uint64): uint64 {
    if IsZeroDouble(bits) then 0 else bits
  }

  /** Reading the fields at a slot's number gives what the slot says, empty chunks dropped. */
  ghost predicate ReadsBack(fields: seq<Field>, slot: Slot) {
    match slot
    case NumberSlot(num, n) => NumberAt(fields, num) == n
    case DoubleSlot(num, bits) => DoubleAt(fields, num) == PlusZero(bits)
    case ChunkSlot(num, chunks) => ChunksAt(fields, num) == NonEmpty(chunks)
  }

  lemma {:induction false} ChunksOfChunkValues(chunks: seq<seq<byte>>)
    ensures ChunksOf(ChunkValues(chunks)) == chunks
  {
    if chunks != [] {
      ChunksOfChunkValues(chunks[..|chunks| - 1]);
      assert ChunkValues(chunks)[..|chunks| - 1] == ChunkValues(chunks[..|chunks| - 1]);
    }
  }

  lemma SlotReadsBack(slots: seq<Slot>, i: nat)
    requires i < |slots| && DistinctNumbers(slots)
    ensures ReadsBack(MessageFields(slots), slots[i])
  {
    GroupOfSlot(slots, i);
    GroupReadsBack(MessageFields(slots), slots[i]);
  }

  lemma GroupReadsBack(fields: seq<Field>, slot: Slot)
    requires Group(fields, slot.num) == slot.Values()
    ensures ReadsBack(fields, slot)
  {
    if slot.ChunkSlot? { ChunksOfChunkValues(NonEmpty(slot.chunks)); }
  }

  lemma NonEmptyOne(chunk: seq<byte>)
    ensures NonEmpty([chunk]) == if chunk == [] then [] else [chunk]
  {
    assert [chunk][..0] == [];
  }

  lemma {:induction false} FieldIsPart(fields: seq<Field>, i: nat)
    requires i < |fields|
    ensures |fields[i].Encode()| <= |EncodeFields(fields)|
  {
    var first, rest := fields[0].Encode(), EncodeFields(fields[1..]);
    assert EncodeFields(fields) == first + rest;
    assert |EncodeFields(fields)| == |first| + |rest|;
    if i > 0 {
      FieldIsPart(fields[1..], i - 1);
      assert fields[1..][i - 1] == fields[i];
    }
  }

  predicate SmallNumbers(slots: seq<Slot>) {
    forall i | 0 <= i < |slots| :: slots[i].num < 1000
  }

  lemma {:induction false} MessageNumbersFit(slots: seq<Slot>)
    requires SmallNumbers(slots)
    ensures forall i | 0 <= i < |MessageFields(slots)| :: MessageFields(slots)[i].num < 1000
  {
    if slots != [] { MessageNumbersFit(slots[..|slots| - 1]); }
  }

  /** A message no longer than a 64-bit size can say parses back to its fields. */
  lemma MessageParses(slots: seq<Slot>)
    requires SmallNumbers(slots) && |EncodeMessage(slots)| < UINT64_LIMIT
    ensures ParseFields(EncodeMessage(slots)) == Some(MessageFields(slots))
  {
    var fields := MessageFields(slots);
    MessageNumbersFit(slots);
    forall i | 0 <= i < |fields| ensures fields[i].Fits() {
      FieldIsPart(fields, i);
    }
    ParseInvertsFields(fields);
  }

  /** A chunk is no longer than the message it is part of. */
  lemma ChunkIsPart(slots: seq<Slot>, i: nat, j: nat)
    requires i < |slots| && DistinctNumbers(slots) && slots[i].ChunkSlot? && j < |slots[i].chunks|
    ensures |slots[i].chunks[j]| <= |EncodeMessage(slots)|
  {
    var chunk := slots[i].chunks[j];
    if chunk != [] {
      NonEmptyHas(slots[i].chunks, j);
      var k :| 0 <= k < |NonEmpty(slots[i].chunks)| && NonEmpty(slots[i].chunks)[k] == chunk;
      GroupOfSlot(slots, i);
      GroupComesFrom(MessageFields(slots), slots[i].num, k);
      var f :| 0 <= f < |MessageFields(slots)| && MessageFields(slots)[f].value == slots[i].Values()[k];
      FieldIsPart(MessageFields(slots), f);
    }
  }

  lemma {:induction false} NonEmptyHas(chunks: seq<seq<byte>>, j: nat)
    requires j < |chunks| && chunks[j] != []
    ensures exists k | 0 <= k < |NonEmpty(chunks)| :: NonEmpty(chunks)[k] == chunks[j]
  {
    var init := chunks[..|chunks| - 1];
    if j < |init| {
      NonEmptyHas(init, j);
      var k :| 0 <= k < |NonEmpty(init)| && NonEmpty(init)[k] == init[j];
      assert NonEmpty(chunks)[k] == chunks[j];
    } else {
      assert NonEmpty(chunks)[|NonEmpty(init)|] == chunks[j];
    }
  }

  lemma {:induction false} GroupComesFrom(fields: seq<Field>, num: nat, k: nat)
    requires k < |Group(fields, num)|
    ensures exists j | 0 <= j < |fields| :: fields[j].value == Group(fields, num)[k]
  {
    var init := fields[..|fields| - 1];
    if k < |Group(init, num)| {
      GroupComesFrom(init, num, k);
      var j :| 0 <= j < |init| && init[j].value == Group(init, num)[k];
      assert fields[j].value == Group(fields, num)[k];
    } else {
      assert fields[|fields| - 1].value == Group(fields, num)[k];
    }
  }

  /** Two slots say the same: the same number, number for number, up to the sign of a zero and
      empty chunks. */
  predicate SaysTheSame(a: Slot, b: Slot) {
    match (a, b)
    case (NumberSlot(num, n), NumberSlot(num', n')) => num == num' && n == n'
    case (DoubleSlot(num, bits), DoubleSlot(num', bits')) => num == num' && PlusZero(bits) == PlusZero(bits')
    case (ChunkSlot(num, chunks), ChunkSlot(num', chunks')) => num == num' && NonEmpty(chunks) == NonEmpty(chunks')
    case _ => false
  }

  lemma {:induction false} SameFields(a: seq<Slot>, b: seq<Slot>)
    requires |a| == |b| && forall i | 0 <= i < |a| :: a[i] == b[i] || SaysTheSame(a[i], b[i])
    ensures MessageFields(a) == MessageFields(b)
  {
    if a != [] { SameFields(a[..|a| - 1], b[..|b| - 1]); }
  }

  predicate SaysNothing(slot: Slot) {
    match slot
    case NumberSlot(_, n) => n == 0
    case DoubleSlot(_, bits) => IsZeroDouble(bits)
    case ChunkSlot(_, chunks) => NonEmpty(chunks) == []
  }

  lemma {:induction false} NoFields(slots: seq<Slot>)
    ensures MessageFields(slots) == [] <==> forall i | 0 <= i < |slots| :: SaysNothing(slots[i])
  {
    if slots != [] {
      var init, last := slots[..|slots| - 1], slots[|slots| - 1];
      NoFields(init);
      assert MessageFields(slots) == [] <==> MessageFields(init) == [] && SaysNothing(last);
      assert slots == init + [last];
    }
  }

  predicate AllSayNothing(slots: seq<Slot>) {
    forall i | 0 <= i < |slots| :: SaysNothing(slots[i])
  }

  /** Nothing is written exactly when no slot has anything to say. */
  lemma EmptyMessage(slots: seq<Slot>)
    ensures EncodeMessage(slots) == [] <==> AllSayNothing(slots)
  {
    NoFields(slots);
  }

  /** Slots in the order of their numbers, all of them small. */
  predicate Ordered(slots: seq<Slot>) {
    && (forall i | 0 <= i < |slots| - 1 :: slots[i].num < slots[i + 1].num)
    && SmallNumbers(slots)
  }

  lemma {:induction false} OrderedIsDistinct(slots: seq<Slot>)
    requires Ordered(slots)
    ensures DistinctNumbers(slots)
  {
    forall i, j | 0 <= i < j < |slots| ensures slots[i].num < slots[j].num { NumbersIncrease(slots, i, j); }
  }

  lemma {:induction false} NumbersIncrease(slots: seq<Slot>, i: nat, j: nat)
    requires Ordered(slots) && i < j < |slots|
    ensures slots[i].num < slots[j].num
  {
    if i + 1 < j { NumbersIncrease(slots, i, j - 1); }
  }

  ghost predicate AllReadBack(fields: seq<Field>, slots: seq<Slot>) {
    forall i | 0 <= i < |slots| :: ReadsBack(fields, slots[i])
  }

  /** Whatever was written reads back, slot by slot. */
  lemma MessageReadsBack(slots: seq<Slot>)
    requires Ordered(slots) && |EncodeMessage(slots)| < UINT64_LIMIT
    ensures ParseFields(EncodeMessage(slots)) == Some(MessageFields(slots))
    ensures AllReadBack(MessageFields(slots), slots)
  {
    OrderedIsDistinct(slots);
    MessageParses(slots);
    forall i | 0 <= i < |slots| ensures ReadsBack(MessageFields(slots), slots[i]) { SlotReadsBack(slots, i); }
  }
}
