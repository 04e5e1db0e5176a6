/** RTP over an RTSP connection: interleaved frames (section 10.12 of RFC 2326) and RTP headers
    (sections 5.1 and 5.3.1 of RFC 3550), each parser against the encoder it inverts. */
module Rtp {
  import opened Bytes
  import opened Results
  import opened H264
  import opened H264Runs
  import opened H264Packetizer

  const DOLLAR: byte := 36

  datatype Frame = Frame(channel: byte, payload: seq<byte>)

  datatype WireError = BadInterleaved | PacketTooShort

  function ParseInterleavedFrame(data: seq<byte>): Result<Frame, WireError> {
    if |data| < 4 || data[0] != DOLLAR then Err(BadInterleaved)
    else
      var size := BigEndian16(data[2], data[3]);
      if |data| < 4 + size then Err(BadInterleaved) else Ok(Frame(data[1], data[4..4 + size]))
  }

  function EncodeFrame(f: Frame): seq<byte>
    requires |f.payload| < UINT16_LIMIT
  {
    [DOLLAR, f.channel] + PutBigEndian16(|f.payload|) + f.payload
  }

  /** A frame is parsed exactly when the data begins with its encoding, whatever follows. */
  lemma FrameParsedIffPrefix(data: seq<byte>, f: Frame)
    ensures ParseInterleavedFrame(data) == Ok(f) <==> |f.payload| < UINT16_LIMIT && EncodeFrame(f) <= data
  {
    if ParseInterleavedFrame(data) == Ok(f) {
      PutInvertsBigEndian16(data[2], data[3]);
      assert data[..2] == [DOLLAR, f.channel] && data[2..4] == [data[2], data[3]];
      ThreeSlices(data, 0, 2, 4, 4 + |f.payload|);
    }
    if |f.payload| < UINT16_LIMIT && EncodeFrame(f) <= data {
      assert data[..4 + |f.payload|] == EncodeFrame(f);
      assert data[2..4] == EncodeFrame(f)[2..4] == PutBigEndian16(|f.payload|);
      assert data[4..4 + |f.payload|] == EncodeFrame(f)[4..] == f.payload;
    }
  }

  /** What the parser keeps of an RTP packet. */
  datatype Received = Received(payload: seq<byte>, marker: bool, timestamp: uint32)

  function ParseRtpPacket(data: seq<byte>): Result<Received, WireError> {
    if |data| < 12 then Err(PacketTooShort)
    else
      var offset := 12 + data[0] % 16 * 4;
      if |data| < offset then Err(PacketTooShort)
      else if data[0] / 16 % 2 == 1 then
        if |data| < offset + 4 then Err(PacketTooShort)
        else
          var end := offset + 4 + BigEndian16(data[offset + 2], data[offset + 3]) * 4;
          if |data| < end then Err(PacketTooShort) else Ok(Keep(data, end))
      else Ok(Keep(data, offset))
  }

  function Keep(data: seq<byte>, offset: nat): Received
    requires 12 <= |data| && offset <= |data|
  {
    Received(data[offset..], data[1] >= 128, BigEndian32(data[4..8]))
  }

  datatype Extension = Extension(profile: seq<byte>, words: seq<byte>) {
    predicate Valid() {
      |profile| == 2 && |words| % 4 == 0 && |words| / 4 < UINT16_LIMIT
    }

    function Encode(): seq<byte>
      requires Valid()
    {
      profile + PutBigEndian16(|words| / 4) + words
    }
  }

  /** An RTP packet field by field. `versionAndPadding` is the top three bits of the first byte, which
      the parser ignores: padding, if any, stays in the payload. */
  datatype RtpPacket = RtpPacket(
    versionAndPadding: nat, payloadType: nat, sequence: seq<byte>, ssrc: seq<byte>, csrcs: seq<byte>,
    extension: Option<Extension>, kept: Received)
  {
    predicate Valid() {
      && versionAndPadding < 8 && payloadType < 128 && |sequence| == 2 && |ssrc| == 4
      && |csrcs| % 4 == 0 && |csrcs| / 4 < 16
      && (extension.Some? ==> extension.value.Valid())
    }

    function FirstByte(): byte
      requires Valid()
    {
      versionAndPadding * 32 + (if extension.Some? then 16 else 0) + |csrcs| / 4
    }

    function Fixed(): (bytes: seq<byte>)
      requires Valid()
      ensures |bytes| == 12
    {
      [FirstByte(), (if kept.marker then 128 else 0) + payloadType] + sequence + PutBigEndian32(kept.timestamp) + ssrc
    }

    function Encode(): seq<byte>
      requires Valid()
    {
      Fixed() + csrcs + (if extension.Some? then extension.value.Encode() else []) + kept.payload
    }
  }

  lemma FirstByteBits(top: nat, extended: bool, count: nat)
    requires top < 8 && count < 16
    ensures var b := top * 32 + (if extended then 16 else 0) + count; b % 16 == count && (b / 16 % 2 == 1 <==> extended)
  {
  }

  lemma FixedFields(p: RtpPacket, data: seq<byte>)
    requires p.Valid() && p.Fixed() <= data
    ensures data[0] % 16 == |p.csrcs| / 4 && (data[0] / 16 % 2 == 1 <==> p.extension.Some?)
    ensures (data[1] >= 128) == p.kept.marker && BigEndian32(data[4..8]) == p.kept.timestamp
  {
    var fixed := p.Fixed();
    assert data[..12] == fixed;
    assert data[0] == fixed[0] && data[1] == fixed[1];
    FirstByteBits(p.versionAndPadding, p.extension.Some?, |p.csrcs| / 4);
    assert data[4..8] == fixed[4..8] == PutBigEndian32(p.kept.timestamp);
  }

  /** The header fields say where the payload starts, and the payload is there. */
  lemma ParsesAt(data: seq<byte>, offset: nat, end: nat, kept: Received)
    requires 12 <= offset <= end <= |data| && offset == 12 + data[0] % 16 * 4
    requires if data[0] / 16 % 2 == 1
      then offset + 4 <= |data| && end == offset + 4 + BigEndian16(data[offset + 2], data[offset + 3]) * 4
      else end == offset
    requires (data[1] >= 128) == kept.marker && BigEndian32(data[4..8]) == kept.timestamp && data[end..] == kept.payload
    ensures ParseRtpPacket(data) == Ok(kept)
  {
  }

  /** Parsing an encoded packet gives exactly its payload, marker and timestamp, for every CSRC count
      and every extension. */
  lemma ParseInvertsEncode(p: RtpPacket)
    requires p.Valid()
    ensures ParseRtpPacket(p.Encode()) == Ok(p.kept)
  {
    var data := p.Encode();
    var offset := 12 + |p.csrcs|;
    FixedFields(p, data);
    if p.extension.Some? {
      var ext := p.extension.value;
      assert data[offset..] == ext.Encode() + p.kept.payload;
      assert data[offset + 2] == data[offset..][2] == PutBigEndian16(|ext.words| / 4)[0];
      assert data[offset + 3] == data[offset..][3] == PutBigEndian16(|ext.words| / 4)[1];
      assert data[offset + 4 + |ext.words|..] == p.kept.payload;
      ParsesAt(data, offset, offset + 4 + |ext.words|, p.kept);
    } else {
      assert data[offset..] == p.kept.payload;
      ParsesAt(data, offset, offset, p.kept);
    }
  }

  /** Reading the fields off data that parses. */
  function Fields(data: seq<byte>): RtpPacket
    requires ParseRtpPacket(data).Ok?
  {
    var offset, kept := 12 + data[0] % 16 * 4, ParseRtpPacket(data).value;
    var end := |data| - |kept.payload|;
    RtpPacket(data[0] / 32, data[1] % 128, data[2..4], data[8..12], data[12..offset],
              if data[0] / 16 % 2 == 1 then Some(Extension(data[offset..offset + 2], data[offset + 4..end]))
              else None, kept)
  }

  lemma ByteParts(b: byte)
    ensures b == b / 32 * 32 + b / 16 % 2 * 16 + b % 16
  {
    assert b / 32 == b / 16 / 2;
  }

  lemma FieldsHaveLengths(data: seq<byte>)
    requires ParseRtpPacket(data).Ok?
    ensures |Fields(data).csrcs| == data[0] % 16 * 4 && (Fields(data).extension.Some? <==> data[0] / 16 % 2 == 1)
  {
  }

  lemma FieldsValid(data: seq<byte>)
    requires ParseRtpPacket(data).Ok?
    ensures Fields(data).Valid() && Fields(data).FirstByte() == data[0]
  {
    FieldsHaveLengths(data);
    if data[0] / 16 % 2 == 1 { FieldsEncodeExtension(data); }
    ByteParts(data[0]);
  }

  lemma FieldsEncodeFixed(data: seq<byte>)
    requires ParseRtpPacket(data).Ok?
    ensures Fields(data).Valid() && Fields(data).Fixed() == data[..12]
  {
    FieldsValid(data);
    SecondByte(data[1]);
    BigEndian32Injective(PutBigEndian32(BigEndian32(data[4..8])), data[4..8]);
    FixedIsPrefix(data, PutBigEndian32(BigEndian32(data[4..8])));
  }

  lemma SecondByte(b: byte)
    ensures (if b >= 128 then 128 else 0) + b % 128 == b
  {
  }

  lemma FixedIsPrefix(data: seq<byte>, stamp: seq<byte>)
    requires |data| >= 12 && stamp == data[4..8]
    ensures [data[0], data[1]] + data[2..4] + stamp + data[8..12] == data[..12]
  {
  }

  lemma FieldsEncodeExtension(data: seq<byte>)
    requires ParseRtpPacket(data).Ok? && data[0] / 16 % 2 == 1
    ensures var offset, end := 12 + data[0] % 16 * 4, |data| - |ParseRtpPacket(data).value.payload|;
            && Fields(data).extension.value.Valid()
            && Fields(data).extension.value.Encode() == data[offset..end]
  {
    var offset, end := 12 + data[0] % 16 * 4, |data| - |ParseRtpPacket(data).value.payload|;
    var words := data[offset + 4..end];
    assert |words| / 4 == BigEndian16(data[offset + 2], data[offset + 3]);
    PutInvertsBigEndian16(data[offset + 2], data[offset + 3]);
    assert data[offset + 2..offset + 4] == [data[offset + 2], data[offset + 3]];
    ThreeSlices(data, offset, offset + 2, offset + 4, end);
  }

  lemma ThreeSlices<T>(s: seq<T>, a: nat, b: nat, c: nat, d: nat)
    requires a <= b <= c <= d <= |s|
    ensures s[a..d] == s[a..b] + s[b..c] + s[c..d]
  {
    var parts := s[a..b] + s[b..c] + s[c..d];
    assert |parts| == d - a;
    forall i | 0 <= i < d - a ensures parts[i] == s[a + i] {
    }
  }

  lemma FourSlices<T>(s: seq<T>, a: nat, b: nat, c: nat)
    requires a <= b <= c <= |s|
    ensures s == s[..a] + s[a..b] + s[b..c] + s[c..]
  {
    ThreeSlices(s, 0, a, b, c);
    assert s == s[..c] + s[c..] && s[..c] == s[0..c] && s[..a] == s[0..a];
  }

  lemma FieldsEncode(data: seq<byte>)
    requires ParseRtpPacket(data).Ok?
    ensures Fields(data).Valid() && Fields(data).Encode() == data
  {
    var p, offset, end := Fields(data), 12 + data[0] % 16 * 4, |data| - |ParseRtpPacket(data).value.payload|;
    FieldsEncodeFixed(data);
    FieldsHaveLengths(data);
    FourSlices(data, 12, offset, end);
    if data[0] / 16 % 2 == 1 { FieldsEncodeExtension(data); } else { assert data[offset..end] == []; }
    assert p.Encode() == data[..12] + data[12..offset] + data[offset..end] + data[end..];
  }

  /** Data parses exactly when it is the encoding of a packet, and what is kept is that packet's. */
  lemma ParsedIffEncoding(data: seq<byte>, kept: Received)
    ensures ParseRtpPacket(data) == Ok(kept) <==>
        exists p: RtpPacket :: p.Valid() && p.Encode() == data && p.kept == kept
  {
    if ParseRtpPacket(data) == Ok(kept) {
      FieldsEncode(data);
      assert Fields(data).kept == kept;
    }
    if p: RtpPacket :| p.Valid() && p.Encode() == data && p.kept == kept {
      ParseInvertsEncode(p);
    }
  }

  // ----- a whole stream

  function StreamOf(channel: byte, packets: seq<RtpPacket>): seq<byte>
    requires forall p <- packets :: p.Valid() && |p.Encode()| < UINT16_LIMIT
  {
    if packets == [] then []
    else EncodeFrame(Frame(channel, packets[0].Encode())) + StreamOf(channel, packets[1..])
  }

  /** Reading a stream frame by frame, as a client does: unframe, parse, hand the payload on. */
  function Receive(data: seq<byte>): seq<Arrival> {
    match ParseInterleavedFrame(data)
    case Err(_) => []
    case Ok(frame) =>
      var rest := Receive(data[4 + |frame.payload|..]);
      match ParseRtpPacket(frame.payload)
      case Err(_) => rest
      case Ok(kept) => [Read(kept.payload, kept.marker, kept.timestamp)] + rest
  }

  lemma {:induction false} ReceiveInvertsStream(channel: byte, packets: seq<RtpPacket>)
    requires forall p <- packets :: p.Valid() && |p.Encode()| < UINT16_LIMIT
    ensures var h := Receive(StreamOf(channel, packets));
            && |h| == |packets|
            && forall i | 0 <= i < |h| ::
                h[i] == Read(packets[i].kept.payload, packets[i].kept.marker, packets[i].kept.timestamp)
  {
    if packets != [] {
      var data, frame := StreamOf(channel, packets), Frame(channel, packets[0].Encode());
      var rest := StreamOf(channel, packets[1..]);
      FrameParsedIffPrefix(data, frame);
      ParseInvertsEncode(packets[0]);
      assert data[4 + |frame.payload|..] == rest;
      ReceiveInvertsStream(channel, packets[1..]);
    }
  }

  /** From the byte stream to the access unit: packets that carry the payloads of any packetization,
      with one timestamp and the marker on the last, come out as the Annex B form of the units. */
  lemma StreamYieldsAccessUnit(s: Assembly, channel: byte, packets: seq<RtpPacket>, plans: seq<Plan>, timestamp: uint32)
    requires forall p <- packets :: p.Valid() && |p.Encode()| < UINT16_LIMIT
    requires AllValid(plans) && |AllPayloads(plans)| == |packets| > 0
    requires forall i | 0 <= i < |packets| ::
        packets[i].kept == Received(AllPayloads(plans)[i], i == |packets| - 1, timestamp)
    requires !s.assembling || s.timestamp != timestamp
    ensures Run(s, Receive(StreamOf(channel, packets))).outputs
         == Pendings(|packets| - 1) + [Emitted(Flatten(Units(AllNals(plans))), AnyIdr(AllNals(plans)))]
  {
    ReceiveInvertsStream(channel, packets);
    assert Receive(StreamOf(channel, packets)) == Packets(AllPayloads(plans), timestamp);
    PacketizationIsInverted(s, plans, timestamp);
  }

  // ----- the layouts at concrete bytes

  /** A dollar sign, the channel, the size, most significant byte first, and the payload. */
  lemma FrameExample()
    ensures ParseInterleavedFrame([0x24, 3, 0, 2, 0xAA, 0xBB, 0x24]) == Ok(Frame(3, [0xAA, 0xBB]))
  {
    assert [0x24, 3, 0, 2, 0xAA, 0xBB, 0x24][4..6] == [0xAA, 0xBB];
  }

  /** The marker is the top bit of the second byte, the timestamp the second word, and the payload follows the
      fixed header of twelve bytes. */
  lemma PacketExample()
    ensures ParseRtpPacket([0x80, 0xE0, 0, 1, 1, 2, 3, 4, 9, 9, 9, 9, 0x65]) == Ok(Received([0x65], true, 0x0102_0304))
  {
    var data: seq<byte> := [0x80, 0xE0, 0, 1, 1, 2, 3, 4, 9, 9, 9, 9, 0x65];
    assert data[12..] == [0x65] && data[4..8] == [1, 2, 3, 4];
  }

  /** One contributing source and an extension of one word are skipped. */
  lemma ExtendedPacketExample()
    ensures var fixed: seq<byte> := [0x91, 0x60, 0, 1, 1, 2, 3, 4, 9, 9, 9, 9];
      ParseRtpPacket(fixed + [7, 7, 7, 7, 0xBE, 0xDE, 0, 1, 5, 5, 5, 5, 0x65])
         == Ok(Received([0x65], false, 0x0102_0304))
  {
    var fixed: seq<byte> := [0x91, 0x60, 0, 1, 1, 2, 3, 4, 9, 9, 9, 9];
    var data := fixed + [7, 7, 7, 7, 0xBE, 0xDE, 0, 1, 5, 5, 5, 5, 0x65];
    assert data[4..8] == fixed[4..8] == [1, 2, 3, 4];
    assert data[0] == 0x91 && data[1] == 0x60 && data[18] == 0 && data[19] == 1 && data[24..] == [0x65];
    ParsesAt(data, 16, 24, Received([0x65], false, 0x0102_0304));
  }
}
