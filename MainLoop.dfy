/** main.go: one pass of the server loop. A datagram is read into a fresh
    48-byte buffer, decoded big-endian into an `NTPPacket`, rewritten in place
    into a server reply stamped with `GenNTPTimestamp`, and serialised back to
    48 bytes at fixed offsets.

    The socket is left out: the received datagram is a parameter and the reply
    is the result. The clock is left out: the millisecond count that
    `time.Now().UTC().UnixMilli()` returns is a parameter. */
module MainLoop {
  import opened GoInts
  import opened Bits
  import opened BigEndian

  /** `NTP_PACKET_SIZE`: the size of the receive buffer and of the reply. */
  const NtpPacketSize: nat := 48

  /** The mode that the reply's low three bits are set to (server). */
  const ServerMode: byte := 4

  /** The packet as `binary.Read` fills it: fields in declaration order, with
      no padding. */
  datatype NTPPacket = NTPPacket(
    LiVnMode: byte,
    Stratum: byte,
    Poll: byte,
    Precision: byte,
    RootDelay: u32,
    RootDispersion: u32,
    ReferenceID: u32,
    ReferenceTime: u64,
    OriginTime: u64,
    ReceiveTime: u64,
    TransmitTime: u64)

  /** The receive buffer after `ReadFromUDP` on `make([]byte, NTP_PACKET_SIZE)`:
      the first bytes of the datagram, as many as fit, and zeros after a short
      one. The read count is discarded. */
  function Received(datagram: seq<byte>): (data: seq<byte>)
    ensures |data| == NtpPacketSize
    ensures forall i :: 0 <= i < NtpPacketSize ==> data[i] == (if i < |datagram| then datagram[i] else 0)
  {
    if |datagram| >= NtpPacketSize then datagram[..NtpPacketSize]
    else datagram + Zeros(NtpPacketSize - |datagram|)
  }

  /** `binary.Read(…, binary.BigEndian, &packet)` on the 48-byte buffer: one
      byte each for the first four fields, then three 32-bit and four 64-bit
      big-endian fields. Writing the packet back gives the buffer. */
  function Decode(data: seq<byte>): (p: NTPPacket)
    requires |data| == NtpPacketSize
    ensures EncodeBytes(p) == data
  {
    var p := NTPPacket(
      LiVnMode := data[0],
      Stratum := data[1],
      Poll := data[2],
      Precision := data[3],
      RootDelay := Uint32(data, 4),
      RootDispersion := Uint32(data, 8),
      ReferenceID := Uint32(data, 12),
      ReferenceTime := Uint64(data, 16),
      OriginTime := Uint64(data, 24),
      ReceiveTime := Uint64(data, 32),
      TransmitTime := Uint64(data, 40));
    HeaderOf(data);
    TimestampsOf(data);
    assert HeaderBytes(p) + TimestampBytes(p) == data[..16] + data[16..];
    p
  }

  /** Bytes 0 to 15 of a serialised packet. */
  function HeaderBytes(p: NTPPacket): (r: seq<byte>)
    ensures |r| == 16
  {
    [p.LiVnMode, p.Stratum, p.Poll, p.Precision]
    + Uint32Bytes(p.RootDelay) + Uint32Bytes(p.RootDispersion) + Uint32Bytes(p.ReferenceID)
  }

  /** Bytes 16 to 47 of a serialised packet: the four 64-bit timestamps. */
  function TimestampBytes(p: NTPPacket): (r: seq<byte>)
    ensures |r| == 32
  {
    (Uint64Bytes(p.ReferenceTime) + Uint64Bytes(p.OriginTime))
    + (Uint64Bytes(p.ReceiveTime) + Uint64Bytes(p.TransmitTime))
  }

  /** The 48 bytes that the writes into `newdata` produce for `p`. */
  function EncodeBytes(p: NTPPacket): (r: seq<byte>)
    ensures |r| == NtpPacketSize
  {
    HeaderBytes(p) + TimestampBytes(p)
  }

  /** `GenNTPTimestamp` for the millisecond count `unixMilli`: the `int64`
      product `unixMilli * 1e7`, which wraps on overflow, reinterpreted as
      `uint64`. The result is the product modulo 2^64, and the product itself
      when it is a non-negative `int64`. */
  function GenNTPTimestamp(unixMilli: i64): (t: u64)
    ensures t == (unixMilli * 10_000_000) % 0x1_0000_0000_0000_0000
    ensures 0 <= unixMilli * 10_000_000 < 0x8000_0000_0000_0000 ==> t == unixMilli * 10_000_000
  {
    Uint64OfInt64Of(unixMilli * 10_000_000);
    Uint64Of(Int64Of(unixMilli * 10_000_000))
  }

  /** The reply packet for `request` at NTP time `ntpTime`: the top five bits
      of byte 0 (leap indicator and version) are kept and the mode becomes
      server; stratum, precision, root delay, root dispersion, reference id and
      origin are zero, poll is 10, and the other three timestamps are
      `ntpTime`. */
  function ServerReply(request: NTPPacket, ntpTime: u64): (reply: NTPPacket)
  {
    NTPPacket(
      LiVnMode := (request.LiVnMode / 8) * 8 + ServerMode,
      Stratum := 0,
      Poll := 10,
      Precision := 0,
      RootDelay := 0,
      RootDispersion := 0,
      ReferenceID := 0,
      ReferenceTime := ntpTime,
      OriginTime := 0,
      ReceiveTime := ntpTime,
      TransmitTime := ntpTime)
  }

  /** The rewrite of `packet` in the loop body, field by field: the mode bits
      are cleared with `& 0b11111000` and set with `| 0b00000100`. */
  method Respond(request: NTPPacket, ntpTime: u64) returns (packet: NTPPacket)
    ensures packet == ServerReply(request, ntpTime)
  {
    packet := request;
    packet := packet.(LiVnMode := And(packet.LiVnMode, 0xF8));
    packet := packet.(LiVnMode := Or(packet.LiVnMode, 0x04));
    packet := packet.(Stratum := 0);
    packet := packet.(Poll := 10);
    packet := packet.(Precision := 0);
    packet := packet.(RootDelay := 0);
    packet := packet.(RootDispersion := 0);
    packet := packet.(ReferenceID := 0);
    packet := packet.(ReferenceTime := ntpTime);
    packet := packet.(OriginTime := 0);
    packet := packet.(ReceiveTime := ntpTime);
    packet := packet.(TransmitTime := ntpTime);
    ForceLowBits(request.LiVnMode);
  }

  /** The serialisation into `newdata := make([]byte, NTP_PACKET_SIZE)`: four
      single bytes, three `PutUint32` and four `PutUint64` writes. */
  method Encode(packet: NTPPacket) returns (newdata: seq<byte>)
    ensures newdata == EncodeBytes(packet)
  {
    newdata := Zeros(NtpPacketSize);
    newdata := newdata[0 := packet.LiVnMode];
    newdata := newdata[1 := packet.Stratum];
    newdata := newdata[2 := packet.Poll];
    newdata := newdata[3 := packet.Precision];
    ghost var s0 := newdata;
    newdata := PutUint32(newdata, 4, packet.RootDelay);
    ghost var s1 := newdata;
    newdata := PutUint32(newdata, 8, packet.RootDispersion);
    ghost var s2 := newdata;
    newdata := PutUint32(newdata, 12, packet.ReferenceID);
    ghost var s3 := newdata;
    newdata := PutUint64(newdata, 16, packet.ReferenceTime);
    ghost var s4 := newdata;
    newdata := PutUint64(newdata, 24, packet.OriginTime);
    ghost var s5 := newdata;
    newdata := PutUint64(newdata, 32, packet.ReceiveTime);
    ghost var s6 := newdata;
    newdata := PutUint64(newdata, 40, packet.TransmitTime);
    EncodeHeader(packet, s0, s1, s2, s3);
    EncodeTimestamps(packet, s3, s4, s5, s6, newdata);
  }

  /** The single-byte and 32-bit writes of Encode fill bytes 0 to 15. */
  lemma EncodeHeader(p: NTPPacket, s0: seq<byte>, s1: seq<byte>, s2: seq<byte>, s3: seq<byte>)
    requires s0 == Zeros(NtpPacketSize)[0 := p.LiVnMode][1 := p.Stratum][2 := p.Poll][3 := p.Precision]
    requires |s1| == |s0| && Uint32(s1, 4) == p.RootDelay && s1[..4] == s0[..4] && s1[8..] == s0[8..]
    requires |s2| == |s1| && Uint32(s2, 8) == p.RootDispersion && s2[..8] == s1[..8] && s2[12..] == s1[12..]
    requires |s3| == |s2| && Uint32(s3, 12) == p.ReferenceID && s3[..12] == s2[..12] && s3[16..] == s2[16..]
    ensures s3 == HeaderBytes(p) + Zeros(32)
  {
    var done := [p.LiVnMode, p.Stratum, p.Poll, p.Precision];
    assert s0 == done + Zeros(44);
    PutUint32AfterPrefix(s0, s1, done, 4, p.RootDelay);
    done := done + Uint32Bytes(p.RootDelay);
    PutUint32AfterPrefix(s1, s2, done, 8, p.RootDispersion);
    done := done + Uint32Bytes(p.RootDispersion);
    PutUint32AfterPrefix(s2, s3, done, 12, p.ReferenceID);
  }

  /** The 64-bit writes of Encode fill bytes 16 to 47. */
  lemma EncodeTimestamps(p: NTPPacket, s3: seq<byte>, s4: seq<byte>, s5: seq<byte>, s6: seq<byte>, s7: seq<byte>)
    requires s3 == HeaderBytes(p) + Zeros(32)
    requires |s4| == |s3| && Uint64(s4, 16) == p.ReferenceTime && s4[..16] == s3[..16] && s4[24..] == s3[24..]
    requires |s5| == |s4| && Uint64(s5, 24) == p.OriginTime && s5[..24] == s4[..24] && s5[32..] == s4[32..]
    requires |s6| == |s5| && Uint64(s6, 32) == p.ReceiveTime && s6[..32] == s5[..32] && s6[40..] == s5[40..]
    requires |s7| == |s6| && Uint64(s7, 40) == p.TransmitTime && s7[..40] == s6[..40] && s7[48..] == s6[48..]
    ensures s7 == EncodeBytes(p)
  {
    var done := HeaderBytes(p);
    PutUint64AfterPrefix(s3, s4, done, 16, p.ReferenceTime);
    done := done + Uint64Bytes(p.ReferenceTime);
    PutUint64AfterPrefix(s4, s5, done, 24, p.OriginTime);
    done := done + Uint64Bytes(p.OriginTime);
    PutUint64AfterPrefix(s5, s6, done, 32, p.ReceiveTime);
    done := done + Uint64Bytes(p.ReceiveTime);
    PutUint64AfterPrefix(s6, s7, done, 40, p.TransmitTime);
    done := done + Uint64Bytes(p.TransmitTime);
    assert s7 == done + Zeros(0);
    assert done == HeaderBytes(p) + TimestampBytes(p);
  }

  /** One pass of the server loop between `ReadFromUDP` and `WriteToUDP`:
      receive, decode, stamp, rewrite and serialise. */
  method ServeDatagram(datagram: seq<byte>, unixMilli: i64) returns (newdata: seq<byte>)
    ensures newdata == EncodeBytes(ServerReply(Decode(Received(datagram)), GenNTPTimestamp(unixMilli)))
  {
    var data := Received(datagram);
    var packet := Decode(data);
    var ntpTime := GenNTPTimestamp(unixMilli);
    packet := Respond(packet, ntpTime);
    newdata := Encode(packet);
  }

  // Properties of the codec

  /** Decoding the serialisation of a packet gives the packet back. */
  lemma DecodeEncode(p: NTPPacket)
    ensures Decode(EncodeBytes(p)) == p
  {
    var r := EncodeBytes(p);
    assert r[4..8] == Uint32Bytes(p.RootDelay);
    assert r[8..12] == Uint32Bytes(p.RootDispersion);
    assert r[12..16] == Uint32Bytes(p.ReferenceID);
    assert r[16..24] == Uint64Bytes(p.ReferenceTime);
    assert r[24..32] == Uint64Bytes(p.OriginTime);
    assert r[32..40] == Uint64Bytes(p.ReceiveTime);
    assert r[40..48] == Uint64Bytes(p.TransmitTime);
    ReadBack32(r, 4, p.RootDelay);
    ReadBack32(r, 8, p.RootDispersion);
    ReadBack32(r, 12, p.ReferenceID);
    ReadBack64(r, 16, p.ReferenceTime);
    ReadBack64(r, 24, p.OriginTime);
    ReadBack64(r, 32, p.ReceiveTime);
    ReadBack64(r, 40, p.TransmitTime);
  }

  /** The four bytes of `v` read back as `v` wherever they sit. */
  lemma ReadBack32(r: seq<byte>, i: nat, v: u32)
    requires i + 4 <= |r| && r[i..i + 4] == Uint32Bytes(v)
    ensures Uint32(r, i) == v
  {
    assert Uint32(r, i) == Uint32(r[i..i + 4], 0);
  }

  /** The eight bytes of `v` read back as `v` wherever they sit. */
  lemma ReadBack64(r: seq<byte>, i: nat, v: u64)
    requires i + 8 <= |r| && r[i..i + 8] == Uint64Bytes(v)
    ensures Uint64(r, i) == v
  {
    assert Uint32(r, i) == Uint32(r[i..i + 8], 0) && Uint32(r, i + 4) == Uint32(r[i..i + 8], 4);
  }

  /** The first 16 bytes re-encode from the values they decode to. */
  lemma HeaderOf(data: seq<byte>)
    requires |data| == NtpPacketSize
    ensures [data[0], data[1], data[2], data[3]]
            + Uint32Bytes(Uint32(data, 4)) + Uint32Bytes(Uint32(data, 8)) + Uint32Bytes(Uint32(data, 12))
         == data[..16]
  {
    Uint32BytesOf(data, 4);
    Uint32BytesOf(data, 8);
    Uint32BytesOf(data, 12);
    assert data[..16] == data[..4] + data[4..8] + data[8..12] + data[12..16];
  }

  /** The last 32 bytes re-encode from the timestamps they decode to. */
  lemma TimestampsOf(data: seq<byte>)
    requires |data| == NtpPacketSize
    ensures (Uint64Bytes(Uint64(data, 16)) + Uint64Bytes(Uint64(data, 24)))
            + (Uint64Bytes(Uint64(data, 32)) + Uint64Bytes(Uint64(data, 40)))
         == data[16..]
  {
    var lo, hi := data[16..32], data[32..48];
    assert data[16..] == lo + hi;
    TwoWordsOf(data, 16);
    TwoWordsOf(data, 32);
  }

  /** Sixteen bytes are determined by the two 64-bit values they encode. */
  lemma TwoWordsOf(data: seq<byte>, i: nat)
    requires i + 16 <= |data|
    ensures Uint64Bytes(Uint64(data, i)) + Uint64Bytes(Uint64(data, i + 8)) == data[i..i + 16]
  {
    Uint64BytesOf(data, i);
    Uint64BytesOf(data, i + 8);
    assert data[i..i + 16] == data[i..i + 8] + data[i + 8..i + 16];
  }

  // Properties of the reply

  /** The byte that request byte 0 holds in the receive buffer: the
      datagram's first byte, or zero for an empty datagram. */
  function FirstByte(datagram: seq<byte>): (b: byte)
  {
    if |datagram| > 0 then datagram[0] else 0
  }

  /** The reply is 48 bytes: byte 0 keeps the request's leap indicator and
      version and carries mode 4, stratum 0, poll 10, precision 0, zero root
      delay, root dispersion and reference id, the 64-bit `ntpTime` big-endian
      at offsets 16, 32 and 40 and a zero origin timestamp at offset 24. */
  lemma ReplyLayout(datagram: seq<byte>, unixMilli: i64)
    ensures var r := EncodeBytes(ServerReply(Decode(Received(datagram)), GenNTPTimestamp(unixMilli)));
      var t := (unixMilli * 10_000_000) % 0x1_0000_0000_0000_0000;
      && |r| == NtpPacketSize
      && r[0] / 8 == FirstByte(datagram) / 8 && r[0] % 8 == ServerMode
      && r[1] == 0 && r[2] == 10 && r[3] == 0
      && Uint32(r, 4) == 0 && Uint32(r, 8) == 0 && Uint32(r, 12) == 0
      && Uint64(r, 16) == t && Uint64(r, 24) == 0 && Uint64(r, 32) == t && Uint64(r, 40) == t
  {
    var p := ServerReply(Decode(Received(datagram)), GenNTPTimestamp(unixMilli));
    DecodeEncode(p);
    var b := Received(datagram)[0];
    assert b == FirstByte(datagram);
    DivUnique((b / 8) * 8 + 4, 8, b / 8, 4);
    assert EncodeBytes(p)[0] == p.LiVnMode;
  }

  /** With the clock fixed, the reply depends on request byte 0 alone. */
  lemma ReplyDependsOnlyOnFirstByte(d1: seq<byte>, d2: seq<byte>, unixMilli: i64)
    requires FirstByte(d1) == FirstByte(d2)
    ensures EncodeBytes(ServerReply(Decode(Received(d1)), GenNTPTimestamp(unixMilli)))
         == EncodeBytes(ServerReply(Decode(Received(d2)), GenNTPTimestamp(unixMilli)))
  {
    var t := GenNTPTimestamp(unixMilli);
    var p1, p2 := Decode(Received(d1)), Decode(Received(d2));
    assert p1.LiVnMode == Received(d1)[0] == FirstByte(d1);
    assert p2.LiVnMode == Received(d2)[0] == FirstByte(d2);
    assert ServerReply(p1, t) == ServerReply(p2, t);
  }

  /** A short datagram decodes with zero in every field that starts at or
      past its end. */
  lemma ShortDatagram(datagram: seq<byte>)
    ensures var p := Decode(Received(datagram));
      && (|datagram| == 0 ==> p.LiVnMode == 0)
      && (|datagram| <= 1 ==> p.Stratum == 0)
      && (|datagram| <= 2 ==> p.Poll == 0)
      && (|datagram| <= 3 ==> p.Precision == 0)
      && (|datagram| <= 4 ==> p.RootDelay == 0)
      && (|datagram| <= 8 ==> p.RootDispersion == 0)
      && (|datagram| <= 12 ==> p.ReferenceID == 0)
      && (|datagram| <= 16 ==> p.ReferenceTime == 0)
      && (|datagram| <= 24 ==> p.OriginTime == 0)
      && (|datagram| <= 32 ==> p.ReceiveTime == 0)
      && (|datagram| <= 40 ==> p.TransmitTime == 0)
  {
    var data := Received(datagram);
    if |datagram| <= 4 { ZeroWords(data, 4); }
    if |datagram| <= 8 { ZeroWords(data, 8); }
    if |datagram| <= 12 { ZeroWords(data, 12); }
    if |datagram| <= 16 { ZeroWords(data, 16); }
    if |datagram| <= 24 { ZeroWords(data, 24); }
    if |datagram| <= 32 { ZeroWords(data, 32); }
    if |datagram| <= 40 { ZeroWords(data, 40); }
  }
}
