/** NetService.go: the decoder and reply builder for 48-byte requests whose
    timestamps are read as 32-bit second counts, the fixed reply of the
    "Microsoft" variant, and the two one-byte request classifiers.

    A `time.Time` that the code builds with `time.Unix(s, 0)` is modelled by its
    second count `s`; "now" is a parameter; the reply length `NtpV4PacketSize`,
    which none of main.go, NetService.go and CreatebyChatGPT.go defines, is the
    parameter `size`. */
module NetService {
  import opened GoInts
  import opened Bits
  import opened BigEndian

  /** Seconds from 1900-01-01 to 1970-01-01, written as a literal in the code. */
  const NtpEpochOffset: int := 2208988800

  /** The decoded request of the standard variant. */
  datatype NTPv3Packet = NTPv3Packet(
    LeapIndicator: byte,
    VersionNumber: byte,
    Mode: byte,
    Stratum: byte,
    Poll: byte,
    Precision: byte,
    RootDelay: u32,
    RootDispersion: u32,
    ReferenceID: u32,
    ReferenceTime: i64,
    OriginTime: i64,
    ReceiveTime: i64,
    TransmitTime: i64,
    Authentication: seq<byte>)

  /** The decoded request of the "Microsoft" variant: the flags byte is kept whole. */
  datatype MicrosoftNTPPacket = MicrosoftNTPPacket(
    Flags: byte,
    Stratum: byte,
    Poll: byte,
    Precision: byte,
    RootDelay: u32,
    RootDispersion: u32,
    ReferenceID: u32,
    ReferenceTimestamp: i64,
    OriginateTimestamp: i64,
    ReceiveTimestamp: i64,
    TransmitTimestamp: i64)

  /** `uint32(t.Unix() + 2208988800)` for a time of `s` Unix seconds: the `int64`
      sum, truncated to 32 bits. */
  function WireFromUnix(s: i64): (u: u32)
    ensures u == (s + NtpEpochOffset) % 0x1_0000_0000
  {
    Uint32OfInt64Of(s + NtpEpochOffset);
    Uint32Of(Int64Of(s + NtpEpochOffset))
  }

  /** The Unix seconds of `time.Unix(int64(u - 2208988800), 0)`: the `uint32`
      subtraction wraps and the conversion to `int64` keeps the value. Encoding
      the result again gives back `u`. */
  function UnixFromWire(u: u32): (s: i64)
    ensures 0 <= s < 0x1_0000_0000
    ensures WireFromUnix(s) == u
  {
    var s := Uint32Of(u - NtpEpochOffset);
    assert (u - NtpEpochOffset - s) % 0x1_0000_0000 == 0;
    assert (s + NtpEpochOffset) % 0x1_0000_0000 == u % 0x1_0000_0000;
    s
  }

  /** ParseNTPPacket: splits byte 0 into its 2/3/3-bit fields, reads the header
      big-endian and four 32-bit timestamps at offsets 16, 20, 24 and 28, and
      keeps bytes 32 to 39 as the authenticator. It indexes up to byte 39 and
      never returns an error. */
  function ParseNTPPacket(buf: seq<byte>): (r: (NTPv3Packet, Option<GoError>))
    requires |buf| >= 40
    ensures r.1 == None
    ensures r.0.LeapIndicator == buf[0] / 64 <= 3
    ensures r.0.VersionNumber == (buf[0] / 8) % 8 <= 7
    ensures r.0.Mode == buf[0] % 8 <= 7
    ensures WireFromUnix(r.0.ReferenceTime) == Uint32(buf, 16)
    ensures WireFromUnix(r.0.OriginTime) == Uint32(buf, 20)
    ensures WireFromUnix(r.0.ReceiveTime) == Uint32(buf, 24)
    ensures WireFromUnix(r.0.TransmitTime) == Uint32(buf, 28)
  {
    FlagFields(buf[0]);
    var pkt := NTPv3Packet(
      LeapIndicator := And(ShiftRight(buf[0], 6), 0x03),
      VersionNumber := And(ShiftRight(buf[0], 3), 0x07),
      Mode := And(buf[0], 0x07),
      Stratum := buf[1],
      Poll := buf[2],
      Precision := buf[3],
      RootDelay := Uint32(buf, 4),
      RootDispersion := Uint32(buf, 8),
      ReferenceID := Uint32(buf, 12),
      ReferenceTime := UnixFromWire(Uint32(buf, 16)),
      OriginTime := UnixFromWire(Uint32(buf, 20)),
      ReceiveTime := UnixFromWire(Uint32(buf, 24)),
      TransmitTime := UnixFromWire(Uint32(buf, 28)),
      Authentication := buf[32..40]);
    (pkt, None)
  }

  /** ParseMSPacket: the flags byte unsplit, the same header and the same four
      32-bit timestamps. It indexes up to byte 31 and never returns an error. */
  function ParseMSPacket(buf: seq<byte>): (r: (MicrosoftNTPPacket, Option<GoError>))
    requires |buf| >= 32
    ensures r.1 == None
    ensures WireFromUnix(r.0.ReferenceTimestamp) == Uint32(buf, 16)
    ensures WireFromUnix(r.0.OriginateTimestamp) == Uint32(buf, 20)
    ensures WireFromUnix(r.0.ReceiveTimestamp) == Uint32(buf, 24)
    ensures WireFromUnix(r.0.TransmitTimestamp) == Uint32(buf, 28)
  {
    var pkt := MicrosoftNTPPacket(
      Flags := buf[0],
      Stratum := buf[1],
      Poll := buf[2],
      Precision := buf[3],
      RootDelay := Uint32(buf, 4),
      RootDispersion := Uint32(buf, 8),
      ReferenceID := Uint32(buf, 12),
      ReferenceTimestamp := UnixFromWire(Uint32(buf, 16)),
      OriginateTimestamp := UnixFromWire(Uint32(buf, 20)),
      ReceiveTimestamp := UnixFromWire(Uint32(buf, 24)),
      TransmitTimestamp := UnixFromWire(Uint32(buf, 28)));
    (pkt, None)
  }

  /** Byte 0 of a reply: `(LeapIndicator << 6) | (VersionNumber << 3) | Mode`,
      each shift done in byte arithmetic. */
  function PackedFlags(pkt: NTPv3Packet): (r: byte)
  {
    Or(Or(ShiftLeft(pkt.LeapIndicator, 6), ShiftLeft(pkt.VersionNumber, 3)), pkt.Mode)
  }

  /** The bytes CreateNTPResponse returns for `pkt` at Unix time `now`, laid
      out field after field. */
  function NTPResponseBytes(pkt: NTPv3Packet, now: i64, size: nat): (r: seq<byte>)
    requires size >= 36
  {
    HeaderBytes(pkt)
    + Uint32Bytes(WireFromUnix(pkt.ReferenceTime))
    + Uint32Bytes(WireFromUnix(pkt.OriginTime))
    + Uint32Bytes(WireFromUnix(pkt.ReceiveTime))
    + Uint32Bytes(WireFromUnix(now))
    + Zeros(size - 32)
  }

  /** CreateNTPResponse: fills a zeroed Go array of `size` bytes (the source's
      `NtpV4PacketSize`) field by field; the transmit timestamp is `now`. A Go
      array is a value, so the buffer is a `seq` that each write replaces. It
      never returns an error. */
  method CreateNTPResponse(pkt: NTPv3Packet, now: i64, size: nat) returns (resp: seq<byte>, err: Option<GoError>)
    requires size >= 36
    ensures resp == NTPResponseBytes(pkt, now, size)
    ensures err == None
  {
    var buf := Zeros(size);
    buf := buf[0 := PackedFlags(pkt)];
    buf := buf[1 := pkt.Stratum];
    buf := buf[2 := pkt.Poll];
    buf := buf[3 := pkt.Precision];
    ghost var s0 := buf;
    buf := PutUint32(buf, 4, pkt.RootDelay);
    ghost var s1 := buf;
    buf := PutUint32(buf, 8, pkt.RootDispersion);
    ghost var s2 := buf;
    buf := PutUint32(buf, 12, pkt.ReferenceID);
    ghost var s3 := buf;
    buf := PutUint32(buf, 16, WireFromUnix(pkt.ReferenceTime));
    ghost var s4 := buf;
    buf := PutUint32(buf, 20, WireFromUnix(pkt.OriginTime));
    ghost var s5 := buf;
    buf := PutUint32(buf, 24, WireFromUnix(pkt.ReceiveTime));
    ghost var s6 := buf;
    var transmitTime := Int64Of(now + NtpEpochOffset);
    buf := PutUint32(buf, 28, Uint32Of(transmitTime));
    ghost var s7 := buf;
    buf := buf[32 := 0];
    buf := buf[33 := 0];
    buf := buf[34 := 0];
    buf := buf[35 := 0];
    FillHeader(pkt, size, s0, s1, s2, s3);
    FillTimes(pkt, now, size, s3, s4, s5, s6, s7, buf);
    resp, err := buf, None;
  }

  /** Bytes 0 to 15 of the reply, as CreateNTPResponse writes them. */
  function HeaderBytes(pkt: NTPv3Packet): (r: seq<byte>)
    ensures |r| == 16
  {
    [PackedFlags(pkt), pkt.Stratum, pkt.Poll, pkt.Precision]
    + Uint32Bytes(pkt.RootDelay) + Uint32Bytes(pkt.RootDispersion) + Uint32Bytes(pkt.ReferenceID)
  }

  /** The first four writes of CreateNTPResponse fill the header. */
  lemma FillHeader(pkt: NTPv3Packet, size: nat, s0: seq<byte>, s1: seq<byte>, s2: seq<byte>, s3: seq<byte>)
    requires size >= 36
    requires s0 == Zeros(size)[0 := PackedFlags(pkt)][1 := pkt.Stratum][2 := pkt.Poll][3 := pkt.Precision]
    requires |s1| == |s0| && Uint32(s1, 4) == pkt.RootDelay && s1[..4] == s0[..4] && s1[8..] == s0[8..]
    requires |s2| == |s1| && Uint32(s2, 8) == pkt.RootDispersion && s2[..8] == s1[..8] && s2[12..] == s1[12..]
    requires |s3| == |s2| && Uint32(s3, 12) == pkt.ReferenceID && s3[..12] == s2[..12] && s3[16..] == s2[16..]
    ensures s3 == HeaderBytes(pkt) + Zeros(size - 16)
  {
    var done := [PackedFlags(pkt), pkt.Stratum, pkt.Poll, pkt.Precision];
    assert s0 == done + Zeros(size - 4);
    PutUint32AfterPrefix(s0, s1, done, 4, pkt.RootDelay);
    done := done + Uint32Bytes(pkt.RootDelay);
    PutUint32AfterPrefix(s1, s2, done, 8, pkt.RootDispersion);
    done := done + Uint32Bytes(pkt.RootDispersion);
    PutUint32AfterPrefix(s2, s3, done, 12, pkt.ReferenceID);
  }

  /** The timestamp writes and the zeroed authenticator of CreateNTPResponse
      complete the reply. */
  lemma FillTimes(pkt: NTPv3Packet, now: i64, size: nat, s3: seq<byte>, s4: seq<byte>, s5: seq<byte>,
                  s6: seq<byte>, s7: seq<byte>, s8: seq<byte>)
    requires size >= 36 && s3 == HeaderBytes(pkt) + Zeros(size - 16)
    requires |s4| == |s3| && Uint32(s4, 16) == WireFromUnix(pkt.ReferenceTime) && s4[..16] == s3[..16] && s4[20..] == s3[20..]
    requires |s5| == |s4| && Uint32(s5, 20) == WireFromUnix(pkt.OriginTime) && s5[..20] == s4[..20] && s5[24..] == s4[24..]
    requires |s6| == |s5| && Uint32(s6, 24) == WireFromUnix(pkt.ReceiveTime) && s6[..24] == s5[..24] && s6[28..] == s5[28..]
    requires |s7| == |s6| && Uint32(s7, 28) == WireFromUnix(now) && s7[..28] == s6[..28] && s7[32..] == s6[32..]
    requires s8 == s7[32 := 0][33 := 0][34 := 0][35 := 0]
    ensures s8 == NTPResponseBytes(pkt, now, size)
  {
    var done := HeaderBytes(pkt);
    PutUint32AfterPrefix(s3, s4, done, 16, WireFromUnix(pkt.ReferenceTime));
    done := done + Uint32Bytes(WireFromUnix(pkt.ReferenceTime));
    PutUint32AfterPrefix(s4, s5, done, 20, WireFromUnix(pkt.OriginTime));
    done := done + Uint32Bytes(WireFromUnix(pkt.OriginTime));
    PutUint32AfterPrefix(s5, s6, done, 24, WireFromUnix(pkt.ReceiveTime));
    done := done + Uint32Bytes(WireFromUnix(pkt.ReceiveTime));
    PutUint32AfterPrefix(s6, s7, done, 28, WireFromUnix(now));
    done := done + Uint32Bytes(WireFromUnix(now));
    ZeroAfterPrefix(s7, done);
  }

  /** Zeroing bytes 32 to 35 of a reply whose first 32 bytes are filled and
      whose rest is zero changes nothing. */
  lemma ZeroAfterPrefix(b: seq<byte>, done: seq<byte>)
    requires |done| == 32 && |b| >= 36 && b == done + Zeros(|b| - 32)
    ensures b[32 := 0][33 := 0][34 := 0][35 := 0] == b
  {
  }

  /** The bytes CreateMicroSoftNTPResponse returns at Unix time `now`. */
  function MicrosoftResponseBytes(now: i64): (r: seq<byte>)
  {
    [0x24, 0x01] + Zeros(38)
    + [ByteOf(now / 0x100_0000), ByteOf(now / 0x1_0000), ByteOf(now / 0x100), ByteOf(now)]
    + Zeros(4)
  }

  /** CreateMicroSoftNTPResponse: ignores its packet argument and fills a zeroed
      48-byte slice with the flags byte 0x24, stratum 1 and the Unix seconds of
      `now`, shifted right a byte at a time (an arithmetic shift: `/` with a
      positive divisor rounds down). It never returns an error. */
  method CreateMicroSoftNTPResponse(pkt: MicrosoftNTPPacket, now: i64) returns (resp: seq<byte>, err: Option<GoError>)
    ensures resp == MicrosoftResponseBytes(now)
    ensures err == None
  {
    var buf := Zeros(48);
    buf := buf[0 := 0x24];
    buf := buf[1 := 0x01];
    buf := buf[40 := ByteOf(now / 0x100_0000)];
    buf := buf[41 := ByteOf(now / 0x1_0000)];
    buf := buf[42 := ByteOf(now / 0x100)];
    buf := buf[43 := ByteOf(now)];
    assert buf == MicrosoftResponseBytes(now);
    resp, err := buf, None;
  }

  /** IsStandardNtpRequest: byte 1 equals 3, which on a request long enough
      to decode is exactly a decoded stratum of 3. */
  function IsStandardNtpRequest(pkt: seq<byte>): (b: bool)
    requires |pkt| >= 2
    ensures b <==> pkt[1] == 3
    ensures |pkt| >= 40 ==> (b <==> ParseNTPPacket(pkt).0.Stratum == 3)
  {
    pkt[1] == 3
  }

  /** IsMicrosoftNtpRequest: byte 2 equals 7, which on a request long enough
      to decode is exactly a decoded poll of 7. */
  function IsMicrosoftNtpRequest(pkt: seq<byte>): (b: bool)
    requires |pkt| >= 3
    ensures b <==> pkt[2] == 7
    ensures |pkt| >= 32 ==> (b <==> ParseMSPacket(pkt).0.Poll == 7)
  {
    pkt[2] == 7
  }

  // Properties of the standard variant

  /** The epoch shift: Unix time 0 encodes as 2208988800, and a decoded second
      count below 2^32 encodes and decodes back to itself. */
  lemma EpochShift(s: i64)
    requires 0 <= s < 0x1_0000_0000
    ensures WireFromUnix(0) == NtpEpochOffset
    ensures UnixFromWire(WireFromUnix(s)) == s
  {
    var u := WireFromUnix(s);
    var k := (s + NtpEpochOffset) / 0x1_0000_0000;
    assert u - NtpEpochOffset == 0x1_0000_0000 * -k + s;
    DivUnique(u - NtpEpochOffset, 0x1_0000_0000, -k, s);
  }

  /** Where CreateNTPResponse puts each field. */
  lemma NTPResponseLayout(pkt: NTPv3Packet, now: i64, size: nat)
    requires size >= 36
    ensures var r := NTPResponseBytes(pkt, now, size);
      && |r| == size
      && r[0] == PackedFlags(pkt) && r[1] == pkt.Stratum && r[2] == pkt.Poll && r[3] == pkt.Precision
      && Uint32(r, 4) == pkt.RootDelay && Uint32(r, 8) == pkt.RootDispersion && Uint32(r, 12) == pkt.ReferenceID
      && Uint32(r, 16) == (pkt.ReferenceTime + NtpEpochOffset) % 0x1_0000_0000
      && Uint32(r, 20) == (pkt.OriginTime + NtpEpochOffset) % 0x1_0000_0000
      && Uint32(r, 24) == (pkt.ReceiveTime + NtpEpochOffset) % 0x1_0000_0000
      && Uint32(r, 28) == (now + NtpEpochOffset) % 0x1_0000_0000
      && forall i :: 32 <= i < size ==> r[i] == 0
  {
    var r := NTPResponseBytes(pkt, now, size);
    assert r[4..8] == Uint32Bytes(pkt.RootDelay);
    assert r[8..12] == Uint32Bytes(pkt.RootDispersion);
    assert r[12..16] == Uint32Bytes(pkt.ReferenceID);
    assert r[16..20] == Uint32Bytes(WireFromUnix(pkt.ReferenceTime));
    assert r[20..24] == Uint32Bytes(WireFromUnix(pkt.OriginTime));
    assert r[24..28] == Uint32Bytes(WireFromUnix(pkt.ReceiveTime));
    assert r[28..32] == Uint32Bytes(WireFromUnix(now));
    forall o | o in {4, 8, 12, 16, 20, 24, 28}
      ensures Uint32(r, o) == Uint32(r[o..o + 4], 0)
    {
    }
  }

  /** Parsing a request and building the reply from it reproduces bytes 0 to 27
      of the request (flags, header, and the reference, origin and receive
      timestamps), puts `now` in the transmit field and zeros after it: the
      request's transmit timestamp and authenticator are never written back. */
  lemma {:induction false} ParseThenRespond(buf: seq<byte>, now: i64, size: nat)
    requires |buf| >= 40 && size >= 36
    ensures NTPResponseBytes(ParseNTPPacket(buf).0, now, size)
         == buf[..28] + Uint32Bytes((now + NtpEpochOffset) % 0x1_0000_0000) + Zeros(size - 32)
  {
    var pkt := ParseNTPPacket(buf).0;
    RepackFlags(buf[0]);
    ResponseEchoesFields(pkt, now, size, buf);
  }

  /** A reply built from a packet whose fields are those of the first 28 bytes
      of `buf` starts with those 28 bytes. */
  lemma ResponseEchoesFields(pkt: NTPv3Packet, now: i64, size: nat, buf: seq<byte>)
    requires |buf| >= 28 && size >= 36
    requires [PackedFlags(pkt), pkt.Stratum, pkt.Poll, pkt.Precision] == buf[..4]
    requires pkt.RootDelay == Uint32(buf, 4) && pkt.RootDispersion == Uint32(buf, 8)
    requires pkt.ReferenceID == Uint32(buf, 12)
    requires WireFromUnix(pkt.ReferenceTime) == Uint32(buf, 16)
    requires WireFromUnix(pkt.OriginTime) == Uint32(buf, 20)
    requires WireFromUnix(pkt.ReceiveTime) == Uint32(buf, 24)
    ensures NTPResponseBytes(pkt, now, size)
         == buf[..28] + Uint32Bytes((now + NtpEpochOffset) % 0x1_0000_0000) + Zeros(size - 32)
  {
    Uint32BytesOf(buf, 4);
    Uint32BytesOf(buf, 8);
    Uint32BytesOf(buf, 12);
    Uint32BytesOf(buf, 16);
    Uint32BytesOf(buf, 20);
    Uint32BytesOf(buf, 24);
    assert buf[..28] == buf[..4] + buf[4..8] + buf[8..12] + buf[12..16]
                        + buf[16..20] + buf[20..24] + buf[24..28];
  }

  // Properties of the "Microsoft" variant

  /** The Microsoft reply is 48 bytes: 0x24 and 0x01 in front, the low 32 bits
      of the Unix seconds (no epoch shift) big-endian at bytes 40 to 43, and
      zeros everywhere else. */
  lemma MicrosoftResponseLayout(now: i64)
    ensures var r := MicrosoftResponseBytes(now);
      && |r| == 48 && r[0] == 0x24 && r[1] == 0x01
      && Uint32(r, 40) == now % 0x1_0000_0000
      && forall i :: 2 <= i < 48 && !(40 <= i < 44) ==> r[i] == 0
  {
    var r := MicrosoftResponseBytes(now);
    var lo := now % 0x1_0000_0000;
    ShiftedByteLow32(now, 0x100_0000, 1);
    ShiftedByteLow32(now, 0x1_0000, 0x100);
    ShiftedByteLow32(now, 0x100, 0x1_0000);
    ShiftedByteLow32(now, 1, 0x100_0000);
    assert r[40..44] == Uint32Bytes(lo);
    assert Uint32(r, 40) == Uint32(r[40..44], 0);
  }

  /** Read with the standard decoder, the Microsoft reply's flags byte 0x24 is
      leap indicator 0, version 4 and mode 4 (server), at stratum 1. */
  lemma MicrosoftFlags(now: i64)
    ensures var p := ParseNTPPacket(MicrosoftResponseBytes(now)).0;
      p.LeapIndicator == 0 && p.VersionNumber == 4 && p.Mode == 4 && p.Stratum == 1
  {
    var r := MicrosoftResponseBytes(now);
    assert |r| == 48 && r[0] == 0x24 && r[1] == 0x01;
    ServerFlagsByte(r);
  }

  /** Any buffer that starts with 0x24, 0x01 decodes as a server reply of
      version 4 at stratum 1. */
  lemma ServerFlagsByte(buf: seq<byte>)
    requires |buf| >= 40 && buf[0] == 0x24 && buf[1] == 0x01
    ensures var p := ParseNTPPacket(buf).0;
      p.LeapIndicator == 0 && p.VersionNumber == 4 && p.Mode == 4 && p.Stratum == 1
  {
  }

  // Properties of the classifiers

  /** Each classifier reads a single byte: requests that agree on byte 1 (or
      byte 2) are classified alike. */
  lemma ClassifiersReadOneByte(p: seq<byte>, q: seq<byte>)
    requires |p| >= 3 && |q| >= 3
    ensures p[1] == q[1] ==> IsStandardNtpRequest(p) == IsStandardNtpRequest(q)
    ensures p[2] == q[2] ==> IsMicrosoftNtpRequest(p) == IsMicrosoftNtpRequest(q)
  {
  }

  /** The two classifiers are not exclusive: one request can satisfy both. */
  lemma ClassifiersOverlap()
    ensures exists p: seq<byte> :: |p| >= 3 && IsStandardNtpRequest(p) && IsMicrosoftNtpRequest(p)
  {
    var p: seq<byte> := [0, 3, 7];
    assert IsStandardNtpRequest(p) && IsMicrosoftNtpRequest(p);
  }
}
