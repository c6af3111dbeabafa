# NTP server core in Dafny

This project models the packet handling of a small NTP server written in Go.
It has two paths:

- **The server loop in `main.go`.** Each request is read into a 48-byte
  buffer and decoded big-endian into an `NTPPacket`. It is then rewritten into
  a server reply: the mode bits of byte 0 become 4, most fields are zeroed,
  and three timestamps get the value of `GenNTPTimestamp()`. Finally it is
  serialised back to 48 bytes.
- **The helpers in `NetService.go`.** A decoder for the "standard" request
  reads four 32-bit timestamps as Unix seconds. A reply builder writes them
  back. A fixed reply is built for the "Microsoft" variant. Two classifiers
  test one byte each.

The model has five modules:

- `GoInts`: Go's `byte`, `uint32`, `uint64` and `int64` as subset types of
  `int`, with every wrap-around written out. It includes the `int64` overflow
  of `now * 1e7` and the `uint32` truncation of a shifted timestamp.
- `Bits`: `&`, `|`, `<<` and `>>` on bytes. AND and OR are defined bit by bit,
  so the masks of the flags byte are proved.
- `BigEndian`: `binary.BigEndian.Uint32`/`Uint64` and `PutUint32`/`PutUint64`
  on byte sequences, with their round trips.
- `NetService`: the `NetService.go` functions and structs.
- `MainLoop`: the `NTPPacket` struct, the decode/respond/encode body of the
  loop in `main`, and `GenNTPTimestamp`.

How the model represents the program:

- The clock is a parameter: Unix seconds for `NetService.go` and Unix
  milliseconds for `main.go`.
- Buffers are byte sequences. The methods replace a sequence at each write, in
  the same order as the Go code.
- A `time.Time` built with `time.Unix(s, 0)` is modelled by its second count
  `s`.

Each Go struct of the core is a Dafny datatype with the same fields, widths
and order:

- `NTPv3Packet` (NetService.go:189-204) is `NetService.NTPv3Packet`. Its four
  `time.Time` fields are `i64` second counts, and `Authentication` is a byte
  sequence.
- `MicrosoftNTPPacket` (NetService.go:175-187) is
  `NetService.MicrosoftNTPPacket`, with the same treatment of the timestamps.
- `NTPPacket` (main.go:19-31) is `MainLoop.NTPPacket`, with 8-bit, 32-bit and
  64-bit fields in declaration order. This is the layout `binary.Read` fills.

The model follows the code wherever it departs from the 64-bit timestamp
format of section 6 of RFC 5905:

- `NetService.go` reads and writes 32-bit second counts at offsets 16, 20, 24
  and 28.
- The Microsoft reply stores Unix seconds, not NTP-era seconds.
- `GenNTPTimestamp` returns Unix milliseconds times 10^7.

## Model

| member | source | states |
|---|---|---|
| NetService.WireFromUnix | NetService.go:117-122 | a Unix second count is stored as the `int64` sum with 2208988800, truncated to 32 bits: the sum modulo 2^32 |
| NetService.UnixFromWire | NetService.go:98-101 | decoding a 32-bit wire value gives a second count in [0, 2^32), because the `uint32` subtraction wraps before the `int64` conversion; encoding that count gives the wire value back |
| NetService.EpochShift | NetService.go:98-101 | Unix time 0 is stored as 2208988800; a second count in [0, 2^32) survives encoding and then decoding |
| NetService.ParseNTPPacket | NetService.go:81-104 | never returns an error; the leap indicator, version and mode are the top 2, middle 3 and low 3 bits of byte 0, each within its width; each of the four timestamps encodes back to the big-endian word at offset 16, 20, 24 or 28 |
| Bits.FlagFields | NetService.go:89-91 | `b >> 6 & 0x03`, `b >> 3 & 0x07` and `b & 0x07` are `b / 64`, `(b / 8) % 8` and `b % 8` |
| Bits.PackFlags | NetService.go:110 | the OR of `li << 6`, `vn << 3` and `mode` is `(li % 4) * 64 + vn * 8 + mode` for a version and mode below 8: the fields do not overlap, and a leap indicator above 3 loses its high bits |
| Bits.RepackFlags | NetService.go:89-110 | packing the three fields split out of a byte gives the byte back |
| NetService.CreateNTPResponse | NetService.go:107-128 | fills a zeroed buffer of the reply length with the flags byte, stratum, poll, precision, three 32-bit header words, the three echoed timestamps and the current time, and clears bytes 32 to 35; the result is exactly that layout, and the error is nil |
| NetService.NTPResponseLayout | NetService.go:109-127 | in the reply, byte 0 is the packed flags and bytes 1 to 3 are stratum, poll and precision; the words at 4, 8 and 12 are root delay, dispersion and reference id; the words at 16, 20, 24 and 28 are the three packet timestamps and `now`, each plus 2208988800 modulo 2^32; every byte from 32 on is zero |
| NetService.ParseThenRespond | NetService.go:81-128 | parsing a request and answering it copies bytes 0 to 27 of the request, puts `now` in the transmit word and zeros everything after it; the request's transmit time and authenticator are dropped |
| NetService.ParseMSPacket | NetService.go:58-78 | never returns an error; each of the four timestamps encodes back to the big-endian word at offset 16, 20, 24 or 28 |
| NetService.CreateMicroSoftNTPResponse | NetService.go:129-169 | ignores the request; the result is a 48-byte buffer with 0x24 and 0x01 in bytes 0 and 1, the bytes of `now >> 24`, `>> 16`, `>> 8` and `now` in bytes 40 to 43, and zeros elsewhere; the error is nil |
| NetService.MicrosoftResponseLayout | NetService.go:160-168 | the Microsoft reply is 48 bytes, starts 0x24 0x01, its word at 40 is `now` modulo 2^32 (negative times included), and every other byte is zero |
| NetService.MicrosoftFlags | NetService.go:161-162 | read by the standard decoder, the Microsoft reply has leap indicator 0, version 4, mode 4 (server) and stratum 1 |
| NetService.IsStandardNtpRequest | NetService.go:225-228 | a request is standard exactly when byte 1 is 3; on a request of at least 40 bytes, that is exactly when the stratum that ParseNTPPacket decodes is 3 |
| NetService.IsMicrosoftNtpRequest | NetService.go:231-233 | a request is Microsoft exactly when byte 2 is 7; on a request of at least 32 bytes, that is exactly when the poll that ParseMSPacket decodes is 7 |
| NetService.ClassifiersOverlap | NetService.go:225-233 | the two tests are not exclusive: a request can pass both |
| MainLoop.Received | main.go:47-48 | the receive buffer has 48 bytes; byte `i` is the datagram's byte `i` when the datagram has one, and zero otherwise |
| MainLoop.DecodeEncode | main.go:19-107 | decoding the 48 bytes written for a packet gives the packet back |
| MainLoop.Decode | main.go:56-57 | `binary.Read` into an `NTPPacket` takes the fields big-endian in declaration order; writing the decoded packet back gives the 48 bytes it was read from |
| MainLoop.GenNTPTimestamp | main.go:142-145 | the timestamp is `unixMilli * 10^7` modulo 2^64, because the `int64` product wraps and is then reinterpreted as `uint64`; it is the product itself when that is a non-negative `int64` |
| Bits.ForceLowBits | main.go:71-72 | `b & 0b11111000` followed by OR with `0b00000100` keeps the top five bits of `b` and sets its low three bits to 4 |
| MainLoop.Respond | main.go:71-86 | the rewritten packet keeps the leap indicator and version of the request with mode 4; stratum, precision, root delay, root dispersion, reference id and origin are 0; poll is 10; the reference, receive and transmit timestamps are the NTP time |
| MainLoop.Encode | main.go:95-107 | the four single-byte writes and seven big-endian writes into a zeroed 48-byte buffer give the packet's 48-byte serialisation |
| MainLoop.ServeDatagram | main.go:47-107 | one pass of the loop: the reply is the serialisation of the rewritten packet, decoded from the receive buffer and stamped with `GenNTPTimestamp` |
| MainLoop.ReplyLayout | main.go:71-107 | the reply is 48 bytes; byte 0 keeps the top five bits of the request's first byte and has mode 4; stratum is 0, poll 10, precision 0; the three 32-bit header words are 0; the 64-bit words at 16, 32 and 40 are `unixMilli * 10^7` modulo 2^64; the word at 24 is 0 |
| MainLoop.ReplyDependsOnlyOnFirstByte | main.go:71-107 | for a fixed clock, two requests with the same first byte get the same reply |
| MainLoop.ShortDatagram | main.go:47-57 | a datagram shorter than 48 bytes decodes with zero in every field that starts at or past its end |
| BigEndian.PutUint32 | NetService.go:114-122 | writing a `uint32` at offset `i` keeps the length, the four bytes read back as the value, and no other byte changes |
| BigEndian.PutUint64 | main.go:104-107 | writing a `uint64` at offset `i` keeps the length, the eight bytes read back as the value, and no other byte changes |
| BigEndian.Uint32 | NetService.go:95-97 | `binary.BigEndian.Uint32` makes byte `i` the most significant byte of the result and byte `i + 3` the least |
| BigEndian.Uint64 | main.go:57 | a big-endian 64-bit read has the word at `i` as its high half and the word at `i + 4` as its low half |
| Bits.And | NetService.go:89-91 | `a & b`, computed bit by bit, is at most each operand |
| Bits.Or | NetService.go:110 | the OR of `a` and `b`, computed bit by bit, is at least each operand |
| Bits.ShiftLeft | NetService.go:110 | `a << k` on a byte agrees with `a * 2^k` modulo 256: the bits shifted past bit 7 are lost |
| Bits.ShiftRight | NetService.go:89-90 | `a >> k` on a byte is `a / 2^k` rounded down, and is at most `a` |
| BigEndian.Uint32BytesOf | NetService.go:95-97 | four bytes are the big-endian encoding of the `uint32` they decode to |
| BigEndian.Uint64BytesOf | main.go:57 | eight bytes are the big-endian encoding of the `uint64` they decode to |
| BigEndian.ShiftedByteLow32 | NetService.go:165-168 | `byte(x >> s)` for a shift of 0, 8, 16 or 24 bits depends only on the low 32 bits of `x`, negative `x` included |
| GoInts.ByteOf | NetService.go:165-168 | `byte(x)` agrees with `x` modulo 256, negative `x` included, and is `x` itself when `x` is already a byte |
| GoInts.Uint32Of | NetService.go:117-122 | `uint32(x)` agrees with `x` modulo 2^32 and is `x` itself when `x` is in range |
| GoInts.Uint64Of | main.go:145 | `uint64(x)` agrees with `x` modulo 2^64 and is `x` itself when `x` is in range |
| GoInts.Int64Of | main.go:142 | the `int64` result of an operation that may overflow agrees with the mathematical value modulo 2^64 and is that value when it fits in `int64`; it also models the sum at NetService.go:121 |
| GoInts.Uint32OfInt64Of | NetService.go:117-122 | wrapping to `int64` and then truncating to `uint32` keeps the value modulo 2^32 |
| GoInts.Uint64OfInt64Of | main.go:142-145 | wrapping to `int64` and then reinterpreting as `uint64` keeps the value modulo 2^64 |

## Left out

- Sockets, `fmt.Println` and `time.Sleep` are left out because they are I/O.
  This covers `ListenUDP`, `ReadFromUDP`, `WriteToUDP` and the two `Handle…`
  methods of `NTPService`, which only chain a parse, a reply and a socket
  write. The received datagram is a parameter, and the reply is the result.
- `time.Now()` is left out. The model takes Unix seconds for `NetService.go`
  and Unix milliseconds for `main.go` as parameters instead.
- Sub-second parts of `time.Time` are left out. The decoders build every
  timestamp with zero nanoseconds. The clock readings do carry nanoseconds:
  `time.Now()` at NetService.go:121 and :157, and at main.go:142. But the
  code reads them only through `Unix()` in `NetService.go` and `UnixMilli()`
  in `main.go`. Those integers are what the clock parameters stand for.
- `ReadFromUDP` errors are left out: the loop prints and continues on a
  failed read, and the model has no failed read. `binary.Read` errors are left
  out too: it always has 48 bytes to read, and the loop ignores its error.
- NetService.ParseNTPPacket: the `seq` parameter stands for the first 40
  bytes of the slice's backing storage, which is what the `requires` asks
  for. The model has no notion of slice capacity. Only `buf[0]` to `buf[3]`
  are direct indexes. The other reads are slice expressions such as
  `buf[32:40]`, and Go bounds those by capacity, not length. So the Go code
  panics only when fewer than 4 bytes are in the slice, or the capacity is
  below 40. A slice with 4 to 39 bytes and enough capacity is decoded from
  bytes past its length, and the model does not cover that case.
- NetService.ParseMSPacket: the same holds with 32 bytes in place of 40.
- The classifiers require as many bytes as they index (2 and 3). On a shorter
  slice the Go code panics, and the model does not cover a panic.
- NetService.CreateNTPResponse takes the reply length as a parameter of at
  least 36 bytes. The code names it `NtpV4PacketSize`, which none of
  `main.go`, `NetService.go` and `CreatebyChatGPT.go` defines.
- `getNTPTime` in `main.go` is left out: it works on floating point and is
  never called.
- The `NTPv4Packet` struct is left out because nothing uses it. The
  commented-out code is left out too. `CreatebyChatGPT.go` (all commented out)
  is not part of this model.
- Aliasing between buffers is not modelled, because buffers are sequence
  values. Every buffer that a reply builder or the loop writes is a fresh
  local. There are two places where Go shares storage with the caller. The
  `buf` the parsers receive belongs to the caller. So does
  `pkt.Authentication = buf[32:40]` (NetService.go:102), which aliases the
  caller's buffer. No core operation reads or writes either one after
  parsing, so value semantics give the same results.
