# UDP datagram construction and checksum, in Dafny

This project models the Go package `udp` (`packet.go`). The package builds a
UDP datagram as RFC 768 defines it and lays it out on the wire:

- `NewPacket` fills in the header. The length field is `8 + len(data)`,
  truncated to 16 bits. The pseudo-header repeats the length. The checksum
  is computed and stored.
- `checksum` computes the Internet checksum (section 1 of RFC 1071). It adds
  16-bit words into a `uint32`: the four address halves, protocol 17, the
  pseudo-header length, both ports, the header length, and the payload read
  as big-endian words. An odd last byte is the high byte of a word whose low
  byte is zero. It then folds the carries until the total fits in 16 bits,
  and returns the total XOR `0xFFFF`.
- `uint32ToTwoUint16` splits a 32-bit value into its low and high 16 bits,
  one bit at a time.
- `Pack` writes the four header fields big-endian into a fresh buffer,
  followed by the payload.

Files:

- `big_endian.dfy` (module `BigEndian`): the `uint8`/`uint16`/`uint32` types,
  and the big-endian 16-bit get and put that the Go code takes from
  `encoding/binary`, written out inline.
- `bit_arith.dfy` (module `BitArith`): powers of two, single bits, bitwise
  XOR on integers, and the division facts the bit loops need.
- `packet.dfy` (module `Udp`): the three structs as datatypes, the four Go
  functions, the specification functions they are proved against, and the
  properties.
- `vectors.dfy` (module `UdpVectors`): concrete datagrams, including the
  vector of `packet_test.go`.

`NewPacket` only assigns fields, so it is a function. `checksum`,
`uint32ToTwoUint16` and `Pack` work with loops and buffer writes, so they are
methods. Each method is proved equal to a specification function:
`Checksum` to `ChecksumOf`, `Pack` to `Wire`, and `Uint32ToTwoUint16` to
`n % 2^16` and `n / 2^16`. The properties are proved about those functions.

The Go accumulator is a `uint32`. `Checksum` reduces it modulo 2^32 on every
payload word, as Go does, so the model has no precondition on the payload
length. `NoWrapAround` shows that the reduction never takes effect for a
payload of at most 131057 bytes, whatever the other fields hold, and
`WrapAroundPossible` shows that one byte more can make it wrap.

RFC 768 says a computed checksum of zero is sent as all ones. The Go code does
not do this, and the model keeps its behaviour (`ChecksumZeroNotReplaced`,
`ZeroChecksumIsKept`).

Three more facts about the code that the model keeps:

- A payload longer than 65527 bytes gets its length field truncated to 16
  bits, and the model truncates it the same way. The `uint32` accumulator
  wraps only from 131058 payload bytes on; `Checksum` and `Accumulated`
  reproduce that wrap exactly.
- Ports and addresses are bounded by their types, `uint16` and `uint32`, as in
  Go. There is no error path, and the model has none.
- Both 16-bit halves of each address are added to the sum, so their order
  does not matter.

## Model

| member | source | states |
|---|---|---|
| `Udp.Uint32ToTwoUint16` | packet.go:87-103 | the bit loops give `num1 == n % 2^16` and `num2 == n / 2^16`, so `num1 + 2^16 * num2 == n` |
| `BitArith.CopyBitStep` | packet.go:90-99 | setting bit i of the partial result when bit i of n is set extends the copy of the low i bits to i + 1 bits, and keeps it below 2^16 |
| `BitArith.BitOfShifted` | packet.go:96-100 | bit 16 + k of n is bit k of n's high half, which the second bit loop copies to bit k of `num2` |
| `Udp.Checksum` | packet.go:57-85 | the method's result equals `ChecksumOf`: the complement of the folded sum of all words, with the sum taken modulo 2^32 as the `uint32` accumulator does |
| `Udp.AccumulateWord` | packet.go:70-77 | one turn of the payload loop, adding a word modulo 2^32, keeps the final sum modulo 2^32 unchanged |
| `Udp.WordSumCountsEachByteOnce` | packet.go:70-77 | the payload loop's word sum equals the reference sum in which every byte counts exactly once, at weight 256 at an even offset and 1 at an odd offset |
| `Udp.WordsFromByteSum` | packet.go:70-77 | the words from an even offset on add up to the weighted bytes from that offset on |
| `Udp.OddTrailingByte` | packet.go:71-73 | with an odd length, the last byte adds `256 * byte`, so padding the payload with a zero byte leaves the sum unchanged |
| `Udp.ByteSumAppend` | packet.go:46-52 | word sums add up across a boundary at an even offset, such as the end of the 8-byte header |
| `Udp.WordsFromBound` | packet.go:70-77 | each full payload word adds at most 0xFFFF and an odd trailing byte at most 0xFF00 |
| `Udp.NoWrapAround` | packet.go:60-77 | for a payload of at most 131057 bytes, whatever the ports, addresses and length fields, the `uint32` accumulator holds the exact sum of all the words |
| `Udp.WrapAroundPossible` | packet.go:60-77 | with 131058 bytes of 0xFF and all-ones ports, addresses and lengths, the exact sum is 2^32 + 16 and the accumulator wraps to 16, so the bound of `NoWrapAround` is tight |
| `Udp.FoldStepCongruent` | packet.go:79-82 | one fold round keeps the total modulo 0xFFFF |
| `Udp.FoldResidue` | packet.go:79-82 | folding ends below 2^16, keeps the total modulo 0xFFFF, and gives zero only for zero |
| `Udp.FoldClosedForm` | packet.go:79-82 | the folded total is 0 for 0, 0xFFFF for a positive multiple of 0xFFFF, and `t % 0xFFFF` otherwise |
| `Udp.Complement16` | packet.go:84 | `x XOR 0xFFFF` on a 16-bit value equals `0xFFFF - x` |
| `BitArith.XorAllOnes` | packet.go:84 | XOR with w one-bits complements every w-bit number |
| `Udp.ChecksumZeroNotReplaced` | packet.go:84 | the checksum is 0 exactly when the accumulated total is a positive multiple of 0xFFFF; a zero result is not turned into 0xFFFF |
| `Udp.NewPacket` | packet.go:25-43 | the packet keeps the payload, ports and addresses; its length field is `(8 + len(data)) % 2^16`, the pseudo-header length repeats it, and the checksum field holds the packet's checksum |
| `Udp.NewPacketLength` | packet.go:35-36 | with at most 65527 payload bytes, both length fields are exactly `8 + len(data)` |
| `Udp.ChecksumIgnoresChecksumField` | packet.go:60-68 | the checksum does not read the header's checksum field: changing that field leaves the computed checksum unchanged |
| `BigEndian.Uint16Bytes` | packet.go:48-51 | the two bytes written for a 16-bit value, high byte first, read back as that value |
| `BigEndian.Uint16BytesOfGet` | packet.go:73-75 | reading two bytes as a big-endian word and writing it back gives the same two bytes |
| `BigEndian.PutUint16` | packet.go:48-51 | writing a field changes exactly the two bytes at its offset, to its big-endian bytes |
| `Udp.Pack` | packet.go:45-55 | the result is a freshly allocated buffer whose contents are `Wire(p)`: the header bytes, then the payload |
| `Udp.WireLayout` | packet.go:46-52 | the wire form is `8 + len(data)` bytes; the words at offsets 0, 2, 4 and 6 decode to the source port, destination port, length and checksum; bytes from 8 on are the payload |
| `Udp.WireWordSum` | packet.go:46-52 | the word sum of the wire form is the ports, length and checksum plus the payload's word sum |
| `Udp.FoldWithComplement` | packet.go:79-84 | adding the complement of a positive total's fold to that total makes it fold to 0xFFFF |
| `Udp.ChecksumVerifies` | packet.go:37-52 | for a packet built by `NewPacket` with at most 65527 payload bytes, the folded sum of the pseudo-header and of every word of the packed datagram, checksum included, is 0xFFFF: the receiver's check of RFC 768 succeeds whenever the stored checksum is nonzero; a stored 0 (see `ZeroChecksumIsKept`) reads to an RFC 768 receiver as "no checksum sent", so nothing is checked |
| `UdpVectors.HelloWorldChecksum` | packet_test.go:8-9 | "hello world" from port 57090 to 8000, between addresses 3232235623 and 3232235521, has checksum 60925 |
| `UdpVectors.OddPayloadChecksum` | packet.go:71-73 | the 3-byte payload "odd" sums to `'o' * 256 + 'd' + 'd' * 256`, and with the same ports and addresses its checksum is 44151 |
| `UdpVectors.EmptyPayload` | packet.go:35-37 | an empty payload gives length 8 and a checksum over the fixed fields alone |
| `UdpVectors.ZeroChecksumIsKept` | packet.go:84 | payload 0xFF 0xDA with zero ports and addresses gets checksum 0, not 0xFFFF |
| `UdpVectors.FoldRepeats` | packet.go:79-82 | 0x1FFFF folds once to 0x10000, which does not fit in 16 bits, and folds again to 1, so one round is not enough |

## Left out

- `encoding/binary` is not part of this model. Its `PutUint16` and `Uint16` are written out inline as `BigEndian.PutUint16` and `BigEndian.GetUint16`.
- Slice aliasing: `NewPacket` stores the caller's slice, and Go could mutate it later. Payloads here are immutable sequences, so aliasing cannot arise.
- The `testing` harness of `packet_test.go`: only its vector is kept, as `UdpVectors.HelloWorldChecksum`.
- Go's `int` for `len(data)` is unbounded here. The truncation to 16 bits is modelled.
- Udp.NewPacketLength: stated only for payloads of at most 65527 bytes. Beyond that the code truncates the length field, and `NewPacket` says so.
- Udp.ChecksumVerifies: stated only for payloads of at most 65527 bytes. A longer payload gives a datagram whose length field is wrong, and nothing is claimed about it.
