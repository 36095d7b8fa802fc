/**
  A UDP datagram as RFC 768 defines it: building the header, computing the
  Internet checksum (RFC 1071, section 1) over the IPv4 pseudo-header, the
  header and the payload, and laying the datagram out on the wire.

  Packets are values. `NewPacket` is a function, as the Go constructor only
  assigns fields; `Checksum`, `Uint32ToTwoUint16` and `Pack` are methods
  with the loops and the buffer writes of the Go code, each proved equal to
  a specification function about which the properties are proved.
 */
module Udp {
  import opened BitArith
  import opened BigEndian

  /** The IPv4 protocol number of UDP, carried in the pseudo-header. */
  const UdpProtocolType: uint16 := 17

  /** Size in bytes of the UDP header: four 16-bit fields. */
  const HeaderSize := 8

  /** 2^32: the Go accumulator is a uint32 and wraps around at this value. */
  const Uint32Modulus := 0x1_0000_0000

  datatype Header = Header(
    sourcePort: uint16,
    destinationPort: uint16,
    length: uint16,
    checksum: uint16,
    data: seq<uint8>)

  /** The part of the IPv4 header that the checksum covers; never transmitted. */
  datatype PseudoHeader = PseudoHeader(
    sourceAddr: uint32,
    destinationAddr: uint32,
    length: uint16)

  datatype Packet = Packet(header: Header, pHeader: PseudoHeader)

  // ---------------------------------------------------------------------
  // Splitting a 32-bit value into 16-bit halves
  // ---------------------------------------------------------------------

  /**
    uint32ToTwoUint16: copies bits 0..15 of n into num1 and bits 16..31 into
    num2, one bit at a time.
   */
  method Uint32ToTwoUint16(n: uint32) returns (num1: uint16, num2: uint16)
    ensures num1 == n % 0x1_0000 && num2 == n / 0x1_0000
    ensures num1 + 0x1_0000 * num2 == n
  {
    Pow2Constants();
    num1, num2 := 0, 0;

    for i := 0 to 16
      invariant num1 == n % Pow2(i)
    {
      CopyBitStep(n, num1, i, 16);
      if Bit(n, i) == 1 {
        num1 := SetBit(num1, i);
      }
    }

    var upper: nat := n / 0x1_0000;
    for i := 16 to 32
      invariant num2 == upper % Pow2(i - 16)
    {
      BitOfShifted(n, 16, i - 16, upper);
      CopyBitStep(upper, num2, i - 16, 16);
      if Bit(n, i) == 1 {
        num2 := SetBit(num2, i - 16);
      }
    }
    assert upper < 0x1_0000;
  }

  // ---------------------------------------------------------------------
  // The checksum, as specification functions
  // ---------------------------------------------------------------------

  /**
    The 16-bit word that starts at offset i of the payload. A trailing odd
    byte is the high byte of a word whose low byte is zero.
   */
  function WordAt(data: seq<uint8>, i: nat): (w: uint16)
    requires i < |data|
  {
    if i + 1 == |data| then GetUint16([data[|data| - 1], 0], 0) else GetUint16(data, i)
  }

  /** Sum of the payload words starting at offset i, advancing two bytes at a time. */
  function WordsFrom(data: seq<uint8>, i: nat): (sum: nat)
    decreases |data| - i
  {
    if i >= |data| then 0 else WordAt(data, i) + WordsFrom(data, i + 2)
  }

  /** Sum of all the 16-bit words of a byte sequence (the payload loop of checksum). */
  function WordSum(data: seq<uint8>): (sum: nat)
  {
    WordsFrom(data, 0)
  }

  /** Weight of the byte at offset k in a big-endian word sum: high bytes count 256, low bytes 1. */
  function ByteWeight(k: nat): (weight: nat)
  {
    if k % 2 == 0 then 0x100 else 1
  }

  /** Reference definition of the word sum: every byte once, times its weight. */
  function ByteSum(s: seq<uint8>): (sum: nat)
  {
    if s == [] then 0 else ByteSum(s[..|s| - 1]) + s[|s| - 1] * ByteWeight(|s| - 1)
  }

  /** The pseudo-header words: both halves of both addresses, the protocol number and the length. */
  function PseudoHeaderSum(ph: PseudoHeader): (sum: nat)
  {
    ph.sourceAddr % 0x1_0000 + ph.sourceAddr / 0x1_0000
    + ph.destinationAddr % 0x1_0000 + ph.destinationAddr / 0x1_0000
    + UdpProtocolType + ph.length
  }

  /** The header words the checksum covers: both ports and the length, not the checksum field. */
  function HeaderSum(h: Header): (sum: nat)
  {
    h.sourcePort + h.destinationPort + h.length
  }

  /** The value of the uint32 accumulator after the payload loop: the word sum modulo 2^32. */
  function Accumulated(h: Header, ph: PseudoHeader): (total: uint32)
  {
    (PseudoHeaderSum(ph) + HeaderSum(h) + WordSum(h.data)) % Uint32Modulus
  }

  /**
    End-around-carry folding: add the bits above the low 16 to the low 16
    until the total fits in 16 bits.
   */
  function Fold(t: nat): (r: uint16)
    decreases t
  {
    if t < 0x1_0000 then t else Fold(t % 0x1_0000 + t / 0x1_0000)
  }

  /** One round of folding keeps the total modulo 2^16 - 1, as 2^16 is 1 modulo 2^16 - 1. */
  lemma {:induction false} FoldStepCongruent(t: nat)
    ensures (t % 0x1_0000 + t / 0x1_0000) % 0xFFFF == t % 0xFFFF
  {
    var q, r := t / 0x1_0000, t % 0x1_0000;
    assert t == (q + r) + 0xFFFF * q;
    var q', r' := (q + r) / 0xFFFF, (q + r) % 0xFFFF;
    assert t == (q' + q) * 0xFFFF + r';
    DivModUnique(t, 0xFFFF, q' + q, r');
  }

  /**
    Each round of folding keeps the total modulo 2^16 - 1 and keeps it
    positive, so the folded value is the one's-complement sum of t.
   */
  lemma {:induction false} FoldResidue(t: nat)
    ensures Fold(t) % 0xFFFF == t % 0xFFFF
    ensures Fold(t) == 0 <==> t == 0
    decreases t
  {
    if t >= 0x1_0000 {
      FoldStepCongruent(t);
      FoldResidue(t % 0x1_0000 + t / 0x1_0000);
    }
  }

  /** Go's `uint16(total) ^ ((1 << 16) - 1)`: the bitwise complement of a 16-bit value. */
  function Complement16(x: uint16): (r: uint16)
    ensures r == 0xFFFF - x
  {
    Pow2Constants();
    XorAllOnes(x, 16);
    Xor(x, 0xFFFF, 16)
  }

  /** The checksum that checksum(header, pHeader) returns. */
  function ChecksumOf(h: Header, ph: PseudoHeader): (r: uint16)
  {
    Complement16(Fold(Accumulated(h, ph)))
  }

  // ---------------------------------------------------------------------
  // Properties of the word sum and of folding
  // ---------------------------------------------------------------------

  lemma {:induction false} WordsFromByteSum(data: seq<uint8>, i: nat)
    requires i % 2 == 0 && i <= |data|
    ensures ByteSum(data[..i]) + WordsFrom(data, i) == ByteSum(data)
    decreases |data| - i
  {
    if i == |data| {
      assert data[..i] == data;
    } else if i + 1 == |data| {
      assert data[..|data|][..i] == data[..i];
      assert data[..|data|] == data;
    } else {
      WordsFromByteSum(data, i + 2);
      assert data[..i + 2][..i + 1] == data[..i + 1];
      assert data[..i + 1][..i] == data[..i];
    }
  }

  /**
    The payload loop counts every byte exactly once: the byte at an even
    offset as the high byte of a word, the byte at an odd offset as the low
    byte.
   */
  lemma {:induction false} WordSumCountsEachByteOnce(data: seq<uint8>)
    ensures WordSum(data) == ByteSum(data)
  {
    WordsFromByteSum(data, 0);
    assert data[..0] == [];
  }

  /** Word sums add up across a boundary at an even offset. */
  lemma {:induction false} ByteSumAppend(a: seq<uint8>, b: seq<uint8>)
    requires |a| % 2 == 0
    ensures ByteSum(a + b) == ByteSum(a) + ByteSum(b)
  {
    if b == [] {
      assert a + b == a;
    } else {
      var b' := b[..|b| - 1];
      ByteSumAppend(a, b');
      assert (a + b)[..|a + b| - 1] == a + b';
      assert ByteWeight(|a + b| - 1) == ByteWeight(|b| - 1);
    }
  }

  /**
    An odd trailing byte is added as the high byte of a word whose low byte
    is zero: padding the payload with one zero byte changes nothing.
   */
  lemma {:induction false} OddTrailingByte(data: seq<uint8>)
    requires |data| % 2 == 1
    ensures WordSum(data) == WordSum(data[..|data| - 1]) + data[|data| - 1] as int * 0x100
    ensures WordSum(data + [0]) == WordSum(data)
  {
    WordSumCountsEachByteOnce(data);
    WordSumCountsEachByteOnce(data[..|data| - 1]);
    WordSumCountsEachByteOnce(data + [0]);
    assert (data + [0])[..|data|] == data;
  }

  /**
    Each full word adds at most 0xFFFF, and an odd trailing byte, being the
    high byte of a word whose low byte is zero, at most 0xFF00.
   */
  lemma {:induction false} WordsFromBound(data: seq<uint8>, i: nat)
    requires i <= |data|
    ensures WordsFrom(data, i)
         <= 0xFFFF * ((|data| - i) / 2) + (if (|data| - i) % 2 == 1 then 0xFF00 else 0)
    decreases |data| - i
  {
    if i + 2 <= |data| {
      WordsFromBound(data, i + 2);
    } else if i + 1 == |data| {
      assert WordsFrom(data, i + 2) == 0;
    }
  }

  /** The largest payload for which the 16-bit length field does not wrap around. */
  const MaxPayload := 0xFFFF - HeaderSize

  /**
    The largest payload for which the uint32 accumulator cannot wrap around,
    whatever the ports, addresses and length fields hold.
   */
  const MaxExactPayload := 131057

  /**
    Up to MaxExactPayload bytes the uint32 accumulator never wraps around: it
    holds the exact sum of all the words.
   */
  lemma {:induction false} NoWrapAround(h: Header, ph: PseudoHeader)
    requires |h.data| <= MaxExactPayload
    ensures Accumulated(h, ph) == PseudoHeaderSum(ph) + HeaderSum(h) + WordSum(h.data)
  {
    WordsFromBound(h.data, 0);
    var n := |h.data|;
    assert n / 2 <= 65528;
    assert WordSum(h.data) <= 0xFFFF * 65528 + 0xFF00;
  }

  /** A payload of n bytes, every one 0xFF. */
  function AllOnesPayload(n: nat): (data: seq<uint8>)
    ensures |data| == n && forall k :: 0 <= k < n ==> data[k] == 0xFF
  {
    seq(n, k => 0xFF)
  }

  lemma {:induction false} AllOnesWords(data: seq<uint8>, i: nat)
    requires i <= |data| && (|data| - i) % 2 == 0
    requires forall k :: 0 <= k < |data| ==> data[k] == 0xFF
    ensures WordsFrom(data, i) == 0xFFFF * ((|data| - i) / 2)
    decreases |data| - i
  {
    if i < |data| {
      AllOnesWords(data, i + 2);
      assert WordAt(data, i) == 0xFFFF;
    }
  }

  /**
    MaxExactPayload is tight: one byte more, with every byte, port, address
    and length field all ones, and the exact sum passes 2^32, so the
    accumulator wraps to 16.
   */
  lemma {:induction false} WrapAroundPossible()
    ensures var h := Header(0xFFFF, 0xFFFF, 0xFFFF, 0, AllOnesPayload(MaxExactPayload + 1));
            var ph := PseudoHeader(0xFFFF_FFFF, 0xFFFF_FFFF, 0xFFFF);
            && PseudoHeaderSum(ph) + HeaderSum(h) + WordSum(h.data) == Uint32Modulus + 16
            && Accumulated(h, ph) == 16
  {
    var data := AllOnesPayload(MaxExactPayload + 1);
    AllOnesWords(data, 0);
    assert WordSum(data) == 0xFFFF * 65529;
  }

  /**
    Folding computes the one's-complement sum: zero only for zero, 0xFFFF
    (the one's-complement "negative zero") for a positive multiple of
    0xFFFF, and the remainder modulo 0xFFFF otherwise.
   */
  lemma {:induction false} FoldClosedForm(t: nat)
    ensures Fold(t) == if t == 0 then 0 else if t % 0xFFFF == 0 then 0xFFFF else t % 0xFFFF
  {
    FoldResidue(t);
  }

  /**
    A computed checksum of zero is returned as zero: the substitution of
    all ones that RFC 768 prescribes for this case is not made.
   */
  lemma {:induction false} ChecksumZeroNotReplaced(h: Header, ph: PseudoHeader)
    ensures ChecksumOf(h, ph) == 0 <==> Accumulated(h, ph) > 0 && Accumulated(h, ph) % 0xFFFF == 0
  {
    FoldClosedForm(Accumulated(h, ph));
  }

  /** One turn of the payload loop: adding the word at i modulo 2^32 keeps the final sum. */
  lemma {:induction false} AccumulateWord(data: seq<uint8>, i: nat, total: nat, word: nat)
    requires i < |data| && word == WordAt(data, i)
    ensures ((total + word) % Uint32Modulus + WordsFrom(data, i + 2)) % Uint32Modulus
         == (total + WordsFrom(data, i)) % Uint32Modulus
  {
    ModAddMod(total + word, WordsFrom(data, i + 2), Uint32Modulus);
  }

  // ---------------------------------------------------------------------
  // checksum
  // ---------------------------------------------------------------------

  /**
    checksum: the one's complement of the one's-complement sum of the
    pseudo-header, the header and the payload. The accumulator is a uint32
    and wraps around as Go's does.
   */
  method Checksum(header: Header, pHeader: PseudoHeader) returns (r: uint16)
    ensures r == ChecksumOf(header, pHeader)
  {
    var sourceAddr1, sourceAddr2 := Uint32ToTwoUint16(pHeader.sourceAddr);
    var destinationAddr1, destinationAddr2 := Uint32ToTwoUint16(pHeader.destinationAddr);
    var total: uint32 := sourceAddr1 + sourceAddr2 + destinationAddr1 + destinationAddr2
      + UdpProtocolType + pHeader.length
      + header.sourcePort + header.destinationPort + header.length;

    var data := header.data;
    ghost var exact := total + WordSum(data);
    var i := 0;
    while i < |data|
      invariant i % 2 == 0 && i <= |data| + 1
      invariant (total + WordsFrom(data, i)) % Uint32Modulus == exact % Uint32Modulus
      decreases |data| - i
    {
      var word;
      if i + 1 == |data| {
        word := GetUint16([data[|data| - 1], 0], 0);
      } else {
        word := GetUint16(data, i);
      }
      AccumulateWord(data, i, total, word);
      total := (total + word) % Uint32Modulus;
      i := i + 2;
    }
    assert total == Accumulated(header, pHeader);

    ghost var accumulated := total;
    while total >= 0x1_0000
      invariant Fold(total) == Fold(accumulated)
      decreases total
    {
      var num1, num2 := Uint32ToTwoUint16(total);
      total := num1 as int + num2 as int;
    }

    r := Complement16(total);
  }

  // ---------------------------------------------------------------------
  // NewPacket
  // ---------------------------------------------------------------------

  /**
    The invariant of a packet built by NewPacket: the length field is
    8 + |data| truncated to 16 bits, the pseudo-header repeats it, and the
    checksum field holds the checksum of the rest.
   */
  predicate WellFormed(p: Packet)
  {
    && p.header.length == (HeaderSize + |p.header.data|) % 0x1_0000
    && p.pHeader.length == p.header.length
    && p.header.checksum == ChecksumOf(p.header, p.pHeader)
  }

  /** NewPacket: the packet carrying data between the given ports and addresses. */
  function NewPacket(data: seq<uint8>, sourcePort: uint16, destPort: uint16,
                     sourceAddr: uint32, destAddr: uint32): (p: Packet)
    ensures WellFormed(p)
    ensures p.header.data == data
    ensures p.header.sourcePort == sourcePort && p.header.destinationPort == destPort
    ensures p.pHeader.sourceAddr == sourceAddr && p.pHeader.destinationAddr == destAddr
  {
    var header := Header(sourcePort, destPort, (HeaderSize + |data|) % 0x1_0000, 0, data);
    var pHeader := PseudoHeader(sourceAddr, destAddr, header.length);
    Packet(header.(checksum := ChecksumOf(header, pHeader)), pHeader)
  }

  /** For every payload that fits, the length field is exactly 8 + |data|. */
  lemma {:induction false} NewPacketLength(data: seq<uint8>, sourcePort: uint16, destPort: uint16,
                        sourceAddr: uint32, destAddr: uint32)
    requires |data| <= MaxPayload
    ensures NewPacket(data, sourcePort, destPort, sourceAddr, destAddr).header.length == HeaderSize + |data|
    ensures NewPacket(data, sourcePort, destPort, sourceAddr, destAddr).pHeader.length == HeaderSize + |data|
  {
    var n := HeaderSize + |data|;
    DivModUnique(n, 0x1_0000, 0, n);
    var p := NewPacket(data, sourcePort, destPort, sourceAddr, destAddr);
    assert p.header.length == n % 0x1_0000;
  }

  /**
    The checksum does not cover the header's own checksum field: whatever that
    field holds, the computed checksum is the same. So computing it before or
    after the field is filled in gives the same value.
   */
  lemma {:induction false} ChecksumIgnoresChecksumField(h: Header, ph: PseudoHeader, c: uint16)
    ensures ChecksumOf(h.(checksum := c), ph) == ChecksumOf(h, ph)
  {
    assert HeaderSum(h.(checksum := c)) == HeaderSum(h);
    assert Accumulated(h.(checksum := c), ph) == Accumulated(h, ph);
  }

  /** Unfolds NewPacket's stored checksum for concrete datagrams. */
  lemma {:induction false} NewPacketUnfolds(data: seq<uint8>, sourcePort: uint16, destPort: uint16,
                          sourceAddr: uint32, destAddr: uint32)
    ensures var length := (HeaderSize + |data|) % 0x1_0000;
      NewPacket(data, sourcePort, destPort, sourceAddr, destAddr).header.checksum
        == ChecksumOf(Header(sourcePort, destPort, length, 0, data), PseudoHeader(sourceAddr, destAddr, length))
  {
  }

  // ---------------------------------------------------------------------
  // Pack
  // ---------------------------------------------------------------------

  /** The 8-byte header as it goes on the wire: four big-endian 16-bit fields. */
  function HeaderBytes(h: Header): (b: seq<uint8>)
  {
    Uint16Bytes(h.sourcePort) + Uint16Bytes(h.destinationPort)
    + Uint16Bytes(h.length) + Uint16Bytes(h.checksum)
  }

  /** The datagram as it goes on the wire: the header, then the payload verbatim. */
  function Wire(p: Packet): (b: seq<uint8>)
  {
    HeaderBytes(p.header) + p.header.data
  }

  /**
    The wire form is 8 + |data| bytes; its four header words decode to the
    ports, the length and the checksum, and the rest is the payload.
   */
  lemma {:induction false} WireLayout(p: Packet)
    ensures |Wire(p)| == HeaderSize + |p.header.data|
    ensures GetUint16(Wire(p), 0) == p.header.sourcePort
    ensures GetUint16(Wire(p), 2) == p.header.destinationPort
    ensures GetUint16(Wire(p), 4) == p.header.length
    ensures GetUint16(Wire(p), 6) == p.header.checksum
    ensures Wire(p)[HeaderSize..] == p.header.data
  {
    var h := p.header;
    var w := Wire(p);
    assert w[0..2] == Uint16Bytes(h.sourcePort);
    assert w[2..4] == Uint16Bytes(h.destinationPort);
    assert w[4..6] == Uint16Bytes(h.length);
    assert w[6..8] == Uint16Bytes(h.checksum);
  }

  /** Pack: a fresh buffer holding the header fields big-endian, then a copy of the payload. */
  method Pack(p: Packet) returns (res: array<uint8>)
    ensures fresh(res)
    ensures res[..] == Wire(p)
  {
    var data := p.header.data;
    res := new uint8[HeaderSize + |data|];

    PutUint16(res, 0, p.header.sourcePort);
    PutUint16(res, 2, p.header.destinationPort);
    PutUint16(res, 4, p.header.length);
    PutUint16(res, 6, p.header.checksum);
    assert res[..HeaderSize] == HeaderBytes(p.header);

    for k := 0 to |data|
      invariant res[..HeaderSize] == HeaderBytes(p.header)
      invariant res[HeaderSize..HeaderSize + k] == data[..k]
    {
      res[HeaderSize + k] := data[k];
      assert res[HeaderSize..HeaderSize + k + 1] == res[HeaderSize..HeaderSize + k] + [data[k]];
    }
    assert res[..] == res[..HeaderSize] + res[HeaderSize..HeaderSize + |data|];
  }

  // ---------------------------------------------------------------------
  // The checksum on the wire
  // ---------------------------------------------------------------------

  lemma {:induction false} ByteSumOfWord(v: uint16)
    ensures ByteSum(Uint16Bytes(v)) == v
  {
    var b := Uint16Bytes(v);
    assert b[..1][..0] == [];
    assert ByteSum(b[..1]) == b[0] as int * 0x100;
    assert b[..|b| - 1] == b[..1];
  }

  lemma {:induction false} ByteSumOfHeader(h: Header)
    ensures ByteSum(HeaderBytes(h)) == HeaderSum(h) + h.checksum
  {
    var a, b, c, d := Uint16Bytes(h.sourcePort), Uint16Bytes(h.destinationPort),
                      Uint16Bytes(h.length), Uint16Bytes(h.checksum);
    ByteSumOfWord(h.sourcePort);
    ByteSumOfWord(h.destinationPort);
    ByteSumOfWord(h.length);
    ByteSumOfWord(h.checksum);
    ByteSumAppend(a, b);
    ByteSumAppend(a + b, c);
    ByteSumAppend(a + b + c, d);
  }

  /** The words of the packed datagram are the header fields, the checksum and the payload words. */
  lemma {:induction false} WireWordSum(p: Packet)
    ensures WordSum(Wire(p)) == HeaderSum(p.header) + p.header.checksum + WordSum(p.header.data)
  {
    WordSumCountsEachByteOnce(Wire(p));
    WordSumCountsEachByteOnce(p.header.data);
    ByteSumAppend(HeaderBytes(p.header), p.header.data);
    ByteSumOfHeader(p.header);
  }

  /** Adding the complement of a positive sum's fold to that sum makes it fold to all ones. */
  lemma {:induction false} FoldWithComplement(s: nat)
    requires s > 0
    ensures Fold(s + Complement16(Fold(s))) == 0xFFFF
  {
    var f := Fold(s);
    var t := s + 0xFFFF - f;
    FoldResidue(s);
    assert f == 0xFFFF * (f / 0xFFFF) + s % 0xFFFF;
    assert s == 0xFFFF * (s / 0xFFFF) + s % 0xFFFF;
    assert t == 0xFFFF * (s / 0xFFFF + 1 - f / 0xFFFF);
    DivModUnique(t, 0xFFFF, s / 0xFFFF + 1 - f / 0xFFFF, 0);
    FoldClosedForm(t);
  }

  /**
    The receiver's check of RFC 768: the one's-complement sum of the
    pseudo-header and of every word of the packed datagram, checksum
    included, is all ones.
   */
  lemma {:induction false} ChecksumVerifies(p: Packet)
    requires WellFormed(p) && |p.header.data| <= MaxPayload
    ensures Fold(PseudoHeaderSum(p.pHeader) + WordSum(Wire(p))) == 0xFFFF
  {
    var h, ph := p.header, p.pHeader;
    NoWrapAround(h, ph);
    WireWordSum(p);
    FoldWithComplement(PseudoHeaderSum(ph) + HeaderSum(h) + WordSum(h.data));
  }
}
