/**
  Concrete datagrams: the vector of the repository's own test, an odd-length
  payload, an empty payload, a checksum that comes out as zero, and a sum
  that needs more than one round of folding.
 */
module UdpVectors {
  import opened BigEndian
  import opened Udp

  /** The bytes of "hello world". */
  const HelloWorld: seq<uint8> := [104, 101, 108, 108, 111, 32, 119, 111, 114, 108, 100]

  /** The bytes of "odd". */
  const Odd: seq<uint8> := [111, 100, 100]

  /**
    A payload whose own word sum is 0xFFDA; with all-zero ports and addresses,
    adding protocol 17 and the two length fields of 10 brings the total to 0xFFFF.
   */
  const ZeroSumPayload: seq<uint8> := [0xFF, 0xDA]

  /** Source 192.168.0.103 (0xC0A80067), destination 192.168.0.1 (0xC0A80001), ports 57090 and 8000. */
  const SourceAddr: uint32 := 3232235623
  const DestAddr: uint32 := 3232235521
  const SourcePort: uint16 := 57090
  const DestPort: uint16 := 8000

  lemma {:induction false} HelloWorldWordSum()
    ensures WordSum(HelloWorld) == 168396
  {
    assert WordsFrom(HelloWorld, 12) == 0;
    assert WordsFrom(HelloWorld, 10) == 25600;
    assert WordsFrom(HelloWorld, 8) == 54892;
    assert WordsFrom(HelloWorld, 6) == 85467;
    assert WordsFrom(HelloWorld, 4) == 113915;
    assert WordsFrom(HelloWorld, 2) == 141671;
  }

  /** The known vector: "hello world" from port 57090 to port 8000 has checksum 60925. */
  lemma {:induction false} HelloWorldChecksum()
    ensures NewPacket(HelloWorld, SourcePort, DestPort, SourceAddr, DestAddr).header.checksum == 60925
  {
    var h := Header(SourcePort, DestPort, 19, 0, HelloWorld);
    var ph := PseudoHeader(SourceAddr, DestAddr, 19);
    HelloWorldWordSum();
    assert PseudoHeaderSum(ph) == 98780;
    assert HeaderSum(h) == 65109;
    assert Accumulated(h, ph) == 332285;
    assert Fold(332285) == Fold(4610) == 4610;
    NewPacketUnfolds(HelloWorld, SourcePort, DestPort, SourceAddr, DestAddr);
  }

  /** The last byte of "odd" is the high byte of a word whose low byte is zero. */
  lemma {:induction false} OddPayloadChecksum()
    ensures WordSum(Odd) == 111 * 0x100 + 100 + 100 * 0x100
    ensures NewPacket(Odd, SourcePort, DestPort, SourceAddr, DestAddr).header.checksum == 44151
  {
    var h := Header(SourcePort, DestPort, 11, 0, Odd);
    var ph := PseudoHeader(SourceAddr, DestAddr, 11);
    assert WordsFrom(Odd, 4) == 0;
    assert WordsFrom(Odd, 2) == 25600;
    assert PseudoHeaderSum(ph) == 98772;
    assert HeaderSum(h) == 65101;
    assert Accumulated(h, ph) == 217989;
    assert Fold(217989) == Fold(21384) == 21384;
    NewPacketUnfolds(Odd, SourcePort, DestPort, SourceAddr, DestAddr);
  }

  /** An empty payload: length 8 and a checksum over the fixed fields alone. */
  lemma {:induction false} EmptyPayload(sourcePort: uint16, destPort: uint16, sourceAddr: uint32, destAddr: uint32)
    ensures var p := NewPacket([], sourcePort, destPort, sourceAddr, destAddr);
      && p.header.length == HeaderSize
      && p.header.checksum == 0xFFFF - Fold(PseudoHeaderSum(p.pHeader) + HeaderSum(p.header))
  {
    var p := NewPacket([], sourcePort, destPort, sourceAddr, destAddr);
    assert WordSum([]) == 0;
    NoWrapAround(p.header, p.pHeader);
  }

  /**
    A datagram whose checksum comes out as zero is sent with zero in the
    checksum field, not with all ones.
   */
  lemma {:induction false} ZeroChecksumIsKept()
    ensures NewPacket(ZeroSumPayload, 0, 0, 0, 0).header.checksum == 0
  {
    var h := Header(0, 0, 10, 0, ZeroSumPayload);
    var ph := PseudoHeader(0, 0, 10);
    assert WordsFrom(ZeroSumPayload, 2) == 0;
    assert WordSum(ZeroSumPayload) == 0xFFDA;
    assert PseudoHeaderSum(ph) == 27 && HeaderSum(h) == 10;
    assert Accumulated(h, ph) == 0xFFFF;
    assert Fold(0xFFFF) == 0xFFFF;
    NewPacketUnfolds(ZeroSumPayload, 0, 0, 0, 0);
  }

  /** 0x1FFFF folds once to 0x10000, which still does not fit: folding must repeat. */
  lemma {:induction false} FoldRepeats()
    ensures 0x1_FFFF % 0x1_0000 + 0x1_FFFF / 0x1_0000 == 0x1_0000
    ensures Fold(0x1_FFFF) == 1
  {
    assert Fold(0x1_0000) == Fold(1);
  }
}
