/** The IPv4 and ICMP headers, and the two senders that checksum them. */
module Ip4Header {
  import opened Bytes
  import opened Ip4Address
  import opened SendMedium
  import InternetChecksum

  type Flags = x: int | 0 <= x < 8
  type FragOff = x: int | 0 <= x < 0x2000

  datatype Header = Header(
    version: nibble, headerLen: nibble, typeOfService: byte, totalLen: word, id: word,
    flags: Flags, fragOff: FragOff, ttl: byte, prot: byte, checksum: word,
    srcAddr: Ip4Addr, destAddr: Ip4Addr)

  const HEADER_SIZE := 20

  /** The wire image: every word but the checksum goes through htons. */
  function Image(h: Header): (s: seq<byte>) {
    [h.version * 0x10 + h.headerLen, h.typeOfService]
    + Store16(SwapBytes(h.totalLen))
    + Store16(SwapBytes(h.id))
    + Store16(SwapBytes(h.flags * 0x2000 + h.fragOff))
    + [h.ttl, h.prot]
    + Store16(h.checksum)
    + h.srcAddr + h.destAddr
  }

  method WriteHeader(dest: array<byte>, h: Header) returns (cnt: nat)
    requires HEADER_SIZE <= dest.Length
    modifies dest
    ensures cnt == HEADER_SIZE
    ensures dest[..] == Image(h) + old(dest[HEADER_SIZE..])
  {
    hide SwapBytes;
    ghost var tail := dest[HEADER_SIZE..];
    CopyInto(dest, 0, [h.version * 0x10 + h.headerLen, h.typeOfService]);
    CopyInto(dest, 2, Store16(SwapBytes(h.totalLen)));
    CopyInto(dest, 4, Store16(SwapBytes(h.id)));
    CopyInto(dest, 6, Store16(SwapBytes(h.flags * 0x2000 + h.fragOff)));
    CopyInto(dest, 8, [h.ttl, h.prot]);
    CopyInto(dest, 10, Store16(h.checksum));
    CopyInto(dest, 12, h.srcAddr);
    CopyInto(dest, 16, h.destAddr);
    cnt := HEADER_SIZE;
    assert dest[HEADER_SIZE..] == tail;
    assert dest[..] == dest[..HEADER_SIZE] + dest[HEADER_SIZE..];
  }

  /** Extraction masks the flag bits without shifting them down, and the 3-bit field keeps the low ones. */
  function Extract(s: seq<byte>): Header
    requires HEADER_SIZE <= |s|
  {
    var fragWord := SwapBytes(Load16(s, 6));
    Header(s[0] / 0x10, s[0] % 0x10, s[1], SwapBytes(Load16(s, 2)), SwapBytes(Load16(s, 4)),
           fragWord / 0x2000 * 0x2000 % 8, fragWord % 0x2000, s[8], s[9], Load16(s, 10),
           s[12..16], s[16..20])
  }

  method ReadHeader(s: seq<byte>) returns (h: Header, cnt: nat)
    requires HEADER_SIZE <= |s|
    ensures h == Extract(s) && cnt == HEADER_SIZE
  {
    var src := 0;
    var headerLen, version := s[src] % 0x10, s[src] / 0x10;
    src := src + 1;
    var typeOfService := s[src];
    src := src + 1;
    var totalLen := SwapBytes(Load16(s, src));
    src := src + 2;
    var id := SwapBytes(Load16(s, src));
    src := src + 2;
    var fragOff := SwapBytes(Load16(s, src)) % 0x2000;
    var flags := SwapBytes(Load16(s, src)) / 0x2000 * 0x2000 % 8;
    src := src + 2;
    var ttl := s[src];
    src := src + 1;
    var prot := s[src];
    src := src + 1;
    var checksum := Load16(s, src);
    src := src + 2;
    var srcAddr := s[src..src + 4];
    src := src + 4;
    var destAddr := s[src..src + 4];
    h := Header(version, headerLen, typeOfService, totalLen, id, flags, fragOff, ttl, prot, checksum,
                srcAddr, destAddr);
    cnt := HEADER_SIZE;
  }

  // ---------- IPv4 send: write with a zero checksum, sum, write again ----------

  /** The header that `Send` puts on the wire. */
  function Checksummed(h: Header): Header {
    h.(checksum := InternetChecksum.Checksum(Image(h.(checksum := 0))))
  }

  method Send(surface: Medium?, h: Header, data: seq<byte>)
    modifies if surface == null then {} else {surface}
    ensures surface != null ==> surface.sent == old(surface.sent) + [Image(Checksummed(h)) + data]
  {
    if surface == null {
      return;
    }
    var buff := new byte[HEADER_SIZE + |data|];
    var _ := WriteHeader(buff, h.(checksum := 0));
    assert buff[..][..HEADER_SIZE] == Image(h.(checksum := 0));
    var sum := InternetChecksum.Compute(buff[..], HEADER_SIZE);
    var _ := WriteHeader(buff, h.(checksum := sum));
    assert buff[..HEADER_SIZE] == buff[..][..HEADER_SIZE] == Image(Checksummed(h));
    CopyInto(buff, HEADER_SIZE, data);
    assert buff[..] == buff[..HEADER_SIZE + |data|];
    surface.SendData(buff[..]);
  }

  lemma ImageWithChecksum(h: Header, c: word)
    ensures Image(h.(checksum := c)) == InternetChecksum.WithWord(Image(h.(checksum := 0)), 5, c)
  {
    var zeroed := Image(h.(checksum := 0));
    assert zeroed[..10] + Store16(c) + zeroed[12..] == Image(h.(checksum := c));
  }

  /**
    RFC 791, section 3.1: every header sent sums to zero at a receiver, and the two checksum bytes are
    those of the RFC's big-endian computation over the header with the field zeroed.
   */
  lemma SentHeaderVerifies(h: Header)
    ensures InternetChecksum.Checksum(Image(Checksummed(h))) == 0
    ensures Image(Checksummed(h))[10..12] == Be16(InternetChecksum.RfcChecksum(Image(h.(checksum := 0))))
  {
    var zeroed := Image(h.(checksum := 0));
    assert Load16(zeroed, 10) == 0;
    ImageWithChecksum(h, InternetChecksum.Checksum(zeroed));
    InternetChecksum.StoredChecksumVerifies(zeroed, 5);
    InternetChecksum.NoOverflowUpTo131074(zeroed);
    InternetChecksum.ChecksumOnTheWire(zeroed);
  }

  /** A written header is read back, except that the flags are always read as zero. */
  lemma ExtractOfImage(h: Header, rest: seq<byte>)
    ensures Extract(Image(h) + rest) == h.(flags := 0)
    ensures Extract(Image(h) + rest) == h <==> h.flags == 0
  {
    hide SwapBytes;
    var s := Image(h) + rest;
    SwapBytesGivesNetworkOrder(h.totalLen);
    SwapBytesGivesNetworkOrder(h.id);
    SwapBytesGivesNetworkOrder(h.flags * 0x2000 + h.fragOff);
    Load16At(s, 2, SwapBytes(h.totalLen));
    Load16At(s, 4, SwapBytes(h.id));
    Load16At(s, 6, SwapBytes(h.flags * 0x2000 + h.fragOff));
    Load16At(s, 10, h.checksum);
    assert s[12..16] == h.srcAddr && s[16..20] == h.destAddr;
    FlagsVanish(h.flags, h.fragOff);
  }

  lemma FlagsVanish(flags: Flags, fragOff: FragOff)
    ensures var w := flags * 0x2000 + fragOff; w / 0x2000 * 0x2000 % 8 == 0 && w % 0x2000 == fragOff
  {
  }

  /**
    RFC 791, section 3.1, octet by octet: what a reader of the standard finds in a packet sent. Flags and
    fragment offset share two octets.
   */
  lemma SentOctets(h: Header, data: seq<byte>)
    ensures var p := Image(Checksummed(h)) + data;
      && |p| == 20 + |data| && p[20..] == data
      && p[0] / 16 == h.version && p[0] % 16 == h.headerLen && p[1] == h.typeOfService
      && BigEndian(p[2..4]) == h.totalLen && BigEndian(p[4..6]) == h.id
      && BigEndian(p[6..8]) == 0x2000 * h.flags + h.fragOff
      && p[8] == h.ttl && p[9] == h.prot && p[12..16] == h.srcAddr && p[16..20] == h.destAddr
  {
    hide SwapBytes, Be16, BigEndian, Store16, InternetChecksum.Checksum;
    NetworkOrder(h.totalLen);
    NetworkOrder(h.id);
    NetworkOrder(h.flags * 0x2000 + h.fragOff);
    LengthOfStore(Checksummed(h).checksum);
    var p := Image(Checksummed(h)) + data;
    assert p[2..4] == Be16(h.totalLen) && p[4..6] == Be16(h.id);
    assert p[6..8] == Be16(h.flags * 0x2000 + h.fragOff);
  }

  lemma NetworkOrder(w: word)
    ensures Store16(SwapBytes(w)) == Be16(w) && |Be16(w)| == 2 && BigEndian(Be16(w)) == w
  {
    SwapBytesGivesNetworkOrder(w);
    BigEndianOfWord(w);
  }

  lemma LengthOfStore(w: word)
    ensures |Store16(w)| == 2
  {
  }

  // ---------- ICMP ----------

  datatype IcmpHeader = IcmpHeader(kind: byte, code: byte, checksum: word, content: dword)

  const ICMP_HEADER_SIZE := 8

  function IcmpImage(h: IcmpHeader): (s: seq<byte>) {
    [h.kind, h.code] + Store16(h.checksum) + Be32(h.content)
  }

  method WriteIcmpHeader(dest: array<byte>, h: IcmpHeader) returns (cnt: nat)
    requires ICMP_HEADER_SIZE <= dest.Length
    modifies dest
    ensures cnt == ICMP_HEADER_SIZE
    ensures dest[..] == IcmpImage(h) + old(dest[ICMP_HEADER_SIZE..])
  {
    ghost var tail := dest[ICMP_HEADER_SIZE..];
    CopyInto(dest, 0, [h.kind, h.code]);
    CopyInto(dest, 2, Store16(h.checksum));
    CopyInto(dest, 4, Be32(h.content));
    cnt := ICMP_HEADER_SIZE;
    assert dest[ICMP_HEADER_SIZE..] == tail;
    assert dest[..] == dest[..ICMP_HEADER_SIZE] + dest[ICMP_HEADER_SIZE..];
  }

  function ExtractIcmp(s: seq<byte>): IcmpHeader
    requires ICMP_HEADER_SIZE <= |s|
  {
    IcmpHeader(s[0], s[1], Load16(s, 2), NetworkDword(s, 4))
  }

  method ReadIcmpHeader(s: seq<byte>) returns (h: IcmpHeader, cnt: nat)
    requires ICMP_HEADER_SIZE <= |s|
    ensures h == ExtractIcmp(s) && cnt == ICMP_HEADER_SIZE
  {
    var src := 0;
    var kind := s[src];
    src := src + 1;
    var code := s[src];
    src := src + 1;
    var checksum := Load16(s, src);
    src := src + 2;
    var content := NetworkDword(s, src);
    src := src + 4;
    return IcmpHeader(kind, code, checksum, content), src;
  }

  lemma IcmpRoundTrip(h: IcmpHeader, rest: seq<byte>)
    ensures ExtractIcmp(IcmpImage(h) + rest) == h
  {
    var s := IcmpImage(h) + rest;
    Load16At(s, 2, h.checksum);
    assert s[4..8] == Be32(h.content);
    BigEndianOfDword(h.content);
    DwordIsBigEndian(s, 4);
  }

  /** The packet `SendIcmp` emits: unlike IPv4's, its checksum covers the data too. */
  function IcmpPacket(h: IcmpHeader, data: seq<byte>): seq<byte> {
    var sum := InternetChecksum.Checksum(IcmpImage(h.(checksum := 0)) + data);
    IcmpImage(h.(checksum := sum)) + data
  }

  method SendIcmp(surface: Medium?, h: IcmpHeader, data: seq<byte>)
    modifies if surface == null then {} else {surface}
    ensures surface != null ==> surface.sent == old(surface.sent) + [IcmpPacket(h, data)]
  {
    if surface == null {
      return;
    }
    var buff := new byte[ICMP_HEADER_SIZE + |data|];
    var _ := WriteIcmpHeader(buff, h.(checksum := 0));
    assert buff[..ICMP_HEADER_SIZE] == buff[..][..ICMP_HEADER_SIZE] == IcmpImage(h.(checksum := 0));
    CopyInto(buff, ICMP_HEADER_SIZE, data);
    assert buff[..] == buff[..buff.Length] == IcmpImage(h.(checksum := 0)) + data;
    assert buff[..][..buff.Length] == buff[..];
    var sum := InternetChecksum.Compute(buff[..], buff.Length);
    assert buff[ICMP_HEADER_SIZE..] == buff[..][ICMP_HEADER_SIZE..] == data;
    var _ := WriteIcmpHeader(buff, h.(checksum := sum));
    surface.SendData(buff[..]);
  }

  /** RFC 792, octet by octet: type, code, checksum, the rest of the header, the data. */
  lemma SentIcmpOctets(h: IcmpHeader, data: seq<byte>)
    ensures var p := IcmpPacket(h, data);
      && |p| == 8 + |data| && p[0] == h.kind && p[1] == h.code
      && BigEndian(p[4..8]) == h.content && p[8..] == data
  {
    hide InternetChecksum.Checksum;
    BigEndianOfDword(h.content);
    assert IcmpPacket(h, data)[4..8] == Be32(h.content);
  }

  /**
    RFC 792: every ICMP packet sent, of any size, sums to zero at a receiver running the same code. Its
    checksum is the RFC's exactly when the sum fits the accumulator. (A size is a signed 32-bit integer.)
   */
  lemma SentIcmpVerifies(h: IcmpHeader, data: seq<byte>)
    ensures InternetChecksum.Checksum(IcmpPacket(h, data)) == 0
    ensures var zeroed := IcmpImage(h.(checksum := 0)) + data;
      |zeroed| < 0x8000_0000 ==>
        (IcmpPacket(h, data)[2..4] == Be16(InternetChecksum.RfcChecksum(zeroed))
         <==> InternetChecksum.WordSum(zeroed) < TWO_32)
  {
    var zeroed := IcmpImage(h.(checksum := 0)) + data;
    var sum := InternetChecksum.Checksum(zeroed);
    assert Load16(zeroed, 2) == 0;
    assert InternetChecksum.WithWord(zeroed, 1, sum) == IcmpPacket(h, data);
    InternetChecksum.StoredChecksumVerifies(zeroed, 1);
    if |zeroed| < 0x8000_0000 {
      InternetChecksum.ChecksumOnTheWire(zeroed);
    }
  }
}
