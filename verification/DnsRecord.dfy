/** The DNS message header, and one query or resource record: RFC 1035, sections 4.1.1 to 4.1.3. */
module DnsRecord {
  import opened Bytes
  import opened DnsName
  import opened DnsNameExact

  // ---------- what is at a place in a packet ----------

  predicate At(p: seq<byte>, at: nat, s: seq<byte>) {
    at + |s| <= |p| && p[at..at + |s|] == s
  }

  lemma AtSplit(p: seq<byte>, at: nat, a: seq<byte>, b: seq<byte>)
    ensures At(p, at, a + b) <==> At(p, at, a) && At(p, at + |a|, b)
  {
    if at + |a| + |b| <= |p| {
      var s := p[at..at + |a + b|];
      assert s[..|a|] == p[at..at + |a|] && s[|a|..] == p[at + |a|..at + |a| + |b|];
      assert (a + b)[..|a|] == a && (a + b)[|a|..] == b;
      assert s == s[..|a|] + s[|a|..];
    }
  }

  lemma AtSplit3(p: seq<byte>, at: nat, a: seq<byte>, b: seq<byte>, c: seq<byte>)
    ensures At(p, at, a + b + c) <==> At(p, at, a) && At(p, at + |a|, b) && At(p, at + |a| + |b|, c)
  {
    AtSplit(p, at, a + b, c);
    AtSplit(p, at, a, b);
  }

  lemma WordAt(p: seq<byte>, at: nat, w: word)
    requires At(p, at, Be16(w))
    ensures at + 2 <= |p| && NetworkWord(p, at) == w
  {
    assert p[at] == p[at..at + 2][0] && p[at + 1] == p[at..at + 2][1];
  }

  // ---------- header ----------

  type bit = x: int | 0 <= x < 2

  /** The reserved bit is neither written nor read, and is left out. */
  datatype Header = Header(
    id: word, rd: bit, tc: bit, aa: bit, opcode: nibble, qr: bit, rcode: nibble, cd: bit, ad: bit, ra: bit,
    queryCount: word, ansCount: word, authCount: word, addCount: word)

  const HEADER_SIZE := 12

  /**
    Two shifts in the writer are chained: `aa << 2 << 8 * opcode` and `ad << 5 << 128 * ra`. In C++
    they mean something only when they shift by less than 32.
   */
  predicate ShiftsDefined(h: Header) {
    h.opcode < 4 && h.ra == 0
  }

  function ShiftedLeft(x: nat, octets: nat): nat
    decreases octets
  {
    if octets == 0 then x else ShiftedLeft(x * 0x100, octets - 1)
  }

  /** The bits that are or-ed do not overlap, so they are added; the store keeps eight of them. */
  function Flags1(h: Header): byte {
    (h.rd + 2 * h.tc + ShiftedLeft(4 * h.aa, h.opcode) + 128 * h.qr) % 0x100
  }

  function Flags2(h: Header): byte {
    h.rcode + 16 * h.cd + 32 * h.ad
  }

  function HeaderImage(h: Header): (s: seq<byte>)
    ensures |s| == HEADER_SIZE
  {
    Be16(h.id) + [Flags1(h), Flags2(h)]
    + Be16(h.queryCount) + Be16(h.ansCount) + Be16(h.authCount) + Be16(h.addCount)
  }

  method WriteHeader(dest: array<byte>, h: Header) returns (cnt: nat)
    requires ShiftsDefined(h) && HEADER_SIZE <= dest.Length
    modifies dest
    ensures cnt == HEADER_SIZE && dest[..cnt] == HeaderImage(h)
    ensures forall i :: HEADER_SIZE <= i < dest.Length ==> dest[i] == old(dest[i])
  {
    var curr := 0;
    Put16(dest, curr, h.id);
    curr := curr + 2;
    CopyInto(dest, curr, [Flags1(h)]);
    curr := curr + 1;
    CopyInto(dest, curr, [Flags2(h)]);
    curr := curr + 1;
    Put16(dest, curr, h.queryCount);
    curr := curr + 2;
    Put16(dest, curr, h.ansCount);
    curr := curr + 2;
    Put16(dest, curr, h.authCount);
    curr := curr + 2;
    Put16(dest, curr, h.addCount);
    curr := curr + 2;
    return curr;
  }

  function ExtractHeader(p: seq<byte>): Header
    requires HEADER_SIZE <= |p|
  {
    Header(NetworkWord(p, 0), p[2] % 2, p[2] / 2 % 2, p[2] / 4 % 2, p[2] / 8 % 16, p[2] / 128,
           p[3] % 16, p[3] / 16 % 2, p[3] / 32 % 2, p[3] / 128,
           NetworkWord(p, 4), NetworkWord(p, 6), NetworkWord(p, 8), NetworkWord(p, 10))
  }

  method ReadHeader(p: seq<byte>) returns (h: Header, cnt: nat)
    requires HEADER_SIZE <= |p|
    ensures h == ExtractHeader(p) && cnt == HEADER_SIZE
  {
    var curr := 0;
    var id := Get16(p, curr);
    curr := curr + 2;
    var qr, opcode, aa, tc, rd := p[curr] / 128, p[curr] / 8 % 16, p[curr] / 4 % 2, p[curr] / 2 % 2, p[curr] % 2;
    curr := curr + 1;
    var ra, ad, cd, rcode := p[curr] / 128, p[curr] / 32 % 2, p[curr] / 16 % 2, p[curr] % 16;
    curr := curr + 1;
    var queryCount := Get16(p, curr);
    curr := curr + 2;
    var ansCount := Get16(p, curr);
    curr := curr + 2;
    var authCount := Get16(p, curr);
    curr := curr + 2;
    var addCount := Get16(p, curr);
    curr := curr + 2;
    h := Header(id, rd, tc, aa, opcode, qr, rcode, cd, ad, ra, queryCount, ansCount, authCount, addCount);
    cnt := curr;
  }

  /**
    RFC 1035, section 4.1.1: what is read of any twelve octets, the bits put back together. (RFC 2535,
    section 6.1, names two bits of the fourth octet ad and cd; the bit of value 64 is the reserved one.)
   */
  lemma HeaderFields(p: seq<byte>)
    requires HEADER_SIZE <= |p|
    ensures var h := ExtractHeader(p);
      && BigEndian(p[0..2]) == h.id && BigEndian(p[4..6]) == h.queryCount && BigEndian(p[6..8]) == h.ansCount
      && BigEndian(p[8..10]) == h.authCount && BigEndian(p[10..12]) == h.addCount
      && p[2] as int == 128 * h.qr as int + 8 * h.opcode as int + 4 * h.aa as int + 2 * h.tc as int + h.rd as int
      && p[3] as int == 128 * h.ra as int + 64 * (p[3] / 64 % 2) as int + 32 * h.ad as int + 16 * h.cd as int
                        + h.rcode as int
  {
    hide BigEndian;
    WordIsBigEndian(p, 0);
    WordIsBigEndian(p, 4);
    WordIsBigEndian(p, 6);
    WordIsBigEndian(p, 8);
    WordIsBigEndian(p, 10);
    FlagBits(p[2], p[3]);
  }

  lemma FlagBits(a: byte, b: byte)
    ensures a as int == 128 * (a / 128) + 8 * (a / 8 % 16) + 4 * (a / 4 % 2) + 2 * (a / 2 % 2) + a % 2
    ensures b as int == 128 * (b / 128) + 64 * (b / 64 % 2) + 32 * (b / 32 % 2) + 16 * (b / 16 % 2) + b % 16
  {
    var x: int, y: int := a, b;
    assert x / 4 == x / 2 / 2 && x / 8 == x / 4 / 2 && x / 128 == x / 8 / 16;
    assert y / 32 == y / 16 / 2 && y / 64 == y / 32 / 2 && y / 128 == y / 64 / 2;
  }

  lemma ShiftedOut(x: nat, octets: nat)
    ensures ShiftedLeft(x, octets) % 0x100 == if octets == 0 then x % 0x100 else 0
    decreases octets
  {
    if octets > 0 {
      ShiftedOut(x * 0x100, octets - 1);
    }
  }

  lemma Flags1Read(h: Header)
    ensures var b := Flags1(h);
      && b % 2 == h.rd && b / 2 % 2 == h.tc && b / 8 % 16 == 0 && b / 128 == h.qr
      && b / 4 % 2 == if h.opcode == 0 then h.aa else 0
  {
    hide ShiftedLeft;
    ShiftedOut(4 * h.aa, h.opcode);
    var aa := if h.opcode == 0 then h.aa else 0;
    assert Flags1(h) == h.rd + 2 * h.tc + 4 * aa + 128 * h.qr;
    FourBits(h.rd, h.tc, aa, h.qr);
  }

  lemma FourBits(rd: bit, tc: bit, aa: bit, qr: bit)
    ensures var b := rd + 2 * tc + 4 * aa + 128 * qr;
      b % 2 == rd && b / 2 % 2 == tc && b / 4 % 2 == aa && b / 8 % 16 == 0 && b / 128 == qr
  {
    var b := rd + 2 * tc + 4 * aa + 128 * qr;
    assert b / 2 == tc + 2 * aa + 64 * qr;
    assert b / 4 == aa + 32 * qr;
    assert b / 8 == 16 * qr;
  }

  lemma Flags2Read(h: Header)
    ensures var b := Flags2(h); b % 16 == h.rcode && b / 16 % 2 == h.cd && b / 32 % 2 == h.ad && b / 128 == 0
  {
    var b: int := Flags2(h);
    assert b / 16 == h.cd + 2 * h.ad;
    assert b / 32 == h.ad;
  }

  /** A header is read back with opcode 0, and with `aa` cleared if its opcode was not. */
  lemma HeaderRoundTrip(h: Header, rest: seq<byte>)
    requires ShiftsDefined(h)
    ensures ExtractHeader(HeaderImage(h) + rest)
         == if h.opcode == 0 then h else h.(opcode := 0, aa := 0)
    ensures ExtractHeader(HeaderImage(h) + rest) == h <==> h.opcode == 0
  {
    Flags1Read(h);
    Flags2Read(h);
    var p := HeaderImage(h) + rest;
    assert p[4..12] == Be16(h.queryCount) + Be16(h.ansCount) + Be16(h.authCount) + Be16(h.addCount);
    WordAt(p, 0, h.id);
    WordAt(p, 4, h.queryCount);
    WordAt(p, 6, h.ansCount);
    WordAt(p, 8, h.authCount);
    WordAt(p, 10, h.addCount);
  }

  // ---------- records ----------

  /** A query, or a record of one of the three answer sections. Names are in text form, with their NUL. */
  datatype Record =
    | Question(name: seq<byte>, rtype: word, rclass: word)
    | Resource(name: seq<byte>, rtype: word, rclass: word, ttl: dword, dataLen: word, rdata: seq<byte>)

  /** The writer copies `dataLen` bytes of the data, which must be there. */
  predicate HasData(r: Record) {
    r.Resource? ==> r.dataLen <= |r.rdata|
  }

  /** `htons` cuts the 32-bit ttl to 16 bits, and its result is stored as a native 32-bit word. */
  function TtlImage(ttl: dword): seq<byte> {
    Be16(ttl % 0x1_0000) + [0, 0]
  }

  lemma TtlImageIsStored(ttl: dword)
    ensures Store32(SwapBytes(ttl % 0x1_0000)) == TtlImage(ttl)
  {
    SwapBytesGivesNetworkOrder(ttl % 0x1_0000);
  }

  function FieldsImage(r: Record): seq<byte> {
    Be16(r.rtype) + Be16(r.rclass)
  }

  function TailImage(r: Record): seq<byte>
    requires r.Resource? && HasData(r)
  {
    TtlImage(r.ttl) + Be16(r.dataLen) + r.rdata[..r.dataLen]
  }

  function RecordImage(r: Record): seq<byte>
    requires HasData(r)
  {
    Encode(r.name) + FieldsImage(r) + TailOf(r)
  }

  function TailOf(r: Record): seq<byte>
    requires HasData(r)
  {
    if r.Question? then [] else TailImage(r)
  }

  /**
    RFC 1035, sections 4.1.2 and 4.1.3, octet by octet: the name, type and class in network order, and for a
    resource record the ttl, the data's length and the data. Of the ttl only the low half goes out, where
    the standard wants the high one.
   */
  lemma RecordOctets(r: Record)
    requires HasData(r)
    ensures var s, e := RecordImage(r), |Encode(r.name)|;
      && e + 4 <= |s| && s[..e] == Encode(r.name)
      && BigEndian(s[e..e + 2]) == r.rtype && BigEndian(s[e + 2..e + 4]) == r.rclass
      && (r.Question? ==> |s| == e + 4)
      && (r.Resource? ==>
            && |s| == e + 10 + r.dataLen as nat
            && BigEndian(s[e + 4..e + 8]) == r.ttl % 0x1_0000 * 0x1_0000
            && BigEndian(s[e + 8..e + 10]) == r.dataLen && s[e + 10..] == r.rdata[..r.dataLen])
  {
    hide BigEndian, Encode, Be16, TtlImage;
    var s, e := RecordImage(r), |Encode(r.name)|;
    WordOctets(r.rtype);
    WordOctets(r.rclass);
    assert s[e..e + 2] == Be16(r.rtype) && s[e + 2..e + 4] == Be16(r.rclass);
    if r.Resource? {
      TailOctets(r);
      var t := TailImage(r);
      assert s[e + 4..] == t;
      assert s[e + 4..e + 8] == t[..4] && s[e + 8..e + 10] == t[4..6] && s[e + 10..] == t[6..];
    }
  }

  lemma WordOctets(w: word)
    ensures |Be16(w)| == 2 && BigEndian(Be16(w)) == w
  {
    BigEndianOfWord(w);
  }

  lemma TailOctets(r: Record)
    requires r.Resource? && HasData(r)
    ensures var t := TailImage(r);
      && |t| == 6 + r.dataLen as nat && BigEndian(t[..4]) == r.ttl % 0x1_0000 * 0x1_0000
      && BigEndian(t[4..6]) == r.dataLen && t[6..] == r.rdata[..r.dataLen]
  {
    hide BigEndian;
    var t, low := TailImage(r), r.ttl % 0x1_0000;
    BigEndianOfFour(low / 0x100, low % 0x100, 0, 0);
    BigEndianOfWord(r.dataLen);
    assert t[..4] == [low / 0x100, low % 0x100, 0, 0];
    assert t[4..6] == Be16(r.dataLen);
  }

  /** The same for what is read, of any packet: the fields stand behind the name in this order. */
  lemma RecordFields(p: seq<byte>, at: nat, question: bool)
    requires RecordAt(p, at, question).Got?
    ensures NameAt(p, at).Got?
    ensures var r, e := RecordAt(p, at, question).value, at + NameAt(p, at).count;
      && r.Question? == question && r.name == NameAt(p, at).value && e + 4 <= |p|
      && BigEndian(p[e..e + 2]) == r.rtype && BigEndian(p[e + 2..e + 4]) == r.rclass
      && at + RecordAt(p, at, question).count == e + 4 + (if question then 0 else 6 + r.dataLen as nat)
      && (!question ==>
            && e + 10 + r.dataLen as nat <= |p|
            && BigEndian(p[e + 4..e + 6]) == r.ttl && BigEndian(p[e + 8..e + 10]) == r.dataLen
            && p[e + 10..e + 10 + r.dataLen as nat] == r.rdata)
  {
    hide BigEndian;
    var e := at + NameAt(p, at).count;
    WordIsBigEndian(p, e);
    WordIsBigEndian(p, e + 2);
    if !question {
      WordIsBigEndian(p, e + 4);
      WordIsBigEndian(p, e + 8);
    }
  }

  method WriteQuery(dest: array<byte>, at: nat, q: Record) returns (cnt: nat)
    requires q.Question? && at + |RecordImage(q)| <= dest.Length
    modifies dest
    ensures cnt == |RecordImage(q)|
    ensures dest[..at + cnt] == old(dest[..at]) + RecordImage(q)
    ensures forall i :: at + cnt <= i < dest.Length ==> dest[i] == old(dest[i])
  {
    cnt := WriteNameAndFields(dest, at, q);
  }

  /** What the two record writers begin with. */
  method WriteNameAndFields(dest: array<byte>, at: nat, r: Record) returns (cnt: nat)
    requires at + |Encode(r.name) + FieldsImage(r)| <= dest.Length
    modifies dest
    ensures cnt == |Encode(r.name) + FieldsImage(r)|
    ensures dest[..at + cnt] == old(dest[..at]) + (Encode(r.name) + FieldsImage(r))
    ensures forall i :: at + cnt <= i < dest.Length ==> dest[i] == old(dest[i])
  {
    var encodedName := EncodeDnsName(r.name);
    CopyInto(dest, at, encodedName);
    cnt := |encodedName|;
    Put16(dest, at + cnt, r.rtype);
    cnt := cnt + 2;
    Put16(dest, at + cnt, r.rclass);
    cnt := cnt + 2;
  }

  method WriteAnswer(dest: array<byte>, at: nat, a: Record) returns (cnt: nat)
    requires a.Resource? && HasData(a) && at + |RecordImage(a)| <= dest.Length
    modifies dest
    ensures cnt == |RecordImage(a)|
    ensures dest[..at + cnt] == old(dest[..at]) + RecordImage(a)
    ensures forall i :: at + cnt <= i < dest.Length ==> dest[i] == old(dest[i])
  {
    hide Encode, FieldsImage, TailImage;
    ghost var before, head, tail := dest[..at], Encode(a.name) + FieldsImage(a), TailImage(a);
    ConcatAssoc(before, head, tail);
    assert RecordImage(a) == head + tail;
    cnt := WriteNameAndFields(dest, at, a);
    var tailLen := WriteTail(dest, at + cnt, a);
    cnt := cnt + tailLen;
  }

  method WriteTail(dest: array<byte>, at: nat, a: Record) returns (cnt: nat)
    requires a.Resource? && HasData(a) && at + |TailImage(a)| <= dest.Length
    modifies dest
    ensures cnt == |TailImage(a)|
    ensures dest[..at + cnt] == old(dest[..at]) + TailImage(a)
    ensures forall i :: at + cnt <= i < dest.Length ==> dest[i] == old(dest[i])
  {
    TtlImageIsStored(a.ttl);
    CopyInto(dest, at, Store32(SwapBytes(a.ttl % 0x1_0000)));
    cnt := 4;
    Put16(dest, at + cnt, a.dataLen);
    cnt := cnt + 2;
    CopyInto(dest, at + cnt, a.rdata[..a.dataLen]);
    cnt := cnt + a.dataLen;
  }

  function RecordAt(p: seq<byte>, at: nat, question: bool): Reading<Record> {
    match NameAt(p, at)
    case Endless => Endless
    case Beyond => Beyond
    case Got(name, count) =>
      var next := at + count;
      if |p| < next + 4 then Beyond
      else if question then Got(Question(name, NetworkWord(p, next), NetworkWord(p, next + 2)), count + 4)
      else TailAt(p, next + 4, name, NetworkWord(p, next), NetworkWord(p, next + 2), count + 4)
  }

  function TailAt(p: seq<byte>, at: nat, name: seq<byte>, rtype: word, rclass: word, count: nat): Reading<Record> {
    if |p| < at + 6 then Beyond
    else
      var len: nat := NetworkWord(p, at + 4);
      if |p| < at + 6 + len then Beyond
      else Got(Resource(name, rtype, rclass, NetworkWord(p, at), len, p[at + 6..at + 6 + len]), count + 6 + len)
  }

  method ExtractQuery(p: seq<byte>, at: nat) returns (r: Reading<Record>)
    requires RecordAt(p, at, true) != Endless
    ensures r == RecordAt(p, at, true)
    ensures r.Got? ==> r.value.Question?
  {
    var name := ReadNameAt(p, at);
    if name.Beyond? {
      return Beyond;
    }
    var cnt: nat := name.count;
    if |p| < at + cnt + 4 {
      return Beyond;
    }
    var qType := Get16(p, at + cnt);
    cnt := cnt + 2;
    var qClass := Get16(p, at + cnt);
    cnt := cnt + 2;
    return Got(Question(name.value, qType, qClass), cnt);
  }

  method ExtractAnswer(p: seq<byte>, at: nat) returns (r: Reading<Record>)
    requires RecordAt(p, at, false) != Endless
    ensures r == RecordAt(p, at, false)
    ensures r.Got? ==> r.value.Resource?
  {
    var name := ReadNameAt(p, at);
    if name.Beyond? {
      return Beyond;
    }
    var cnt: nat := name.count;
    if |p| < at + cnt + 10 {
      return Beyond;
    }
    var aType := Get16(p, at + cnt);
    cnt := cnt + 2;
    var aClass := Get16(p, at + cnt);
    cnt := cnt + 2;
    var ttl := Get16(p, at + cnt);
    cnt := cnt + 4;
    var dataLen: nat := Get16(p, at + cnt);
    cnt := cnt + 2;
    var start := at + cnt;
    var rdata: seq<byte> := [];
    for j := 0 to dataLen
      invariant start + j <= |p| && rdata == p[start..start + j]
    {
      if |p| <= start + j {
        return Beyond;
      }
      rdata := rdata + [p[start + j]];
    }
    cnt := cnt + dataLen;
    return Got(Resource(name.value, aType, aClass, ttl, dataLen, rdata), cnt);
  }
}
