/** The address resolution header: its wire form (RFC 826), its reader, and the requests of a scan. */
module Arp {
  import opened Bytes
  import opened Ip4Address
  import opened SendMedium

  datatype ArpHeader = ArpHeader(
    hardType: word, protType: word, hardAddrSize: byte, protAddrSize: byte, op: word,
    senderHardAddr: seq<byte>, senderProtAddr: seq<byte>,
    targetHardAddr: seq<byte>, targetProtAddr: seq<byte>)

  const FIXED_SIZE := 8

  /** The writer aborts the program at the first address whose size is not the one announced. */
  predicate SizesMatch(h: ArpHeader) {
    && |h.senderHardAddr| == h.hardAddrSize && |h.senderProtAddr| == h.protAddrSize
    && |h.targetHardAddr| == h.hardAddrSize && |h.targetProtAddr| == h.protAddrSize
  }

  function WireSize(h: ArpHeader): nat {
    FIXED_SIZE + 2 * (h.hardAddrSize as nat + h.protAddrSize as nat)
  }

  function FixedImage(h: ArpHeader): (s: seq<byte>) {
    Be16(h.hardType) + Be16(h.protType) + [h.hardAddrSize, h.protAddrSize] + Be16(h.op)
  }

  function Image(h: ArpHeader): (s: seq<byte>) {
    FixedImage(h) + h.senderHardAddr + h.senderProtAddr + h.targetHardAddr + h.targetProtAddr
  }

  /** `None` is the abort. */
  method WriteHeader(dest: array<byte>, h: ArpHeader) returns (r: Option<nat>)
    requires WireSize(h) <= dest.Length
    modifies dest
    ensures r == if SizesMatch(h) then Some(|Image(h)|) else None
    ensures r.Some? ==> r.value == WireSize(h) && dest[..r.value] == Image(h)
    ensures forall i :: WireSize(h) <= i < dest.Length ==> dest[i] == old(dest[i])
  {
    hide Be16;
    var curr := WriteFixed(dest, h);
    if |h.senderHardAddr| != h.hardAddrSize {
      return None;
    }
    CopyInto(dest, curr, h.senderHardAddr);
    curr := curr + h.hardAddrSize;
    if |h.senderProtAddr| != h.protAddrSize {
      return None;
    }
    CopyInto(dest, curr, h.senderProtAddr);
    curr := curr + h.protAddrSize;
    if |h.targetHardAddr| != h.hardAddrSize {
      return None;
    }
    CopyInto(dest, curr, h.targetHardAddr);
    curr := curr + h.hardAddrSize;
    if |h.targetProtAddr| != h.protAddrSize {
      return None;
    }
    CopyInto(dest, curr, h.targetProtAddr);
    curr := curr + h.protAddrSize;
    return Some(curr);
  }

  method WriteFixed(dest: array<byte>, h: ArpHeader) returns (curr: nat)
    requires FIXED_SIZE <= dest.Length
    modifies dest
    ensures curr == FIXED_SIZE == |FixedImage(h)| && dest[..curr] == FixedImage(h)
    ensures forall i :: curr <= i < dest.Length ==> dest[i] == old(dest[i])
  {
    Put16(dest, 0, h.hardType);
    Put16(dest, 2, h.protType);
    CopyInto(dest, 4, [h.hardAddrSize]);
    CopyInto(dest, 5, [h.protAddrSize]);
    Put16(dest, 6, h.op);
    return 8;
  }

  /** `size` is that of the header object in memory, which the source takes for that of its wire form. */
  method Send(surface: Medium, h: ArpHeader, size: nat) returns (sent: bool)
    requires WireSize(h) <= size
    modifies surface
    ensures sent == SizesMatch(h)
    ensures sent ==> |Image(h)| <= size
    ensures surface.sent == old(surface.sent) + if sent then [Image(h) + ZeroBytes(size - |Image(h)|)] else []
  {
    var buff := new byte[size](_ => 0);
    var cnt := WriteHeader(buff, h);
    if cnt.None? {
      return false;
    }
    assert buff[..] == Image(h) + ZeroBytes(size - |Image(h)|) by {
      assert buff[..] == buff[..cnt.value] + buff[cnt.value..];
    }
    surface.SendData(buff[..]);
    return true;
  }

  function ZeroBytes(n: nat): (s: seq<byte>)
    ensures |s| == n
  {
    seq(n, _ => 0)
  }

  // ---------- reading ----------

  /** `None`: a read past the end. */
  function Extract(s: seq<byte>): Option<ArpHeader> {
    if |s| < FIXED_SIZE then None
    else
      var n: nat, m: nat := s[4], s[5];
      if |s| < FIXED_SIZE + 2 * (n + m) then None
      else Some(ArpHeader(NetworkWord(s, 0), NetworkWord(s, 2), n, m, NetworkWord(s, 6),
                          s[8..8 + n], s[8 + n..8 + n + m],
                          s[8 + n + m..8 + n + m + n], s[8 + n + m + n..8 + n + m + n + m]))
  }

  method ReadHeader(s: seq<byte>) returns (r: Option<ArpHeader>)
    ensures r == Extract(s)
  {
    if |s| < FIXED_SIZE {
      return None;
    }
    var src: nat := 0;
    var hardType := Get16(s, src);
    src := src + 2;
    var protType := Get16(s, src);
    src := src + 2;
    var n: nat := s[src];
    src := src + 1;
    var m: nat := s[src];
    src := src + 1;
    var op := Get16(s, src);
    src := src + 2;
    if |s| < src + 2 * (n + m) {
      return None;
    }
    var senderHardAddr := s[src..src + n];
    src := src + n;
    var senderProtAddr := s[src..src + m];
    src := src + m;
    var targetHardAddr := s[src..src + n];
    src := src + n;
    var targetProtAddr := s[src..src + m];
    return Some(ArpHeader(hardType, protType, n, m, op,
                          senderHardAddr, senderProtAddr, targetHardAddr, targetProtAddr));
  }

  /** Whatever follows, what was written is read back. */
  lemma RoundTrip(h: ArpHeader, rest: seq<byte>)
    requires SizesMatch(h)
    ensures Extract(Image(h) + rest) == Some(h)
  {
    hide Be16, FixedImage;
    var s := Image(h) + rest;
    FixedRead(h);
    Slices(FixedImage(h), h.senderHardAddr, h.senderProtAddr, h.targetHardAddr, h.targetProtAddr, rest);
    Prefix(s, FixedImage(h));
  }

  /** The same eight bytes in front, the same words. */
  lemma Prefix(s: seq<byte>, f: seq<byte>)
    requires f <= s && |f| == 8
    ensures NetworkWord(s, 0) == NetworkWord(f, 0) && NetworkWord(s, 2) == NetworkWord(f, 2)
    ensures NetworkWord(s, 6) == NetworkWord(f, 6) && s[4] == f[4] && s[5] == f[5]
  {
  }

  lemma FixedRead(h: ArpHeader)
    ensures var f := FixedImage(h);
      && |f| == 8 && NetworkWord(f, 0) == h.hardType && NetworkWord(f, 2) == h.protType
      && f[4] == h.hardAddrSize && f[5] == h.protAddrSize && NetworkWord(f, 6) == h.op
  {
  }

  lemma Slices(f: seq<byte>, a: seq<byte>, b: seq<byte>, c: seq<byte>, d: seq<byte>, rest: seq<byte>)
    ensures var s, i := f + a + b + c + d + rest, |f| + |a|;
      && f <= s && s[|f|..i] == a && s[i..i + |b|] == b && s[i + |b|..i + |b| + |c|] == c
      && s[i + |b| + |c|..i + |b| + |c| + |d|] == d
  {
  }

  /** What is read can be written, to the bytes it was read from. */
  lemma ReadIsWritten(s: seq<byte>)
    requires Extract(s).Some?
    ensures var h := Extract(s).value; SizesMatch(h) && WireSize(h) <= |s| && Image(h) == s[..WireSize(h)]
  {
    hide Be16, NetworkWord;
    WordWritten(s, 0);
    WordWritten(s, 2);
    WordWritten(s, 6);
    assert FixedImage(Extract(s).value) == s[..8];
  }

  lemma WordWritten(s: seq<byte>, at: nat)
    requires at + 2 <= |s|
    ensures Be16(NetworkWord(s, at)) == s[at..at + 2]
  {
  }

  // ---------- requests ----------

  const ETHERTYPE_IP4: word := 0x0800
  const OP_REQUEST: word := 1
  const MAC_EMPTY: seq<byte> := [0, 0, 0, 0, 0, 0]

  type MacAddr = s: seq<byte> | |s| == 6 witness [0, 0, 0, 0, 0, 0]

  function Request(srcMac: MacAddr, srcIp: Ip4Addr, target: Ip4Addr): ArpHeader {
    ArpHeader(1, ETHERTYPE_IP4, 6, 4, OP_REQUEST, srcMac, srcIp, MAC_EMPTY, target)
  }

  /** RFC 826: Ethernet, IPv4, sizes, request, who asks, nobody yet, who is asked for. */
  lemma RequestOctets(srcMac: MacAddr, srcIp: Ip4Addr, target: Ip4Addr)
    ensures SizesMatch(Request(srcMac, srcIp, target))
    ensures Image(Request(srcMac, srcIp, target))
         == [0, 1, 8, 0, 6, 4, 0, 1] + srcMac + srcIp + [0, 0, 0, 0, 0, 0] + target
  {
  }
}
