/** IPv4 addresses, their successor, and the subnet arithmetic as the source codes it. */
module Ip4Address {
  import opened Bytes

  type Ip4Addr = s: seq<byte> | |s| == 4 witness [0, 0, 0, 0]

  /** The address as a big-endian number. */
  function Value(ip: Ip4Addr): dword {
    ip[0] as int * 0x100_0000 + ip[1] as int * 0x1_0000 + ip[2] as int * 0x100 + ip[3] as int
  }

  lemma ValueInjective(a: Ip4Addr, b: Ip4Addr)
    requires Value(a) == Value(b)
    ensures a == b
  {
    assert a[0] == b[0] && a[1] == b[1] && a[2] == b[2] && a[3] == b[3];
  }

  lemma ValueSurjective(v: dword)
    ensures exists ip :: Value(ip) == v
  {
    var v1 := v / 0x100;
    var v2 := v1 / 0x100;
    var ip: Ip4Addr := [v2 / 0x100, v2 % 0x100, v1 % 0x100, v % 0x100];
    assert Value(ip) == v;
  }

  /** The one address with this value. */
  ghost function OfValue(v: dword): (ip: Ip4Addr)
    ensures Value(ip) == v
  {
    ValueSurjective(v);
    var ip: Ip4Addr :| Value(ip) == v;
    ip
  }

  ghost function Successor(ip: Ip4Addr): Ip4Addr {
    OfValue((Value(ip) + 1) % TWO_32)
  }

  /** The carry runs from the last octet; `next` starts out as unspecified memory. */
  method GenerateNextIp(addr: Ip4Addr, garbage: Ip4Addr) returns (next: Ip4Addr)
    ensures next == Successor(addr)
  {
    next := garbage;
    var currIn := 3;
    while currIn >= 0 && addr[currIn] == 0xFF
      invariant -1 <= currIn <= 3
      invariant forall k :: currIn < k < 4 ==> addr[k] == 0xFF && next[k] == 0
    {
      next := next[currIn := 0];
      currIn := currIn - 1;
    }
    if currIn >= 0 {
      next := next[currIn := addr[currIn] + 1];
    }
    var i := currIn - 1;
    while i >= 0
      invariant -2 <= i < currIn
      invariant forall k :: 0 <= k && i < k < currIn ==> next[k] == addr[k]
      invariant 0 <= currIn ==> next[currIn] == addr[currIn] + 1
      invariant forall k :: currIn < k < 4 ==> next[k] == 0
    {
      next := next[i := addr[i]];
      i := i - 1;
    }
    CarryIsSuccessor(addr, next, currIn);
  }

  lemma CarryIsSuccessor(addr: Ip4Addr, next: Ip4Addr, at: int)
    requires -1 <= at < 4
    requires forall k :: at < k < 4 ==> addr[k] == 0xFF && next[k] == 0
    requires 0 <= at ==> addr[at] < 0xFF && next[at] == addr[at] + 1
    requires forall k :: 0 <= k < at ==> next[k] == addr[k]
    ensures next == Successor(addr)
  {
    assert Value(next) == (Value(addr) + 1) % TWO_32;
    ValueInjective(next, Successor(addr));
  }

  // ---------- subnets ----------

  /** A network and the number of bits of its mask; 32 would index past the last octet. */
  datatype Subnet = Subnet(baseAddr: Ip4Addr, noMaskBits: nat) {
    ghost predicate Valid() {
      noMaskBits < 32
    }

    /** The octet the mask ends in, and how many of that octet's bits it covers. */
    function Index(): nat { noMaskBits / 8 }

    function Bits(): nat { noMaskBits % 8 }
  }

  /** `octet & ((1 << bits) - 1)`: the source keeps the low bits of the octet the mask ends in. */
  function LowBits(octet: byte, bits: nat): (low: byte)
    ensures low <= octet
    decreases bits
  {
    if bits == 0 then 0 else octet % 2 + 2 * LowBits(octet / 2, bits - 1)
  }

  lemma {:induction false} LowBitsAreRemainder(octet: byte, bits: nat)
    ensures LowBits(octet, bits) == octet % Power2(bits)
  {
    if bits > 0 {
      LowBitsAreRemainder(octet / 2, bits - 1);
      LowBitOut(octet, Power2(bits - 1));
    }
  }

  lemma LowBitOut(n: nat, m: nat)
    requires m > 0
    ensures n % (2 * m) == n % 2 + 2 * (n / 2 % m)
  {
    var q, r := n / 2 / m, n / 2 % m;
    assert n / 2 == m * q + r;
    assert n == 2 * m * q + (2 * r + n % 2);
    RemainderIs(n, 2 * m, q, 2 * r + n % 2);
  }

  lemma RemainderIs(n: nat, m: nat, q: nat, r: nat)
    requires r < m && n == m * q + r
    ensures n % m == r
  {
    assert m * (n / m) - m * q == m * (n / m - q);
    Multiples(m, n / m - q);
  }

  lemma Multiples(m: nat, d: int)
    ensures d >= 1 ==> m * d >= m
    ensures d <= -1 ==> m * d + m <= 0
  {
  }

  predicate Inside(subnet: Subnet, ip: Ip4Addr)
    requires subnet.Valid()
  {
    && ip[..subnet.Index()] == subnet.baseAddr[..subnet.Index()]
    && LowBits(ip[subnet.Index()], subnet.Bits()) == LowBits(subnet.baseAddr[subnet.Index()], subnet.Bits())
  }

  method IsInsideSubnet(subnet: Subnet, ip: Ip4Addr) returns (inside: bool)
    requires subnet.Valid()
    ensures inside == Inside(subnet, ip)
  {
    var bits := subnet.noMaskBits;
    var index := bits / 8;
    bits := bits % 8;
    inside := true;
    for i := 0 to index
      invariant ip[..i] == subnet.baseAddr[..i]
    {
      if subnet.baseAddr[i] != ip[i] {
        assert ip[..index][i] != subnet.baseAddr[..index][i];
        inside := false;
        break;
      }
    }
    if LowBits(subnet.baseAddr[index], bits) != LowBits(ip[index], bits) {
      inside := false;
    }
  }

  /** The address the scan starts from. */
  function Smallest(subnet: Subnet): Ip4Addr
    requires subnet.Valid()
  {
    subnet.baseAddr[..subnet.Index()]
    + [LowBits(subnet.baseAddr[subnet.Index()], subnet.Bits())]
    + seq(3 - subnet.Index(), _ => 0)
  }

  method SmallestIpAddrInSubnet(subnet: Subnet) returns (r: Ip4Addr)
    requires subnet.Valid()
    ensures r == Smallest(subnet)
  {
    var bits := subnet.noMaskBits;
    var index := bits / 8;
    bits := bits % 8;
    r := subnet.baseAddr;
    r := r[index := LowBits(r[index], bits)];
    for i := index + 1 to 4
      invariant r[..index + 1] == Smallest(subnet)[..index + 1]
      invariant forall k :: index < k < i ==> r[k] == 0
    {
      r := r[i := 0];
    }
  }

  /** Of the addresses that pass the source's test, where the scan starts is the least. */
  lemma SmallestIsLeast(subnet: Subnet, ip: Ip4Addr)
    requires subnet.Valid()
    ensures Inside(subnet, Smallest(subnet))
    ensures Inside(subnet, ip) ==> Value(Smallest(subnet)) <= Value(ip)
  {
    var s, index := Smallest(subnet), subnet.Index();
    LowBitsTwice(subnet.baseAddr[index], subnet.Bits());
    if Inside(subnet, ip) {
      forall i | 0 <= i < index ensures ip[i] == s[i] {
        assert ip[..index][i] == subnet.baseAddr[..index][i];
      }
      assert s[index] <= ip[index];
    }
  }

  lemma {:induction false} LowBitsTwice(octet: byte, bits: nat)
    ensures LowBits(LowBits(octet, bits), bits) == LowBits(octet, bits)
  {
    if bits > 0 {
      var low := LowBits(octet, bits);
      assert low % 2 == octet % 2 && low / 2 == LowBits(octet / 2, bits - 1);
      LowBitsTwice(octet / 2, bits - 1);
    }
  }

  /** The addresses RFC 4632 puts in the subnet: those sharing its first `noMaskBits` bits. */
  predicate InsideCidr(subnet: Subnet, ip: Ip4Addr)
    requires subnet.Valid()
  {
    var block := Power2(32 - subnet.noMaskBits);
    Value(ip) / block == Value(subnet.baseAddr) / block
  }

  /** The source's test is the CIDR test exactly for masks that end on an octet boundary. */
  lemma InsideIsCidrIffWholeOctets(noMaskBits: nat)
    requires noMaskBits < 32
    ensures (forall base, ip :: Inside(Subnet(base, noMaskBits), ip) <==> InsideCidr(Subnet(base, noMaskBits), ip))
       <==> noMaskBits % 8 == 0
  {
    if noMaskBits % 8 == 0 {
      forall base, ip
        ensures Inside(Subnet(base, noMaskBits), ip) <==> InsideCidr(Subnet(base, noMaskBits), ip)
      {
        WholeOctets(Subnet(base, noMaskBits), ip);
      }
    } else {
      var base, ip := PartialOctetDiffers(noMaskBits);
      assert Inside(Subnet(base, noMaskBits), ip) != InsideCidr(Subnet(base, noMaskBits), ip);
    }
  }

  /** Base 0.0.0.0 and an address with only bit 0 of the partial octet set: the high bits agree, the low ones do not. */
  lemma PartialOctetDiffers(noMaskBits: nat) returns (base: Ip4Addr, ip: Ip4Addr)
    requires noMaskBits < 32 && noMaskBits % 8 != 0
    ensures !Inside(Subnet(base, noMaskBits), ip) && InsideCidr(Subnet(base, noMaskBits), ip)
  {
    var index, bits := noMaskBits / 8, noMaskBits % 8;
    base, ip := [0, 0, 0, 0], [0, 0, 0, 0][index := 1];
    OneIsLow(bits);
    OctetValue(index);
    OctetBelowBlock(index, bits);
    BelowBlock(Value(ip), Power2(32 - noMaskBits));
    BelowBlock(Value(base), Power2(32 - noMaskBits));
  }

  lemma {:induction false} OneIsLow(bits: nat)
    ensures LowBits(0, bits) == 0
    ensures bits > 0 ==> LowBits(1, bits) == 1
  {
    if bits > 0 {
      OneIsLow(bits - 1);
    }
  }

  lemma OctetBelowBlock(index: nat, bits: nat)
    requires index < 4 && 0 < bits < 8
    ensures Power2(8 * (3 - index)) < Power2(32 - (8 * index + bits))
  {
    hide Power2;
    Power2Adds(8 * (3 - index), 8 - bits);
    Doubles(8 - bits);
    Doubles(8 * (3 - index) + 1);
    Larger(Power2(8 * (3 - index)), Power2(8 - bits));
  }

  lemma Doubles(n: nat)
    requires n > 0
    ensures Power2(n) == 2 * Power2(n - 1) && Power2(n - 1) > 0
  {
  }

  lemma Larger(a: nat, b: nat)
    requires a > 0 && b >= 2
    ensures a < a * b
  {
  }

  lemma BelowBlock(v: nat, block: nat)
    requires v < block
    ensures v / block == 0
  {
  }

  lemma OctetValue(index: nat)
    requires index < 4
    ensures Value([0, 0, 0, 0][index := 1]) == Power2(8 * (3 - index))
  {
    OctetPowers();
  }

  lemma {:induction false} Power2Adds(a: nat, b: nat)
    ensures Power2(a + b) == Power2(a) * Power2(b)
  {
    if b > 0 {
      Power2Adds(a, b - 1);
    }
  }

  lemma WholeOctets(subnet: Subnet, ip: Ip4Addr)
    requires subnet.Valid() && subnet.Bits() == 0
    ensures Inside(subnet, ip) <==> InsideCidr(subnet, ip)
  {
    var base, index := subnet.baseAddr, subnet.Index();
    assert Inside(subnet, ip) <==> ip[..index] == base[..index];
    LeadingOctets(ip, index);
    LeadingOctets(base, index);
    LeadingEqual(ip, base, index);
  }

  /** The first `index` octets as a number. */
  function Leading(ip: Ip4Addr, index: nat): nat
    requires index <= 4
  {
    if index == 0 then 0 else Leading(ip, index - 1) * 0x100 + ip[index - 1]
  }

  lemma {:induction false} LeadingEqual(a: Ip4Addr, b: Ip4Addr, index: nat)
    requires index <= 4
    ensures a[..index] == b[..index] <==> Leading(a, index) == Leading(b, index)
  {
    if index > 0 {
      LeadingEqual(a, b, index - 1);
      assert a[..index] == a[..index - 1] + [a[index - 1]];
      assert b[..index] == b[..index - 1] + [b[index - 1]];
    }
  }

  lemma DropThree(q: nat, r: nat)
    requires r < 0x100_0000
    ensures (q * 0x100_0000 + r) / 0x100_0000 == q
  {
  }

  lemma DropTwo(q: nat, r: nat)
    requires r < 0x1_0000
    ensures (q * 0x1_0000 + r) / 0x1_0000 == q
  {
  }

  lemma DropOne(q: nat, r: nat)
    requires r < 0x100
    ensures (q * 0x100 + r) / 0x100 == q
  {
  }

  /** Dividing an address by a power of 256 drops its last octets. */
  lemma Divisions(ip: Ip4Addr)
    ensures Value(ip) / 0x100_0000 == Leading(ip, 1)
    ensures Value(ip) / 0x1_0000 == Leading(ip, 2)
    ensures Value(ip) / 0x100 == Leading(ip, 3)
    ensures Value(ip) == Leading(ip, 4)
  {
    var low1 := ip[3] as int;
    var low2 := ip[2] as int * 0x100 + low1;
    var low3 := ip[1] as int * 0x1_0000 + low2;
    DropThree(Leading(ip, 1), low3);
    DropTwo(Leading(ip, 2), low2);
    DropOne(Leading(ip, 3), low1);
  }

  lemma LeadingOctets(ip: Ip4Addr, index: nat)
    requires index < 4
    ensures Value(ip) / Power2(32 - 8 * index) == Leading(ip, index)
  {
    Divisions(ip);
    OctetPowers();
  }

  lemma OctetPowers()
    ensures Power2(0) == 1 && Power2(8) == 0x100 && Power2(16) == 0x1_0000 && Power2(24) == 0x100_0000
    ensures Power2(32) == TWO_32
  {
  }
}
