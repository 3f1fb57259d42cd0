/** The request loop of a subnet scan: which addresses are asked for, in which order. */
module ArpScan {
  import opened Bytes
  import opened Ip4Address
  import opened Arp

  /** Octets of the address that stay fixed while the scan runs, and how many addresses share them. */
  function FixedOctets(subnet: Subnet): nat {
    if subnet.Bits() == 0 then subnet.Index() else subnet.Index() + 1
  }

  /** 256 to the power of 4 - fixed. */
  function ZerosBlock(fixed: nat): nat
    requires 1 <= fixed <= 4
  {
    if fixed == 1 then 0x100_0000 else if fixed == 2 then 0x1_0000 else if fixed == 3 then 0x100 else 1
  }

  function BlockSize(subnet: Subnet): nat
    requires 1 <= subnet.noMaskBits < 32
  {
    ZerosBlock(FixedOctets(subnet))
  }

  /** n addresses in ascending order. */
  ghost function Range(start: nat, n: nat): (s: seq<Ip4Addr>)
    requires start + n <= TWO_32
    ensures |s| == n && forall i :: 0 <= i < n ==> s[i] == OfValue(start + i)
  {
    seq<Ip4Addr>(n, i requires 0 <= i < n => OfValue(start + i))
  }

  /** The requests for the addresses that are not skipped, in the addresses' order. */
  function Requests(addrs: seq<Ip4Addr>, skip: set<Ip4Addr>, srcMac: MacAddr, srcIp: Ip4Addr): seq<ArpHeader> {
    if addrs == [] then []
    else
      var rest := Requests(addrs[..|addrs| - 1], skip, srcMac, srcIp);
      var last := addrs[|addrs| - 1];
      if last in skip then rest else rest + [Request(srcMac, srcIp, last)]
  }

  /**
    A mask of no bits would keep every address inside for ever and one of 32 would read a fifth octet;
    for every other mask the loop ends.
   */
  method ScanRequests(subnet: Subnet, skip: set<Ip4Addr>, srcMac: MacAddr, srcIp: Ip4Addr, garbage: Ip4Addr)
    returns (requests: seq<ArpHeader>, requestCnt: nat)
    requires 1 <= subnet.noMaskBits < 32
    ensures Value(Smallest(subnet)) + BlockSize(subnet) <= TWO_32
    ensures requests == Requests(Range(Value(Smallest(subnet)), BlockSize(subnet)), skip, srcMac, srcIp)
    ensures requestCnt == BlockSize(subnet)
  {
    ghost var start, size := Value(Smallest(subnet)), BlockSize(subnet);
    BlockFits(subnet);
    requests, requestCnt := [], 0;
    var currIp := SmallestIpAddrInSubnet(subnet);
    while true
      invariant requestCnt <= size
      invariant currIp == Wrapped(start + requestCnt)
      invariant requests == Requests(Range(start, requestCnt), skip, srcMac, srcIp)
      decreases size - requestCnt
    {
      var inside := IsInsideSubnet(subnet, currIp);
      InsideUntilTheEnd(subnet, requestCnt);
      if !inside {
        break;
      }
      RangeGrows(start, requestCnt);
      if currIp !in skip {
        requests := requests + [Request(srcMac, srcIp, currIp)];
      }
      SuccessorIsNext(start + requestCnt);
      currIp := GenerateNextIp(currIp, garbage);
      requestCnt := requestCnt + 1;
    }
  }

  // ---------- the block of addresses ----------

  /** The address that `v` steps from 0.0.0.0 lead to. */
  ghost function Wrapped(v: nat): Ip4Addr
    requires v <= TWO_32
  {
    if v == TWO_32 then OfValue(0) else OfValue(v)
  }

  lemma SuccessorIsNext(v: nat)
    requires v < TWO_32
    ensures Successor(OfValue(v)) == Wrapped(v + 1)
  {
    assert Value(OfValue(v)) == v;
    assert (v + 1) % TWO_32 == if v + 1 == TWO_32 then 0 else v + 1;
  }

  lemma RangeGrows(start: nat, n: nat)
    requires start + n < TWO_32
    ensures Range(start, n + 1) == Range(start, n) + [OfValue(start + n)]
  {
  }

  ghost predicate EndsInZeros(s: Ip4Addr, fixed: nat) {
    1 <= fixed <= 4 && forall i :: fixed <= i < 4 ==> s[i] == 0
  }

  lemma SmallestEndsInZeros(subnet: Subnet)
    requires 1 <= subnet.noMaskBits < 32
    ensures EndsInZeros(Smallest(subnet), FixedOctets(subnet))
  {
    assert Power2(0) == 1;
  }

  lemma BlockFits(subnet: Subnet)
    requires 1 <= subnet.noMaskBits < 32
    ensures Value(Smallest(subnet)) + BlockSize(subnet) <= TWO_32
    ensures OfValue(Value(Smallest(subnet))) == Smallest(subnet)
  {
    SmallestEndsInZeros(subnet);
    ValueOfBlock(Smallest(subnet), FixedOctets(subnet));
    ValueInjective(OfValue(Value(Smallest(subnet))), Smallest(subnet));
  }

  lemma ValueOfBlock(s: Ip4Addr, fixed: nat)
    requires EndsInZeros(s, fixed)
    ensures Value(s) == Leading(s, fixed) * ZerosBlock(fixed)
    ensures Value(s) + ZerosBlock(fixed) <= TWO_32
  {
    Divisions(s);
  }

  lemma DivideByBlock(ip: Ip4Addr, fixed: nat)
    requires 1 <= fixed <= 4
    ensures Value(ip) / ZerosBlock(fixed) == Leading(ip, fixed)
  {
    Divisions(ip);
  }

  lemma DropBlock(q: nat, fixed: nat, d: nat)
    requires 1 <= fixed <= 4 && d < ZerosBlock(fixed)
    ensures (q * ZerosBlock(fixed) + d) / ZerosBlock(fixed) == q
  {
    DropThree(q, d % 0x100_0000);
    DropTwo(q, d % 0x1_0000);
    DropOne(q, d % 0x100);
  }

  /** Within the block the fixed octets do not change. */
  lemma AddToZeros(s: Ip4Addr, fixed: nat, d: nat)
    requires EndsInZeros(s, fixed) && d < ZerosBlock(fixed) && Value(s) + d < TWO_32
    ensures OfValue(Value(s) + d)[..fixed] == s[..fixed]
  {
    var t := OfValue(Value(s) + d);
    ValueOfBlock(s, fixed);
    DropBlock(Leading(s, fixed), fixed, d);
    DivideByBlock(t, fixed);
    LeadingEqual(t, s, fixed);
  }

  /** One up, or from 255 to 0. */
  predicate Bumped(a: byte, b: byte) {
    if a == 0xFF then b == 0 else b == a + 1
  }

  /** One past the block, the last fixed octet has moved. */
  lemma StepPastBlock(s: Ip4Addr, fixed: nat)
    requires EndsInZeros(s, fixed) && Value(s) + ZerosBlock(fixed) <= TWO_32
    ensures Bumped(s[fixed - 1], Wrapped(Value(s) + ZerosBlock(fixed))[fixed - 1])
  {
    if Value(s) + ZerosBlock(fixed) == TWO_32 {
      ValueInjective(OfValue(0), [0, 0, 0, 0]);
      LastBlock(s, fixed);
    } else {
      OneMoreBlock(s, OfValue(Value(s) + ZerosBlock(fixed)), fixed);
    }
  }

  lemma LastBlock(s: Ip4Addr, fixed: nat)
    requires EndsInZeros(s, fixed) && Value(s) + ZerosBlock(fixed) == TWO_32
    ensures s[fixed - 1] == 0xFF
  {
  }

  lemma OneMoreBlock(s: Ip4Addr, t: Ip4Addr, fixed: nat)
    requires EndsInZeros(s, fixed) && Value(t) == Value(s) + ZerosBlock(fixed)
    ensures Bumped(s[fixed - 1], t[fixed - 1])
  {
    ValueOfBlock(s, fixed);
    Distribute(Leading(s, fixed), ZerosBlock(fixed));
    DropBlock(Leading(s, fixed) + 1, fixed, 0);
    DivideByBlock(t, fixed);
    LeadingUp(s, t, fixed);
  }

  lemma LeadingUp(s: Ip4Addr, t: Ip4Addr, fixed: nat)
    requires 1 <= fixed <= 4 && Leading(t, fixed) == Leading(s, fixed) + 1
    ensures Bumped(s[fixed - 1], t[fixed - 1])
  {
    var a, b := Leading(s, fixed - 1), Leading(t, fixed - 1);
    assert b * 0x100 + t[fixed - 1] == a * 0x100 + s[fixed - 1] + 1;
  }

  lemma Distribute(q: nat, z: nat)
    ensures (q + 1) * z == q * z + z
  {
  }

  lemma {:induction false} LowBitsBound(octet: byte, bits: nat)
    ensures LowBits(octet, bits) < Power2(bits)
  {
    if bits > 0 {
      LowBitsBound(octet / 2, bits - 1);
    }
  }

  lemma {:induction false} Power2Grows(a: nat, b: nat)
    requires a <= b
    ensures Power2(a) <= Power2(b)
  {
    if a < b {
      Power2Grows(a, b - 1);
    }
  }

  lemma BlockIsInside(subnet: Subnet, d: nat)
    requires 1 <= subnet.noMaskBits < 32 && d < BlockSize(subnet)
    requires Value(Smallest(subnet)) + BlockSize(subnet) <= TWO_32
    ensures Inside(subnet, OfValue(Value(Smallest(subnet)) + d))
  {
    var s, index := Smallest(subnet), subnet.Index();
    SmallestEndsInZeros(subnet);
    var t := OfValue(Value(s) + d);
    AddToZeros(s, FixedOctets(subnet), d);
    assert t[..index] == t[..FixedOctets(subnet)][..index] == s[..index];
    if subnet.Bits() > 0 {
      assert t[index] == t[..index + 1][index] == s[..index + 1][index];
      LowBitsTwice(subnet.baseAddr[index], subnet.Bits());
    }
  }

  lemma BlockEndIsOutside(subnet: Subnet)
    requires 1 <= subnet.noMaskBits < 32
    requires Value(Smallest(subnet)) + BlockSize(subnet) <= TWO_32
    ensures !Inside(subnet, Wrapped(Value(Smallest(subnet)) + BlockSize(subnet)))
  {
    var s, index, bits := Smallest(subnet), subnet.Index(), subnet.Bits();
    var t := Wrapped(Value(s) + BlockSize(subnet));
    SmallestEndsInZeros(subnet);
    StepPastBlock(s, FixedOctets(subnet));
    if bits == 0 {
      assert t[index - 1] != subnet.baseAddr[index - 1];
      assert t[..index][index - 1] != subnet.baseAddr[..index][index - 1];
    } else {
      LowBitsMove(subnet.baseAddr[index], t[index], bits);
    }
  }

  /** The address the loop looks at after d rounds. */
  ghost function Visited(subnet: Subnet, d: nat): Ip4Addr
    requires subnet.Valid()
  {
    OfValue((Value(Smallest(subnet)) + d) % TWO_32)
  }

  lemma VisitedMoves(subnet: Subnet, d: nat)
    requires subnet.Valid()
    ensures Visited(subnet, d + 1) == Successor(Visited(subnet, d))
  {
    hide Smallest, Value, OfValue, Successor;
    var v := Value(Smallest(subnet)) + d;
    SuccessorIsNext(v % TWO_32);
    NextRemainder(v);
  }

  lemma NextRemainder(v: nat)
    ensures (v + 1) % TWO_32 == if v % TWO_32 + 1 == TWO_32 then 0 else v % TWO_32 + 1
  {
  }

  /** The loop's exit is ever taken if and only if the mask has a bit. */
  lemma ScanEndsIff(subnet: Subnet)
    requires subnet.Valid()
    ensures (exists d: nat :: !Inside(subnet, Visited(subnet, d))) <==> subnet.noMaskBits >= 1
  {
    if subnet.noMaskBits >= 1 {
      VisitedLeaves(subnet);
    } else {
      forall d: nat ensures Inside(subnet, Visited(subnet, d)) {
        AllInside(subnet, Visited(subnet, d));
      }
    }
  }

  lemma VisitedLeaves(subnet: Subnet)
    requires 1 <= subnet.noMaskBits < 32
    ensures !Inside(subnet, Visited(subnet, BlockSize(subnet)))
  {
    hide Inside, Smallest, Value, OfValue, BlockSize;
    BlockFits(subnet);
    BlockEndIsOutside(subnet);
    var end := Value(Smallest(subnet)) + BlockSize(subnet);
    assert end % TWO_32 == if end == TWO_32 then 0 else end;
  }

  lemma AllInside(subnet: Subnet, ip: Ip4Addr)
    requires subnet.noMaskBits == 0
    ensures Inside(subnet, ip)
  {
  }

  lemma InsideUntilTheEnd(subnet: Subnet, d: nat)
    requires 1 <= subnet.noMaskBits < 32 && d <= BlockSize(subnet)
    requires Value(Smallest(subnet)) + BlockSize(subnet) <= TWO_32
    ensures Inside(subnet, Wrapped(Value(Smallest(subnet)) + d)) <==> d < BlockSize(subnet)
  {
    if d < BlockSize(subnet) {
      BlockIsInside(subnet, d);
    } else {
      BlockEndIsOutside(subnet);
    }
  }

  lemma LowBitsMove(octet: byte, next: byte, bits: nat)
    requires 0 < bits < 8 && Bumped(LowBits(octet, bits), next)
    ensures LowBits(next, bits) != LowBits(octet, bits)
  {
    LowBitsAreFew(octet, bits);
    LowBitsParity(octet, bits);
    LowBitsParity(next, bits);
  }

  lemma LowBitsAreFew(octet: byte, bits: nat)
    requires bits < 8
    ensures LowBits(octet, bits) < 0x80
  {
    LowBitsBound(octet, bits);
    Power2Grows(bits, 7);
  }

  lemma LowBitsParity(octet: byte, bits: nat)
    requires 0 < bits
    ensures LowBits(octet, bits) % 2 == octet % 2
  {
  }

  // ---------- what the scan covers ----------

  /** Every address of the block once, in ascending order. */
  lemma RangeAscends(start: nat, n: nat, i: nat, j: nat)
    requires start + n <= TWO_32 && i < j < n
    ensures Value(Range(start, n)[i]) < Value(Range(start, n)[j])
  {
  }

  /**
    For a mask of whole octets the addresses visited are those of the CIDR subnet and no others; for
    every other mask the scan visits a block of the wrong size.
   */
  lemma ScanCoversSubnet(subnet: Subnet, ip: Ip4Addr)
    requires 1 <= subnet.noMaskBits < 32
    requires Value(Smallest(subnet)) + BlockSize(subnet) <= TWO_32
    requires subnet.Bits() == 0
    ensures ip in Range(Value(Smallest(subnet)), BlockSize(subnet)) <==> InsideCidr(subnet, ip)
  {
    var start, size := Value(Smallest(subnet)), BlockSize(subnet);
    var range := Range(start, size);
    WholeOctets(subnet, ip);
    if ip in range {
      var d :| 0 <= d < size && range[d] == ip;
      BlockIsInside(subnet, d);
    }
    if InsideCidr(subnet, ip) {
      ValueInBlock(subnet, ip);
      var d := Value(ip) - start;
      ValueInjective(ip, range[d]);
      assert range[d] in range;
    }
  }

  lemma ValueInBlock(subnet: Subnet, ip: Ip4Addr)
    requires 1 <= subnet.noMaskBits < 32 && subnet.Bits() == 0 && Inside(subnet, ip)
    ensures 0 <= Value(ip) - Value(Smallest(subnet)) < BlockSize(subnet)
  {
    OctetPowers();
    var s, index := Smallest(subnet), subnet.Index();
    forall i | 0 <= i < index ensures ip[i] == s[i] {
      assert ip[..index][i] == subnet.baseAddr[..index][i];
    }
  }

  lemma BlockIsSubnetIffWholeOctets(subnet: Subnet)
    requires 1 <= subnet.noMaskBits < 32
    ensures BlockSize(subnet) == Power2(32 - subnet.noMaskBits) <==> subnet.noMaskBits % 8 == 0
  {
    OctetPowers();
    if subnet.Bits() != 0 {
      Power2Adds(8 * (3 - subnet.Index()), 8 - subnet.Bits());
      assert Power2(8 - subnet.Bits()) == 2 * Power2(7 - subnet.Bits()) >= 2;
    }
  }

  ghost predicate Ascending(addrs: seq<Ip4Addr>) {
    forall i, j :: 0 <= i < j < |addrs| ==> Value(addrs[i]) < Value(addrs[j])
  }

  ghost function Targets(requests: seq<ArpHeader>): (r: seq<seq<byte>>)
    ensures |r| == |requests|
  {
    seq(|requests|, i requires 0 <= i < |requests| => requests[i].targetProtAddr)
  }

  /** The requests go out in the order in which the addresses are visited. */
  lemma {:induction false} RequestsAscend(addrs: seq<Ip4Addr>, skip: set<Ip4Addr>, srcMac: MacAddr, srcIp: Ip4Addr)
    returns (asked: seq<Ip4Addr>)
    requires Ascending(addrs)
    ensures Targets(Requests(addrs, skip, srcMac, srcIp)) == asked && Ascending(asked)
    ensures forall ip :: ip in asked ==> ip in addrs
  {
    asked := [];
    if addrs != [] {
      var init, last := addrs[..|addrs| - 1], addrs[|addrs| - 1];
      assert addrs == init + [last];
      asked := RequestsAscend(init, skip, srcMac, srcIp);
      if last !in skip {
        asked := asked + [last];
        assert forall ip :: ip in init ==> Value(ip) < Value(last);
      }
    }
  }

  /** An address is asked for exactly when it is visited and not skipped. */
  lemma {:induction false} RequestedIffNotSkipped(
    addrs: seq<Ip4Addr>, skip: set<Ip4Addr>, srcMac: MacAddr, srcIp: Ip4Addr, ip: Ip4Addr)
    ensures Request(srcMac, srcIp, ip) in Requests(addrs, skip, srcMac, srcIp) <==> ip in addrs && ip !in skip
  {
    if |addrs| > 0 {
      var front, last := addrs[..|addrs| - 1], addrs[|addrs| - 1];
      assert addrs == front + [last];
      RequestedIffNotSkipped(front, skip, srcMac, srcIp, ip);
      assert ip in addrs <==> ip in front || ip == last;
    }
  }
}
