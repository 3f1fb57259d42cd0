/**
  What the register computes: a polynomial division (IEEE 802.3, section 3.2.9), and what follows for
  a receiver.
 */
module CrcDivision {
  import opened Bytes
  import opened Crc32

  /** `mask` added to the leading coefficients of `p`. */
  function XorFront(mask: Word32, p: Bits): (r: Bits)
    requires 32 <= |p|
    ensures |r| == |p|
  {
    Xor(mask, p[..32]) + p[32..]
  }

  /** Long division by the generator x^32 + POLY of a polynomial given highest coefficient first: the remainder. */
  function Remainder(p: Bits): Bits
    decreases |p|
  {
    if |p| <= 32 then p
    else if p[0] then Remainder(XorFront(POLY, p[1..]))
    else Remainder(p[1..])
  }

  /** A frame as a polynomial: octet after octet, each octet's low bit first. */
  function Coefficients(data: seq<byte>): Bits {
    if data == [] then [] else ToBits(data[0], 8) + Coefficients(data[1..])
  }

  // ---------- the register fed bit by bit ----------

  function FeedBit(crc: Word32, b: bool): Word32 {
    if crc[0] != b then Xor(POLY, ShiftRight(crc)) else ShiftRight(crc)
  }

  function FeedBits(crc: Word32, m: Bits): Word32
    decreases |m|
  {
    if m == [] then crc else FeedBits(FeedBit(crc, m[0]), m[1..])
  }

  lemma {:induction false} FeedBitsConcat(crc: Word32, a: Bits, b: Bits)
    ensures FeedBits(crc, a + b) == FeedBits(FeedBits(crc, a), b)
    decreases |a|
  {
    if a == [] {
      assert a + b == b;
    } else {
      assert (a + b)[1..] == a[1..] + b;
      FeedBitsConcat(FeedBit(crc, a[0]), a[1..], b);
    }
  }

  /** Xoring n bits into the low end and shifting n times is feeding those bits one by one. */
  lemma {:induction false} ShiftsAreFeeds(crc: Word32, m: Bits, n: nat)
    requires n + |m| == 32
    ensures ShiftTimes(Xor(crc, m + Zeros(n)), |m|) == FeedBits(crc, m)
  {
    PartialShiftsAreFeeds(crc, m, n);
  }

  lemma {:induction false} PartialShiftsAreFeeds(crc: Word32, m: Bits, n: nat)
    requires n + |m| == 32
    ensures ShiftTimes(Xor(crc, m + Zeros(n)), |m|) == FeedBits(crc, m)
    decreases |m|
  {
    if m == [] {
      assert Xor(crc, m + Zeros(n)) == crc;
    } else {
      var x := Xor(crc, m + Zeros(n));
      assert ShiftRight(x) == Xor(ShiftRight(crc), m[1..] + Zeros(n + 1));
      var fed := FeedBit(crc, m[0]);
      assert ShiftOut(x) == Xor(fed, m[1..] + Zeros(n + 1));
      PartialShiftsAreFeeds(fed, m[1..], n + 1);
    }
  }

  lemma {:induction false} FeedIsFeedBits(crc: Word32, data: seq<byte>)
    ensures Feed(crc, data) == FeedBits(crc, Coefficients(data))
    decreases |data|
  {
    if data != [] {
      ByteIsEightBits(data[0]);
      ShiftsAreFeeds(crc, ToBits(data[0], 8), 24);
      FeedIsFeedBits(FeedByte(crc, data[0]), data[1..]);
      FeedBitsConcat(crc, ToBits(data[0], 8), Coefficients(data[1..]));
    }
  }

  // ---------- feeding is dividing ----------

  lemma {:induction false} FeedingDivides(crc: Word32, m: Bits)
    ensures FeedBits(crc, m) == Remainder(XorFront(crc, m + Zeros(32)))
    decreases |m|
  {
    var p := XorFront(crc, m + Zeros(32));
    if m == [] {
      assert p == crc;
    } else {
      var rest := m[1..] + Zeros(32);
      assert (m + Zeros(32))[1..] == rest;
      var shifted := ShiftRight(crc);
      assert p[1..] == XorFront(shifted, rest);
      if p[0] {
        assert XorFront(POLY, p[1..]) == XorFront(Xor(POLY, shifted), rest);
      }
      FeedingDivides(FeedBit(crc, m[0]), m[1..]);
    }
  }

  /**
    IEEE 802.3, section 3.2.9: complement the frame's first 32 coefficients, multiply by x^32, divide,
    and complement the remainder's 32 coefficients; the highest is sent first.
   */
  lemma FcsIsDivision(data: seq<byte>)
    ensures Fcs(data) == Not(Remainder(XorFront(ALL_ONES, Coefficients(data) + Zeros(32))))
  {
    FeedIsFeedBits(ALL_ONES, data);
    FeedingDivides(ALL_ONES, Coefficients(data));
  }

  // ---------- what a receiver can rely on ----------

  lemma ShiftOutInjective(x: Word32, y: Word32)
    requires ShiftOut(x) == ShiftOut(y)
    ensures x == y
  {
    // The generator's last coefficient tells whether it was added, that is, which bit went out.
    assert ShiftOut(x)[31] == x[0] && ShiftOut(y)[31] == y[0];
    assert ShiftRight(x) == ShiftRight(y) by {
      forall i | 0 <= i < 32 ensures ShiftRight(x)[i] == ShiftRight(y)[i] {
        assert ShiftOut(x)[i] == ShiftOut(y)[i];
      }
    }
    forall i | 0 < i < 32 ensures x[i] == y[i] {
      assert ShiftRight(x)[i - 1] == ShiftRight(y)[i - 1];
    }
  }

  lemma {:induction false} ShiftTimesInjective(x: Word32, y: Word32, n: nat)
    requires ShiftTimes(x, n) == ShiftTimes(y, n)
    ensures x == y
    decreases n
  {
    if n > 0 {
      ShiftTimesInjective(ShiftOut(x), ShiftOut(y), n - 1);
      ShiftOutInjective(x, y);
    }
  }

  lemma XorInjective(a: Word32, x: Word32, y: Word32)
    requires Xor(a, x) == Xor(a, y)
    ensures x == y
  {
    forall i | 0 <= i < 32 ensures x[i] == y[i] {
      assert Xor(a, x)[i] == Xor(a, y)[i];
    }
  }

  lemma {:induction false} FeedConcat(crc: Word32, a: seq<byte>, b: seq<byte>)
    ensures Feed(crc, a + b) == Feed(Feed(crc, a), b)
    decreases |a|
  {
    if a == [] {
      assert a + b == b;
    } else {
      assert (a + b)[1..] == a[1..] + b;
      FeedConcat(FeedByte(crc, a[0]), a[1..], b);
    }
  }

  lemma {:induction false} CoefficientsInjective(a: seq<byte>, b: seq<byte>)
    requires |a| == |b| && Coefficients(a) == Coefficients(b)
    ensures a == b
  {
    if a != [] {
      CoefficientsLength(a[1..]);
      CoefficientsLength(b[1..]);
      var p, q := ToBits(a[0], 8), ToBits(b[0], 8);
      assert p == Coefficients(a)[..8] == Coefficients(b)[..8] == q;
      assert Coefficients(a[1..]) == Coefficients(a)[8..] == Coefficients(b)[8..] == Coefficients(b[1..]);
      ToBitsInjective(a[0], b[0], 8);
      CoefficientsInjective(a[1..], b[1..]);
    }
  }

  lemma {:induction false} CoefficientsLength(a: seq<byte>)
    ensures |Coefficients(a)| == 8 * |a|
  {
    if a != [] {
      CoefficientsLength(a[1..]);
    }
  }

  lemma {:induction false} ToBitsInjective(m: nat, n: nat, k: nat)
    requires m < Power2(k) && n < Power2(k) && ToBits(m, k) == ToBits(n, k)
    ensures m == n
    decreases k
  {
    if k > 0 {
      var p, q := ToBits(m, k), ToBits(n, k);
      assert p[0] == q[0] && p[1..] == q[1..];
      ToBitsInjective(m / 2, n / 2, k - 1);
    }
  }

  /** Four octets after a prefix: the register, xored with their 32 bits, shifted 32 times. */
  lemma FeedFour(crc: Word32, a: seq<byte>)
    requires |a| == 4
    ensures |Coefficients(a)| == 32
    ensures Feed(crc, a) == ShiftTimes(Xor(crc, Coefficients(a)), 32)
  {
    CoefficientsLength(a);
    FeedIsFeedBits(crc, a);
    ShiftsAreFeeds(crc, Coefficients(a), 0);
    assert Coefficients(a) + Zeros(0) == Coefficients(a);
  }

  lemma {:induction false} FeedBitsInjective(x: Word32, y: Word32, m: Bits)
    requires FeedBits(x, m) == FeedBits(y, m)
    ensures x == y
    decreases |m|
  {
    if m != [] {
      FeedBitsInjective(FeedBit(x, m[0]), FeedBit(y, m[0]), m[1..]);
      FeedBitInjective(x, y, m[0]);
    }
  }

  lemma FeedBitInjective(x: Word32, y: Word32, b: bool)
    requires FeedBit(x, b) == FeedBit(y, b)
    ensures x == y
  {
    hide POLY;
    var bit := [b] + Zeros(31);
    assert FeedBit(x, b) == ShiftOut(Xor(bit, x)) by { AddedBit(x, b); }
    assert FeedBit(y, b) == ShiftOut(Xor(bit, y)) by { AddedBit(y, b); }
    ShiftOutInjective(Xor(bit, x), Xor(bit, y));
    XorInjective(bit, x, y);
  }

  lemma AddedBit(w: Word32, b: bool)
    ensures FeedBit(w, b) == ShiftOut(Xor([b] + Zeros(31), w))
  {
    hide POLY;
    assert ShiftRight(Xor([b] + Zeros(31), w)) == ShiftRight(w);
  }

  /** Up to 32 bits fed into one register leave it different when they are. */
  lemma WindowInjective(crc: Word32, m: Bits, n: Bits)
    requires |m| == |n| <= 32 && FeedBits(crc, m) == FeedBits(crc, n)
    ensures m == n
  {
    var k := 32 - |m|;
    ShiftsAreFeeds(crc, m, k);
    ShiftsAreFeeds(crc, n, k);
    ShiftTimesInjective(Xor(crc, m + Zeros(k)), Xor(crc, n + Zeros(k)), |m|);
    XorInjective(crc, m + Zeros(k), n + Zeros(k));
    assert (m + Zeros(k))[..|m|] == m && (n + Zeros(k))[..|m|] == n;
  }

  lemma InThree(crc: Word32, p: Bits, from: nat, to: nat)
    requires from <= to <= |p|
    ensures FeedBits(crc, p) == FeedBits(FeedBits(FeedBits(crc, p[..from]), p[from..to]), p[to..])
  {
    FeedBitsConcat(crc, p[..to], p[to..]);
    FeedBitsConcat(crc, p[..from], p[from..to]);
    assert p[..to] + p[to..] == p && p[..from] + p[from..to] == p[..to];
  }

  /** A burst confined to 32 consecutive bits of the frame, wherever they begin, never goes undetected. */
  lemma BurstIsDetected(x: seq<byte>, y: seq<byte>, from: nat, to: nat)
    requires |x| == |y| && from <= to <= |Coefficients(x)| == |Coefficients(y)| && to - from <= 32
    requires Coefficients(x)[..from] == Coefficients(y)[..from] && Coefficients(x)[to..] == Coefficients(y)[to..]
    ensures Fcs(x) == Fcs(y) <==> x == y
  {
    hide Coefficients, FeedBits;
    var p, q := Coefficients(x), Coefficients(y);
    FeedIsFeedBits(ALL_ONES, x);
    FeedIsFeedBits(ALL_ONES, y);
    InThree(ALL_ONES, p, from, to);
    InThree(ALL_ONES, q, from, to);
    if Fcs(x) == Fcs(y) {
      var crc := FeedBits(ALL_ONES, p[..from]);
      NotInjective(Feed(ALL_ONES, x), Feed(ALL_ONES, y));
      FeedBitsInjective(FeedBits(crc, p[from..to]), FeedBits(crc, q[from..to]), p[to..]);
      WindowInjective(crc, p[from..to], q[from..to]);
      assert p == p[..from] + p[from..to] + p[to..] && q == q[..from] + q[from..to] + q[to..];
      CoefficientsInjective(x, y);
    }
  }

  lemma NotInjective(x: Word32, y: Word32)
    requires Not(x) == Not(y)
    ensures x == y
  {
    forall i | 0 <= i < 32 ensures x[i] == y[i] {
      assert Not(x)[i] == Not(y)[i];
    }
  }

  /** What recomputing over a frame and its own check sequence gives, whatever the frame. */
  function Residue(): Word32 {
    Not(ShiftTimes(ALL_ONES, 32))
  }

  /**
    A receiver recomputing over data and the four octets after it gets the residue exactly when those
    octets are the data's check sequence, low octet first.
   */
  lemma ResidueIffIntact(data: seq<byte>, tail: seq<byte>)
    requires |tail| == 4
    ensures Fcs(data + tail) == Residue() <==> Coefficients(tail) == Fcs(data)
  {
    var crc := Feed(ALL_ONES, data);
    FeedConcat(ALL_ONES, data, tail);
    FeedFour(crc, tail);
    assert Xor(crc, Not(crc)) == ALL_ONES;
    if Fcs(data + tail) == Residue() {
      NotInjective(Feed(crc, tail), ShiftTimes(ALL_ONES, 32));
      ShiftTimesInjective(Xor(crc, Coefficients(tail)), ALL_ONES, 32);
      XorInjective(crc, Coefficients(tail), Not(crc));
    }
  }
}
