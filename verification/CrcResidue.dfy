/** The number that IEEE 802.3 receivers compare with: the residue as a 32-bit word. */
module CrcResidue {
  import opened Bytes
  import opened Crc32
  import opened CrcDivision

  /** A register whose bits have names, so that clocking it is a matter of propositions. */
  datatype Bits32 = Bits32(
    b0: bool, b1: bool, b2: bool, b3: bool, b4: bool, b5: bool, b6: bool, b7: bool,
    b8: bool, b9: bool, b10: bool, b11: bool, b12: bool, b13: bool, b14: bool, b15: bool,
    b16: bool, b17: bool, b18: bool, b19: bool, b20: bool, b21: bool, b22: bool, b23: bool,
    b24: bool, b25: bool, b26: bool, b27: bool, b28: bool, b29: bool, b30: bool, b31: bool)
  {
    /** One shift; the coefficients of the generator are where the outgoing bit is added. */
    function Clocked(): Bits32 {
      Bits32(
        b1, b2, b3, b4, b5, b6 != b0, b7, b8,
        b9 != b0, b10 != b0, b11, b12, b13, b14, b15, b16 != b0,
        b17, b18, b19, b20 != b0, b21 != b0, b22 != b0, b23, b24 != b0,
        b25 != b0, b26, b27 != b0, b28 != b0, b29, b30 != b0, b31 != b0, b0)
    }

    function Number(): nat {
      Octet(b0, b1, b2, b3, b4, b5, b6, b7)
      + 0x100 * Octet(b8, b9, b10, b11, b12, b13, b14, b15)
      + 0x1_0000 * Octet(b16, b17, b18, b19, b20, b21, b22, b23)
      + 0x100_0000 * Octet(b24, b25, b26, b27, b28, b29, b30, b31)
    }

    /** Octet by octet. */
    ghost predicate Shows(l: Word32) {
      Shows0(l) && Shows1(l) && Shows2(l) && Shows3(l)
    }

    ghost predicate Shows0(l: Word32) {
      && l[0] == b0 && l[1] == b1 && l[2] == b2 && l[3] == b3
      && l[4] == b4 && l[5] == b5 && l[6] == b6 && l[7] == b7
    }

    ghost predicate Shows1(l: Word32) {
      && l[8] == b8 && l[9] == b9 && l[10] == b10 && l[11] == b11
      && l[12] == b12 && l[13] == b13 && l[14] == b14 && l[15] == b15
    }

    ghost predicate Shows2(l: Word32) {
      && l[16] == b16 && l[17] == b17 && l[18] == b18 && l[19] == b19
      && l[20] == b20 && l[21] == b21 && l[22] == b22 && l[23] == b23
    }

    ghost predicate Shows3(l: Word32) {
      && l[24] == b24 && l[25] == b25 && l[26] == b26 && l[27] == b27
      && l[28] == b28 && l[29] == b29 && l[30] == b30 && l[31] == b31
    }
  }

  function Weight(b: bool, n: nat): nat {
    if b then n else 0
  }

  function Octet(b0: bool, b1: bool, b2: bool, b3: bool, b4: bool, b5: bool, b6: bool, b7: bool): nat {
    Weight(b0, 1) + Weight(b1, 2) + Weight(b2, 4) + Weight(b3, 8)
    + Weight(b4, 16) + Weight(b5, 32) + Weight(b6, 64) + Weight(b7, 128)
  }

  const T := true
  const F := false

  function Clock(w: Bits32, n: nat): Bits32
    decreases n
  {
    if n == 0 then w else Clock(w.Clocked(), n - 1)
  }

  lemma ShiftOutAt(l: Word32, i: nat)
    requires i < 32
    ensures ShiftOut(l)[i] == if i == 31 then l[0] && POLY[i] else l[i + 1] != (l[0] && POLY[i])
  {
  }

  lemma Clocked0(w: Bits32, l: Word32)
    requires w.Shows0(l) && l[0] == w.b0 && l[8] == w.b8
    ensures w.Clocked().Shows0(ShiftOut(l))
  {
    hide ShiftOut, POLY;
    Poly0();
    ShiftOutAt(l, 0); ShiftOutAt(l, 1); ShiftOutAt(l, 2); ShiftOutAt(l, 3);
    ShiftOutAt(l, 4); ShiftOutAt(l, 5); ShiftOutAt(l, 6); ShiftOutAt(l, 7);
  }

  lemma Clocked1(w: Bits32, l: Word32)
    requires w.Shows1(l) && l[0] == w.b0 && l[16] == w.b16
    ensures w.Clocked().Shows1(ShiftOut(l))
  {
    hide ShiftOut, POLY;
    Poly1();
    ShiftOutAt(l, 8); ShiftOutAt(l, 9); ShiftOutAt(l, 10); ShiftOutAt(l, 11);
    ShiftOutAt(l, 12); ShiftOutAt(l, 13); ShiftOutAt(l, 14); ShiftOutAt(l, 15);
  }

  lemma Clocked2(w: Bits32, l: Word32)
    requires w.Shows2(l) && l[0] == w.b0 && l[24] == w.b24
    ensures w.Clocked().Shows2(ShiftOut(l))
  {
    hide ShiftOut, POLY;
    Poly2();
    ShiftOutAt(l, 16); ShiftOutAt(l, 17); ShiftOutAt(l, 18); ShiftOutAt(l, 19);
    ShiftOutAt(l, 20); ShiftOutAt(l, 21); ShiftOutAt(l, 22); ShiftOutAt(l, 23);
  }

  lemma Clocked3(w: Bits32, l: Word32)
    requires w.Shows3(l) && l[0] == w.b0
    ensures w.Clocked().Shows3(ShiftOut(l))
  {
    hide ShiftOut, POLY;
    Poly3();
    ShiftOutAt(l, 24); ShiftOutAt(l, 25); ShiftOutAt(l, 26); ShiftOutAt(l, 27);
    ShiftOutAt(l, 28); ShiftOutAt(l, 29); ShiftOutAt(l, 30); ShiftOutAt(l, 31);
  }

  lemma ClockedShifts(w: Bits32, l: Word32)
    requires w.Shows(l)
    ensures w.Clocked().Shows(ShiftOut(l))
  {
    hide Bits32.Clocked, ShiftOut;
    Clocked0(w, l);
    Clocked1(w, l);
    Clocked2(w, l);
    Clocked3(w, l);
  }

  lemma {:induction false} ClockShifts(w: Bits32, l: Word32, n: nat)
    requires w.Shows(l)
    ensures Clock(w, n).Shows(ShiftTimes(l, n))
    decreases n
  {
    hide Bits32.Shows, Bits32.Clocked, ShiftOut;
    if n > 0 {
      ClockedShifts(w, l);
      ClockShifts(w.Clocked(), ShiftOut(l), n - 1);
    }
  }

  lemma {:induction false} ClockAdds(w: Bits32, m: nat, n: nat)
    ensures Clock(w, m + n) == Clock(Clock(w, m), n)
    decreases m
  {
    hide Bits32.Clocked;
    if m > 0 {
      ClockAdds(w.Clocked(), m - 1, n);
    }
  }

  function After0(): Bits32 {
    Bits32(T, T, T, T, T, T, T, T, T, T, T, T, T, T, T, T,
           T, T, T, T, T, T, T, T, T, T, T, T, T, T, T, T)
  }

  function After8(): Bits32 {
    Bits32(F, T, F, F, T, T, T, F, F, F, F, F, T, F, F, F,
           T, F, T, T, T, T, T, T, T, F, T, T, F, T, F, F)
  }

  function After16(): Bits32 {
    Bits32(F, F, F, F, F, F, F, F, T, F, T, T, F, T, T, T,
           F, T, T, F, F, T, F, F, F, T, T, T, T, T, F, T)
  }

  function After24(): Bits32 {
    Bits32(T, F, T, T, F, T, T, T, F, T, T, F, F, T, F, F,
           F, T, T, T, T, T, F, T, F, F, F, F, F, F, F, F)
  }

  function After32(): Bits32 {
    Bits32(T, T, F, F, F, T, T, T, F, F, F, F, F, T, F, F,
           T, T, F, T, T, T, F, T, F, T, T, T, T, F, T, T)
  }

  lemma From0To8()
    ensures Clock(After0(), 8) == After8()
  {
  }

  lemma From8To16()
    ensures Clock(After8(), 8) == After16()
  {
  }

  lemma From16To24()
    ensures Clock(After16(), 8) == After24()
  {
  }

  lemma From24To32()
    ensures Clock(After24(), 8) == After32()
  {
  }

  function Generator(): Bits32 {
    Bits32(F, F, F, F, F, T, F, F, T, T, F, F, F, F, F, T,
           F, F, F, T, T, T, F, T, T, F, T, T, F, T, T, T)
  }

  lemma ClockedThirtyTwoTimes()
    ensures Clock(After0(), 32) == After32()
  {
    hide Clock, After0, After8, After16, After24, After32;
    From0To8();
    From8To16();
    From16To24();
    From24To32();
    ClockAdds(After0(), 8, 8);
    ClockAdds(After0(), 16, 8);
    ClockAdds(After0(), 24, 8);
  }

  // ---------- the list as a number ----------

  lemma ToNatFour(s: Bits)
    requires |s| >= 4
    ensures ToNat(s) == Weight(s[0], 1) + Weight(s[1], 2) + Weight(s[2], 4) + Weight(s[3], 8) + 16 * ToNat(s[4..])
  {
    assert s[1..][1..] == s[2..] && s[2..][1..] == s[3..] && s[3..][1..] == s[4..];
    assert ToNat(s[3..]) == Weight(s[3], 1) + 2 * ToNat(s[4..]);
    assert ToNat(s[2..]) == Weight(s[2], 1) + 2 * ToNat(s[3..]);
    assert ToNat(s[1..]) == Weight(s[1], 1) + 2 * ToNat(s[2..]);
  }

  lemma ToNatOctet(s: Bits)
    requires |s| >= 8
    ensures ToNat(s) == Octet(s[0], s[1], s[2], s[3], s[4], s[5], s[6], s[7]) + 0x100 * ToNat(s[8..])
  {
    hide ToNat;
    ToNatFour(s);
    ToNatFour(s[4..]);
    assert s[4..][4..] == s[8..];
  }

  lemma ShownNumber(w: Bits32, l: Word32)
    requires w.Shows(l)
    ensures ToNat(l) == w.Number()
  {
    hide ToNat, Octet;
    ToNatOctet(l);
    ToNatOctet(l[8..]);
    ToNatOctet(l[16..]);
    ToNatOctet(l[24..]);
    assert l[8..][8..] == l[16..] && l[16..][8..] == l[24..] && l[24..][8..] == [];
    NothingIsZero();
  }

  lemma NothingIsZero()
    ensures ToNat([]) == 0
  {
  }

  lemma AllOnesShown()
    ensures After0().Shows(ALL_ONES)
  {
  }

  lemma {:induction false} ToNatOfNot(s: Bits)
    ensures ToNat(Not(s)) + ToNat(s) + 1 == Power2(|s|)
  {
    if s != [] {
      assert Not(s)[1..] == Not(s[1..]);
      ToNatOfNot(s[1..]);
    }
  }

  lemma Power2Of32()
    ensures Power2(32) == 0x1_0000_0000
  {
    assert Power2(8) == 0x100;
    assert Power2(16) == 0x1_0000;
    assert Power2(24) == 0x100_0000;
  }

  lemma Poly0()
    ensures Generator().Shows0(POLY)
  {
  }

  lemma Poly1()
    ensures Generator().Shows1(POLY)
  {
  }

  lemma Poly2()
    ensures Generator().Shows2(POLY)
  {
  }

  lemma Poly3()
    ensures Generator().Shows3(POLY)
  {
  }

  /** The generator's number in the source. */
  lemma PolyNumber()
    ensures ToNat(POLY) == 0xEDB8_8320
  {
    hide ToNat, Bits32.Shows0, Bits32.Shows1, Bits32.Shows2, Bits32.Shows3;
    Poly0();
    Poly1();
    Poly2();
    Poly3();
    ShownNumber(Generator(), POLY);
  }

  /** The residue every intact frame leaves; see `ResidueIffIntact`. */
  lemma ResidueNumber()
    ensures ToNat(Residue()) == 0x2144_DF1C
  {
    hide ToNat, Clock;
    AllOnesShown();
    ClockShifts(After0(), ALL_ONES, 32);
    ClockedThirtyTwoTimes();
    ShownNumber(After32(), ShiftTimes(ALL_ONES, 32));
    ToNatOfNot(ShiftTimes(ALL_ONES, 32));
    assert After32().Number() == 0xDEBB_20E3;
    Power2Of32();
  }

  // ---------- the check sequence in a frame ----------

  /** A native 32-bit store of the word: low octet first. */
  function Stored(w: Word32): (s: seq<byte>)
    ensures |s| == 4
  {
    ToNatBound(w[..8]);
    ToNatBound(w[8..16]);
    ToNatBound(w[16..24]);
    ToNatBound(w[24..]);
    [ToNat(w[..8]), ToNat(w[8..16]), ToNat(w[16..24]), ToNat(w[24..])]
  }

  lemma BitsOfNumber(s: Bits)
    ensures ToBits(ToNat(s), |s|) == s
  {
    hide ToNat, ToBits;
    ToBitsOfToNat(s, 0);
    assert s + Zeros(0) == s;
  }

  lemma CoefficientsOfStored(w: Word32)
    ensures Coefficients(Stored(w)) == w
  {
    hide ToNat, ToBits;
    BitsOfNumber(w[..8]);
    BitsOfNumber(w[8..16]);
    BitsOfNumber(w[16..24]);
    BitsOfNumber(w[24..]);
    var s := Stored(w);
    assert Coefficients(s[3..]) == w[24..];
    assert s[2..][1..] == s[3..] && Coefficients(s[2..]) == w[16..24] + w[24..] == w[16..];
    assert s[1..][1..] == s[2..] && Coefficients(s[1..]) == w[8..16] + w[16..] == w[8..];
    assert Coefficients(s) == w[..8] + w[8..] == w;
  }

  /**
    Recomputing over data and the four octets behind it gives the number exactly when those octets are
    the data's check sequence, stored low octet first.
   */
  lemma IntactIffNumber(data: seq<byte>, tail: seq<byte>)
    requires |tail| == 4
    ensures ToNat(Fcs(data + tail)) == 0x2144_DF1C <==> tail == Stored(Fcs(data))
  {
    hide ToNat, Fcs, Residue, Stored, Coefficients;
    ResidueNumber();
    BitsOfNumber(Fcs(data + tail));
    BitsOfNumber(Residue());
    ResidueIffIntact(data, tail);
    CoefficientsOfStored(Fcs(data));
    if Coefficients(tail) == Fcs(data) {
      CoefficientsInjective(tail, Stored(Fcs(data)));
    }
  }
}
