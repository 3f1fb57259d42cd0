/**
  The Ethernet frame check sequence. The source computes it a byte at a time from a 256-entry table;
  IEEE 802.3, section 3.2.9, defines it as the remainder of a division of polynomials over GF(2).
  A `uint32_t` is its 32 bits, least significant first, so `& 1`, `>> 1` and `^` act on lists of bits.
 */
module Crc32 {
  import opened Bytes

  type Bits = seq<bool>
  type Word32 = w: Bits | |w| == 32 witness seq(32, _ => false)

  // ---------- bit lists ----------

  function ToBits(n: nat, k: nat): (s: Bits)
    ensures |s| == k
    decreases n, k
  {
    if k == 0 then [] else [n % 2 == 1] + ToBits(n / 2, k - 1)
  }

  function ToNat(s: Bits): nat {
    if s == [] then 0 else (if s[0] then 1 else 0) + 2 * ToNat(s[1..])
  }

  function Zeros(k: nat): (s: Bits)
    ensures |s| == k
  {
    seq(k, _ => false)
  }

  function Xor(a: Bits, b: Bits): (r: Bits)
    requires |a| == |b|
    ensures |r| == |a|
  {
    seq(|a|, i requires 0 <= i < |a| => a[i] != b[i])
  }

  function Not(a: Bits): (r: Bits)
    ensures |r| == |a|
  {
    seq(|a|, i requires 0 <= i < |a| => !a[i])
  }

  // ---------- the register: one bit, many bits, one byte, all bytes ----------

  /**
    0xEDB88320. Bit i is the coefficient of x^(31 - i) in the generator of IEEE 802.3, so the list reads
    x^26 + x^23 + x^22 + x^16 + x^12 + x^11 + x^10 + x^8 + x^7 + x^5 + x^4 + x^2 + x + 1 (x^32 is implied).
   */
  const POLY: Word32 :=
    [false, false, false, false, false, true, false, false]
    + [true, true, false, false, false, false, false, true]
    + [false, false, false, true, true, true, false, true]
    + [true, false, true, true, false, true, true, true]

  function ShiftRight(w: Word32): Word32 {
    w[1..] + [false]
  }

  function ShiftOut(crc: Word32): Word32 {
    if crc[0] then Xor(POLY, ShiftRight(crc)) else ShiftRight(crc)
  }

  function ShiftTimes(crc: Word32, n: nat): Word32
    decreases n, crc
  {
    if n == 0 then crc else ShiftTimes(ShiftOut(crc), n - 1)
  }

  /** Bit at a time: the byte is xored into the low end and eight bits are shifted out. */
  function FeedByte(crc: Word32, b: byte): Word32 {
    ShiftTimes(Xor(crc, ToBits(b, 32)), 8)
  }

  function Feed(crc: Word32, data: seq<byte>): Word32
    decreases |data|
  {
    if data == [] then crc else Feed(FeedByte(crc, data[0]), data[1..])
  }

  /** 0xFFFFFFFF. */
  const ALL_ONES: Word32 := Not(Zeros(32))

  function Fcs(data: seq<byte>): Word32 {
    Not(Feed(ALL_ONES, data))
  }

  // ---------- the table-driven computation ----------

  method InitTable(table: array<Word32>)
    requires table.Length == 256
    modifies table
    ensures forall i :: 0 <= i < 256 ==> table[i] == ShiftTimes(ToBits(i, 32), 8)
  {
    hide ToBits, POLY;
    for i := 0 to 256
      invariant forall k :: 0 <= k < i ==> table[k] == ShiftTimes(ToBits(k, 32), 8)
    {
      var crc: Word32 := ToBits(i, 32);
      ghost var entry := ShiftTimes(crc, 8);
      for j := 0 to 8
        invariant ShiftTimes(crc, 8 - j) == entry
      {
        assert ShiftTimes(crc, 8 - j) == ShiftTimes(ShiftOut(crc), 8 - j - 1);
        crc := if crc[0] then Xor(POLY, ShiftRight(crc)) else ShiftRight(crc);
      }
      table[i] := crc;
    }
  }

  method CalcCrc(data: seq<byte>, table: array<Word32>) returns (r: Word32)
    requires table.Length == 256
    modifies table
    ensures r == Fcs(data)
  {
    InitTable(table);
    var crc := ALL_ONES;
    for off := 0 to |data|
      invariant Feed(crc, data[off..]) == Feed(ALL_ONES, data)
      invariant forall i :: 0 <= i < 256 ==> table[i] == ShiftTimes(ToBits(i, 32), 8)
    {
      var low := Xor(crc, ToBits(data[off], 32))[..8];
      var index := ToNat(low);
      ToNatBound(low);
      TableStep(crc, data[off]);
      assert data[off..][1..] == data[off + 1..];
      crc := Xor(crc[8..] + Zeros(8), table[index]);
    }
    r := Not(crc);
  }

  lemma {:induction false} ToNatBound(s: Bits)
    ensures ToNat(s) < Power2(|s|)
  {
    if s != [] {
      ToNatBound(s[1..]);
    }
  }

  lemma {:induction false} ToBitsOfToNat(s: Bits, k: nat)
    ensures ToBits(ToNat(s), |s| + k) == s + Zeros(k)
  {
    if s == [] {
      ToBitsOfZero(k);
    } else {
      ToBitsOfToNat(s[1..], k);
      assert s + Zeros(k) == [s[0]] + (s[1..] + Zeros(k));
    }
  }

  lemma {:induction false} ToBitsOfZero(k: nat)
    ensures ToBits(0, k) == Zeros(k)
  {
    if k > 0 {
      ToBitsOfZero(k - 1);
    }
  }

  // ---------- linearity, and the table step as eight bit steps ----------

  lemma ShiftOutLinear(x: Word32, y: Word32)
    ensures ShiftOut(Xor(x, y)) == Xor(ShiftOut(x), ShiftOut(y))
  {
    assert ShiftRight(Xor(x, y)) == Xor(ShiftRight(x), ShiftRight(y));
  }

  lemma {:induction false} ShiftTimesLinear(x: Word32, y: Word32, n: nat)
    ensures ShiftTimes(Xor(x, y), n) == Xor(ShiftTimes(x, n), ShiftTimes(y, n))
    decreases n
  {
    if n > 0 {
      ShiftOutLinear(x, y);
      ShiftTimesLinear(ShiftOut(x), ShiftOut(y), n - 1);
    }
  }

  /** As long as zeros come out of the low end, nothing is fed back. */
  lemma {:induction false} CleanShifts(w: Word32, n: nat)
    requires n <= 32 && w[..n] == Zeros(n)
    ensures ShiftTimes(w, n) == w[n..] + Zeros(n)
    decreases n
  {
    if n > 0 {
      assert !w[0] by { assert w[..n][0] == Zeros(n)[0]; }
      var v := ShiftRight(w);
      assert v[..n - 1] == Zeros(n - 1) by {
        forall i | 0 <= i < n - 1 ensures !v[i] { assert v[i] == w[..n][i + 1]; }
      }
      CleanShifts(v, n - 1);
    }
  }

  lemma TableStep(crc: Word32, b: byte)
    ensures var low := Xor(crc, ToBits(b, 32))[..8];
            Xor(crc[8..] + Zeros(8), ShiftTimes(ToBits(ToNat(low), 32), 8)) == FeedByte(crc, b)
  {
    hide POLY, ShiftTimes, ToNat, ToBits;
    var x := Xor(crc, ToBits(b, 32));
    var low: Word32, high: Word32 := x[..8] + Zeros(24), Zeros(8) + x[8..];
    assert x == Xor(high, low);
    ToBitsOfToNat(x[..8], 24);
    ShiftTimesLinear(high, low, 8);
    assert high[..8] == Zeros(8);
    CleanShifts(high, 8);
    assert high[8..] == x[8..];
    ByteIsEightBits(b);
    assert x[8..] == crc[8..];
  }

  lemma ByteIsEightBits(b: byte)
    ensures ToBits(b, 32) == ToBits(b, 8) + Zeros(24)
  {
    ToBitsOfSmall(b, 8, 24);
  }

  lemma {:induction false} ToBitsOfSmall(n: nat, j: nat, k: nat)
    requires n < Power2(j)
    ensures ToBits(n, j + k) == ToBits(n, j) + Zeros(k)
    decreases j
  {
    if j == 0 {
      ToBitsOfZero(k);
    } else {
      ToBitsOfSmall(n / 2, j - 1, k);
    }
  }
}
