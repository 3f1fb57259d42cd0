/**
  The Internet checksum: the source adds native little-endian words into 32 bits, folds twice and
  complements. RFC 1071 defines it as the complement of an end-around-carry sum of big-endian words.
 */
module InternetChecksum {
  import opened Bytes

  /** The unbounded sum of the native words; an odd last byte is read as the low half of a word. */
  function WordSum(s: seq<byte>): nat {
    if |s| == 0 then 0
    else if |s| == 1 then s[0]
    else Load16(s, 0) + WordSum(s[2..])
  }

  /** One's complement addition: the carry out of bit 15 goes back into bit 0. */
  function OcAdd(a: word, b: word): word {
    if a + b < 0x1_0000 then a + b else a + b - 0xFFFF
  }

  /** RFC 1071, section 1: octets paired big-endian, an odd one padded with a zero on its right. */
  function OcSum(s: seq<byte>): word {
    if |s| == 0 then 0
    else if |s| == 1 then s[0] as int * 0x100
    else OcAdd(s[0] as int * 0x100 + s[1] as int, OcSum(s[2..]))
  }

  function RfcChecksum(s: seq<byte>): word {
    0xFFFF - OcSum(s)
  }

  /** End-around carries carried to the end: congruent to n modulo 65535, and 0 only for 0. */
  function Folded(n: nat): word {
    if n < 0x1_0000 then n else Folded(n - 0xFFFF)
  }

  /** What the source returns: its accumulator is a `uint32_t`, so the sum is taken modulo 2^32. */
  function Checksum(s: seq<byte>): word {
    0xFFFF - Folded(WordSum(s) % TWO_32)
  }

  method Compute(buf: seq<byte>, noBytes: nat) returns (r: word)
    requires noBytes <= |buf|
    ensures r == Checksum(buf[..noBytes])
  {
    hide WordSum, Folded, Load16;
    var s := buf[..noBytes];
    var len := noBytes;
    assert s[0..] == s;
    var current := 0;
    var sum: dword := 0;
    while len > 1
      invariant 0 <= len && current + len == noBytes
      invariant (sum + WordSum(s[current..])) % TWO_32 == WordSum(s) % TWO_32
    {
      NextWord(sum, s, current);
      SameLoad(buf, noBytes, current);
      sum := (sum + Load16(buf, current)) % TWO_32;
      current := current + 2;
      len := len - 2;
    }
    LastWord(s, current);
    if len != 0 {
      sum := (sum + buf[current]) % TWO_32;
    }
    assert sum == WordSum(s) % TWO_32;
    r := FoldTwice(sum);
  }

  /** The two folds, and the complement cut to 16 bits. */
  method FoldTwice(total: dword) returns (r: word)
    ensures r == 0xFFFF - Folded(total)
  {
    hide Folded;
    TwoFoldsSuffice(total);
    var sum: dword := total / 0x1_0000 + total % 0x1_0000;
    sum := sum + sum / 0x1_0000;
    r := (TWO_32 - 1 - sum) % 0x1_0000;
  }

  lemma LastWord(s: seq<byte>, current: nat)
    requires current <= |s| <= current + 1
    ensures WordSum(s[current..]) == if current == |s| then 0 else s[current]
  {
  }

  lemma SameLoad(buf: seq<byte>, noBytes: nat, current: nat)
    requires current + 2 <= noBytes <= |buf|
    ensures Load16(buf[..noBytes], current) == Load16(buf, current)
  {
  }

  lemma NextWord(sum: dword, s: seq<byte>, current: nat)
    requires current + 1 < |s|
    ensures ((sum + Load16(s, current)) % TWO_32 + WordSum(s[current + 2..])) % TWO_32
         == (sum + WordSum(s[current..])) % TWO_32
  {
    assert s[current..][2..] == s[current + 2..];
    AddModulo(sum, Load16(s, current), WordSum(s[current + 2..]));
  }

  lemma AddModulo(a: nat, b: nat, c: nat)
    ensures ((a + b) % TWO_32 + c) % TWO_32 == (a + (b + c)) % TWO_32
  {
  }

  /** Any 32-bit sum is brought into 16 bits by two folds, and the truncation loses nothing more. */
  lemma TwoFoldsSuffice(sum: dword)
    ensures var once := sum / 0x1_0000 + sum % 0x1_0000;
            var twice := once + once / 0x1_0000;
            twice < 0x2_0000 && twice % 0x1_0000 == Folded(sum)
            && (TWO_32 - 1 - twice) % 0x1_0000 == 0xFFFF - Folded(sum)
  {
    hide Folded;
    FoldOnce(sum);
    var once := sum / 0x1_0000 + sum % 0x1_0000;
    FoldedUnique(sum, sum / 0x1_0000, once);
    if once < 0x1_0000 {
      FoldedSmall(once);
      Complement(once, once, 0);
    } else {
      FoldedUnique(once, 1, once - 0xFFFF);
      FoldedSmall(once - 0xFFFF);
      Complement(once + 1, once - 0xFFFF, 1);
    }
  }

  lemma FoldOnce(sum: dword)
    ensures var once := sum / 0x1_0000 + sum % 0x1_0000;
            sum == once + 0xFFFF * (sum / 0x1_0000) && once <= 0x1_FFFE && (sum == 0 <==> once == 0)
            && once / 0x1_0000 == if once < 0x1_0000 then 0 else 1
  {
  }

  lemma FoldedSmall(n: word)
    ensures Folded(n) == n
  {
  }

  lemma Complement(twice: nat, f: word, carry: nat)
    requires twice == f + 0x1_0000 * carry && carry <= 1
    ensures twice % 0x1_0000 == f && (TWO_32 - 1 - twice) % 0x1_0000 == 0xFFFF - f
  {
  }

  lemma {:induction false} FoldedUnique(n: nat, q: nat, m: nat)
    requires n == m + 0xFFFF * q && (n == 0 <==> m == 0)
    ensures Folded(n) == Folded(m)
  {
    if q > 0 {
      FoldedUnique(n - 0xFFFF, q - 1, m);
    }
  }

  lemma {:induction false} FoldedQuotient(n: nat) returns (q: nat)
    ensures n == Folded(n) + 0xFFFF * q && (n == 0 <==> Folded(n) == 0)
  {
    if n < 0x1_0000 {
      q := 0;
    } else {
      q := FoldedQuotient(n - 0xFFFF);
      q := q + 1;
    }
  }

  // ---------- agreement with RFC 1071 ----------

  lemma {:induction false} OcSumIsSwappedFold(s: seq<byte>)
    ensures OcSum(s) == SwapBytes(Folded(WordSum(s)))
  {
    if |s| == 1 {
      SwapBytesParts(s[0], 0);
      assert Folded(s[0]) == s[0];
    } else if |s| >= 2 {
      OcSumIsSwappedFold(s[2..]);
      SwapBytesParts(s[0], s[1]);
      var w, rest := Load16(s, 0), WordSum(s[2..]);
      FoldedAdds(w, rest);
      SwapBytesDistributes(w, Folded(rest));
    }
  }

  lemma FoldedAdds(w: word, n: nat)
    ensures Folded(w + n) == OcAdd(w, Folded(n))
  {
    var f := Folded(n);
    var q := FoldedQuotient(n);
    FoldedUnique(w + n, q, w + f);
  }

  lemma SwapBytesParts(lo: byte, hi: byte)
    ensures SwapBytes(lo + 0x100 * hi) == hi + 0x100 * lo
  {
    assert (lo + 0x100 * hi) % 0x100 == lo && (lo + 0x100 * hi) / 0x100 == hi;
  }

  /** The end-around carry makes addition blind to which byte is the high one. */
  lemma SwapBytesDistributes(a: word, b: word)
    ensures SwapBytes(OcAdd(a, b)) == OcAdd(SwapBytes(a), SwapBytes(b))
  {
    var al: byte, ah: byte, bl: byte, bh: byte := a % 0x100, a / 0x100, b % 0x100, b / 0x100;
    SwapBytesParts(al, ah);
    SwapBytesParts(bl, bh);
    OcAddParts(al, ah, bl, bh);
    OcAddParts(ah, al, bh, bl);
    var lo, hi := OcParts(al, ah, bl, bh).0, OcParts(al, ah, bl, bh).1;
    SwapBytesParts(lo, hi);
  }

  /** The two result bytes of a one's complement addition, carries chased around the end. */
  function OcParts(al: byte, ah: byte, bl: byte, bh: byte): (byte, byte) {
    if al + bl < 0x100 then
      if ah + bh < 0x100 then (al + bl, ah + bh)
      else if al + bl < 0xFF then (al + bl + 1, ah + bh - 0x100)
      else (0, ah + bh - 0xFF)
    else
      if ah + bh < 0xFF then (al + bl - 0x100, ah + bh + 1)
      else (al + bl - 0xFF, ah + bh - 0xFF)
  }

  lemma OcAddParts(al: byte, ah: byte, bl: byte, bh: byte)
    ensures OcAdd(al + 0x100 * ah, bl + 0x100 * bh)
         == OcParts(al, ah, bl, bh).0 + 0x100 * OcParts(al, ah, bl, bh).1
    ensures OcParts(ah, al, bh, bl) == (OcParts(al, ah, bl, bh).1, OcParts(al, ah, bl, bh).0)
  {
  }

  /**
    Byte order independence (RFC 1071, section 2(B)): storing the source's result natively puts the
    RFC's checksum on the wire in network order. This is so exactly when the accumulator never
    wrapped; `no_bytes` is an `int`.
   */
  lemma ChecksumOnTheWire(s: seq<byte>)
    requires |s| < 0x8000_0000
    ensures Store16(Checksum(s)) == Be16(RfcChecksum(s)) <==> WordSum(s) < TWO_32
  {
    var f := Folded(WordSum(s));
    assert RfcChecksum(s) == 0xFFFF - SwapBytes(f) by { OcSumIsSwappedFold(s); }
    assert Checksum(s) == 0xFFFF - f <==> WordSum(s) < TWO_32 by {
      WordSumBound(s);
      WrapIsVisible(WordSum(s));
    }
    SameOnTheWire(Checksum(s), RfcChecksum(s), f);
  }

  lemma StoredComplement(f: word)
    ensures Store16(0xFFFF - f) == Be16(0xFFFF - SwapBytes(f))
  {
    hide SwapBytes;
    var lo: byte, hi: byte := f % 0x100, f / 0x100;
    SwapBytesParts(lo, hi);
    Parts(0xFF - lo, 0xFF - hi);
    Parts(0xFF - hi, 0xFF - lo);
  }

  lemma Parts(lo: byte, hi: byte)
    ensures Store16(lo + 0x100 * hi) == [lo, hi] && Be16(lo + 0x100 * hi) == [hi, lo]
  {
  }

  lemma SameOnTheWire(c: word, rfc: word, f: word)
    requires rfc == 0xFFFF - SwapBytes(f)
    ensures Store16(c) == Be16(rfc) <==> c == 0xFFFF - f
  {
    StoredComplement(f);
    assert Load16(Store16(c), 0) == c;
    assert Load16(Store16(0xFFFF - f), 0) == 0xFFFF - f;
  }

  lemma WrapIsVisible(total: nat)
    requires total <= 0x4000_0000 * 0xFFFF
    ensures Folded(total) == Folded(total % TWO_32) <==> total < TWO_32
  {
    if total >= TWO_32 {
      var k, low := total / TWO_32, total % TWO_32;
      assert total == low + k + 0xFFFF * (k * 0x1_0001) && 0 < k < 0xFFFF;
      FoldedUnique(total, k * 0x1_0001, low + k);
      FoldedMoves(low, k);
    }
  }

  lemma FoldedMoves(n: nat, k: nat)
    requires 0 < k < 0xFFFF
    ensures Folded(n + k) != Folded(n)
  {
    var q := FoldedQuotient(n);
    FoldedUnique(n + k, q, Folded(n) + k);
  }

  lemma {:induction false} WordSumBound(s: seq<byte>)
    ensures 2 * WordSum(s) <= (|s| + |s| % 2) * 0xFFFF
  {
    if |s| >= 2 {
      WordSumBound(s[2..]);
    }
  }

  lemma NoOverflowUpTo131074(s: seq<byte>)
    requires |s| <= 131074
    ensures WordSum(s) < TWO_32
  {
    WordSumBound(s);
  }

  /** 131074 bytes is the longest that the 32-bit accumulator never wraps. */
  lemma NoOverflowIffUpTo131074(n: nat)
    ensures (forall s: seq<byte> :: |s| == n ==> WordSum(s) < TWO_32) <==> n <= 131074
  {
    if n <= 131074 {
      forall s: seq<byte> | |s| == n
        ensures WordSum(s) < TWO_32
      {
        NoOverflowUpTo131074(s);
      }
    } else {
      WordSumOfOnes(n);
      assert |Ones(n)| == n && WordSum(Ones(n)) >= TWO_32;
    }
  }

  function Ones(n: nat): (s: seq<byte>)
    ensures |s| == n
  {
    seq(n, _ => 0xFF)
  }

  lemma {:induction false} WordSumOfOnes(n: nat)
    ensures WordSum(Ones(n)) == n / 2 * 0xFFFF + n % 2 * 0xFF
    decreases n
  {
    if n >= 2 {
      WordSumOfOnes(n - 2);
      assert Ones(n)[2..] == Ones(n - 2);
    }
  }

  /**
    The checksum completes what the accumulator holds to a multiple of 65535 that still fits it, and is
    65535 only where the accumulator is zero, which up to 131074 bytes means all zeros.
   */
  lemma ChecksumCompletesSum(s: seq<byte>)
    ensures (WordSum(s) % TWO_32 + Checksum(s)) % 0xFFFF == 0
    ensures WordSum(s) % TWO_32 + Checksum(s) < TWO_32
    ensures Checksum(s) == 0xFFFF <==> WordSum(s) % TWO_32 == 0
    ensures |s| <= 131074 ==> (Checksum(s) == 0xFFFF <==> forall b :: b in s ==> b == 0)
  {
    hide WordSum, Folded;
    var low := WordSum(s) % TWO_32;
    var q := FoldedQuotient(low);
    assert low + Checksum(s) == 0xFFFF * (q + 1);
    if |s| <= 131074 {
      NoOverflowUpTo131074(s);
      ZeroSum(s);
    }
  }

  lemma {:induction false} ZeroSum(s: seq<byte>)
    ensures WordSum(s) == 0 <==> forall b :: b in s ==> b == 0
  {
    if |s| >= 2 {
      ZeroSum(s[2..]);
      assert s[0] in s && s[1] in s && s == [s[0], s[1]] + s[2..];
      assert forall b :: b in s <==> b == s[0] || b == s[1] || b in s[2..];
      assert WordSum(s) == Load16(s, 0) + WordSum(s[2..]);
      assert Load16(s, 0) == 0 <==> s[0] == 0 && s[1] == 0;
    } else if |s| == 1 {
      assert s[0] in s && forall b :: b in s ==> b == s[0];
    }
  }

  // ---------- a stored checksum verifies ----------

  /** The packet with its 16-bit field at the even offset 2k replaced by a natively stored word. */
  function WithWord(s: seq<byte>, k: nat, w: word): (t: seq<byte>)
    requires 2 * k + 2 <= |s|
  {
    s[..2 * k] + Store16(w) + s[2 * k + 2..]
  }

  lemma {:induction false} WordSumWithWord(s: seq<byte>, k: nat, w: word)
    requires 2 * k + 2 <= |s|
    ensures WordSum(WithWord(s, k, w)) == WordSum(s) - Load16(s, 2 * k) + w
  {
    var t := WithWord(s, k, w);
    if k == 0 {
      assert t[2..] == s[2..];
    } else {
      assert t[2..] == WithWord(s[2..], k - 1, w);
      WordSumWithWord(s[2..], k - 1, w);
    }
  }

  /**
    A receiver summing a packet whose zeroed field now holds the checksum gets zero, even where the
    accumulator wraps: adding the checksum does not wrap it once more.
   */
  lemma StoredChecksumVerifies(s: seq<byte>, k: nat)
    requires 2 * k + 2 <= |s| && Load16(s, 2 * k) == 0
    ensures Checksum(WithWord(s, k, Checksum(s))) == 0
  {
    hide WordSum, Folded;
    WordSumWithWord(s, k, Checksum(s));
    ChecksumCompletesSum(s);
    var n, c := WordSum(s), Checksum(s);
    assert (n + c) % TWO_32 == n % TWO_32 + c;
    var q := FoldedQuotient(n % TWO_32);
    FoldedUnique(n % TWO_32 + c, q, 0xFFFF);
    FoldedSmall(0xFFFF);
  }
}
