/** Variable-length numbers: seven bits in a byte, lowest first, the high bit set on all but the last. */
module VarNum {
  import opened Bytes

  function EncodeNum(n: nat): (s: seq<byte>)
    ensures s != []
  {
    if n < 0x80 then [n] else [0x80 + n % 0x80] + EncodeNum(n / 0x80)
  }

  /** For an unsigned type of any width; the buffer has to hold the bytes. */
  method VarLenEncodeNum(buff: array<byte>, num: nat) returns (cnt: nat)
    requires |EncodeNum(num)| <= buff.Length
    modifies buff
    ensures cnt == |EncodeNum(num)| && buff[..cnt] == EncodeNum(num)
    ensures forall i :: cnt <= i < buff.Length ==> buff[i] == old(buff[i])
  {
    hide EncodeNum, Left;
    EncodeOnce(num);
    if num == 0 {
      buff[0] := 0;
      return 1;
    }
    cnt := 0;
    var n := num;
    LeftOf(n);
    while n != 0
      invariant cnt <= buff.Length
      invariant buff[..cnt] + Left(n) == EncodeNum(num)
      invariant forall i :: cnt <= i < buff.Length ==> buff[i] == old(buff[i])
      decreases n
    {
      ghost var before := buff[..cnt];
      LeftOnce(n, before);
      var nextByte: byte := n % 0x80;
      n := n / 0x80;
      if n != 0 {
        nextByte := nextByte + 0x80;
      }
      buff[cnt] := nextByte;
      cnt := cnt + 1;
      assert buff[..cnt] == before + [nextByte];
    }
    LeftOf(0);
    assert buff[..cnt] + [] == buff[..cnt];
  }

  /** What the loop still has to write. */
  ghost function Left(n: nat): seq<byte> {
    if n == 0 then [] else EncodeNum(n)
  }

  lemma LeftOf(n: nat)
    ensures Left(n) == if n == 0 then [] else EncodeNum(n)
    ensures [] + Left(n) == Left(n)
  {
  }

  lemma LeftOnce(n: nat, before: seq<byte>)
    requires n != 0
    ensures before + Left(n) == before + [n % 0x80 + if n / 0x80 == 0 then 0 else 0x80] + Left(n / 0x80)
    ensures |before| < |before + Left(n)|
  {
    EncodeOnce(n);
    ConcatAssoc(before, [n % 0x80 + if n / 0x80 == 0 then 0 else 0x80], Left(n / 0x80));
  }

  lemma EncodeOnce(n: nat)
    ensures EncodeNum(n) == if n / 0x80 == 0 then [n] else [n % 0x80 + 0x80] + EncodeNum(n / 0x80)
    ensures n / 0x80 == 0 ==> n % 0x80 == n
  {
  }

  // ---------- decoding into 32 bits ----------

  /** `TooFar`: a sixth byte would be shifted by 35 bits, which means nothing for 32. */
  datatype Num = Num(value: dword, used: nat) | OutOfBuffer | TooFar

  /** The number some bytes stand for, whatever its size. */
  function Horner(b: seq<byte>): nat {
    if b == [] then 0 else b[0] % 0x80 + 0x80 * Horner(b[1..])
  }

  /** How many bytes make up the number, if its last byte is there. */
  function Extent(b: seq<byte>): (r: Option<nat>)
    ensures r.Some? ==> 0 < r.value <= |b| && b[r.value - 1] < 0x80
    ensures r.Some? ==> forall i :: 0 <= i < r.value - 1 ==> b[i] >= 0x80
  {
    if b == [] then None
    else if b[0] < 0x80 then Some(1)
    else
      match Extent(b[1..])
      case None => None
      case Some(n) => Some(n + 1)
  }

  function DecodeNum(b: seq<byte>): Num {
    match Extent(b)
    case Some(n) => if n <= 5 then Num(Horner(b[..n]) % TWO_32, n) else TooFar
    case None => if |b| < 5 then OutOfBuffer else TooFar
  }

  function Scale(k: nat): nat {
    if k == 0 then 1 else 0x80 * Scale(k - 1)
  }

  /**
    The bits that are or-ed into the result lie above those that are there, so they are added; what is
    shifted out of the 32 bits is lost.
   */
  method VarLenDecodeNum(b: seq<byte>) returns (r: Num)
    ensures r == DecodeNum(b)
  {
    hide Horner, Extent, Scale;
    HornerNothing();
    if b != [] && b[0] == 0 {
      ExtentIs(b, 1);
      HornerSnoc([], b[0]);
      assert [] + [b[0]] == b[..1];
      return Num(0, 1);
    }
    assert b[..0] == [];
    var res: dword := 0;
    var resCnt := 0;
    while true
      invariant resCnt <= |b| && resCnt <= 5 && res == Horner(b[..resCnt]) % TWO_32
      invariant forall i :: 0 <= i < resCnt ==> b[i] >= 0x80
      decreases |b| - resCnt
    {
      ExtentPast(b, resCnt);
      if resCnt == 5 {
        return TooFar;
      }
      if resCnt >= |b| {
        return OutOfBuffer;
      }
      var nextBits: nat := b[resCnt] % 0x80;
      NextSeven(b, resCnt, res);
      res := (res + nextBits * Scale(resCnt)) % TWO_32;
      resCnt := resCnt + 1;
      if b[resCnt - 1] < 0x80 {
        break;
      }
    }
    ExtentIs(b, resCnt);
    return Num(res, resCnt);
  }

  lemma NextSeven(b: seq<byte>, n: nat, res: dword)
    requires n < |b| && res == Horner(b[..n]) % TWO_32
    ensures (res + b[n] % 0x80 * Scale(n)) % TWO_32 == Horner(b[..n + 1]) % TWO_32
  {
    hide Horner, Scale;
    HornerSnoc(b[..n], b[n]);
    assert b[..n] + [b[n]] == b[..n + 1];
    AddModulo(Horner(b[..n]), b[n] % 0x80 * Scale(n));
  }

  lemma HornerNothing()
    ensures Horner([]) == 0
  {
  }

  lemma AddModulo(a: nat, c: nat)
    ensures (a % TWO_32 + c) % TWO_32 == (a + c) % TWO_32
  {
  }

  lemma {:induction false} HornerSnoc(p: seq<byte>, x: byte)
    ensures Horner(p + [x]) == Horner(p) + x % 0x80 * Scale(|p|)
  {
    if p == [] {
      assert p + [x] == [x];
    } else {
      assert (p + [x])[1..] == p[1..] + [x];
      HornerSnoc(p[1..], x);
      ScaleOut(x % 0x80, Scale(|p| - 1));
    }
  }

  lemma ScaleOut(x: nat, s: nat)
    ensures 0x80 * (x * s) == x * (0x80 * s)
  {
  }

  /** The last byte is not among bytes whose high bit is set. */
  lemma {:induction false} ExtentPast(b: seq<byte>, n: nat)
    requires n <= |b| && forall i :: 0 <= i < n ==> b[i] >= 0x80
    ensures Extent(b).Some? ==> Extent(b).value > n
  {
    if n > 0 {
      ExtentPast(b[1..], n - 1);
    }
  }

  lemma {:induction false} ExtentIs(b: seq<byte>, n: nat)
    requires 0 < n <= |b| && b[n - 1] < 0x80 && forall i :: 0 <= i < n - 1 ==> b[i] >= 0x80
    ensures Extent(b) == Some(n)
  {
    if n > 1 {
      ExtentIs(b[1..], n - 1);
    }
  }

  /** b has bytes whose high bit is set, n of them, in front. */
  ghost predicate Run(b: seq<byte>, n: nat) {
    n <= |b| && forall i :: 0 <= i < n ==> b[i] >= 0x80
  }

  /** For all bytes: a number of one to five of them is read, and what the other outcomes mean. */
  lemma DecodedIff(b: seq<byte>, n: nat)
    ensures (DecodeNum(b).Num? && DecodeNum(b).used == n)
       <==> 1 <= n <= 5 && Run(b, n - 1) && n <= |b| && b[n - 1] < 0x80
    ensures DecodeNum(b).TooFar? <==> Run(b, 5)
    ensures DecodeNum(b).OutOfBuffer? <==> |b| < 5 && Run(b, |b|)
  {
    var e := Extent(b);
    if 1 <= n <= 5 && n <= |b| && Run(b, n - 1) && b[n - 1] < 0x80 {
      ExtentIs(b, n);
    }
    if Run(b, 5) {
      ExtentPast(b, 5);
    }
    if Run(b, |b|) {
      ExtentPast(b, |b|);
    }
    if e.None? {
      NoExtent(b);
    }
  }

  lemma {:induction false} NoExtent(b: seq<byte>)
    requires Extent(b).None?
    ensures Run(b, |b|)
  {
    if b != [] {
      NoExtent(b[1..]);
      assert forall i :: 0 < i < |b| ==> b[i] == b[1..][i - 1];
    }
  }

  // ---------- round trip ----------

  lemma {:induction false} EncodedExtent(n: nat, rest: seq<byte>)
    ensures Extent(EncodeNum(n) + rest) == Some(|EncodeNum(n)|)
    ensures Horner(EncodeNum(n)) == n
  {
    if n >= 0x80 {
      EncodedExtent(n / 0x80, rest);
      InFront(0x80 + n % 0x80, EncodeNum(n / 0x80), rest);
    }
  }

  lemma InFront(b: byte, e: seq<byte>, rest: seq<byte>)
    requires b >= 0x80 && Extent(e + rest) == Some(|e|)
    ensures Extent([b] + e + rest) == Some(1 + |e|)
    ensures Horner([b] + e) == b % 0x80 + 0x80 * Horner(e)
  {
    assert ([b] + e + rest)[1..] == e + rest && ([b] + e)[1..] == e;
  }

  lemma EncodedLength(n: nat)
    ensures |EncodeNum(n)| <= 5 <==> n < 0x8_0000_0000
  {
    var a, b, c, d := n / 0x80, n / 0x4000, n / 0x20_0000, n / 0x1000_0000;
    assert a / 0x80 == b && b / 0x80 == c && c / 0x80 == d;
    Longer(n);
    Longer(a);
    Longer(b);
    Longer(c);
    Longer(d);
  }

  lemma Longer(n: nat)
    ensures |EncodeNum(n)| == if n < 0x80 then 1 else 1 + |EncodeNum(n / 0x80)|
  {
  }

  /** A number comes back, whatever follows it, exactly when it has at most 32 bits. */
  lemma NumRoundTrip(n: nat, rest: seq<byte>)
    ensures (var r := DecodeNum(EncodeNum(n) + rest);
             r.Num? && r.value as nat == n && r.used == |EncodeNum(n)|) <==> n < TWO_32
  {
    hide EncodeNum, Horner, Extent;
    EncodedExtent(n, rest);
    EncodedLength(n);
    assert (EncodeNum(n) + rest)[..|EncodeNum(n)|] == EncodeNum(n);
  }

  /**
    Encoding a number that was decoded gives the bytes it was decoded from exactly when those do not end
    in a needless zero and no bit was lost.
   */
  lemma ReencodesIff(b: seq<byte>)
    requires DecodeNum(b).Num?
    ensures var r := DecodeNum(b);
            EncodeNum(r.value) == b[..r.used]
            <==> (r.used == 1 || b[r.used - 1] != 0) && Horner(b[..r.used]) < TWO_32
  {
    hide EncodeNum, Horner;
    var r := DecodeNum(b);
    var s := b[..r.used];
    EncodedExtent(r.value, []);
    Canonical(s);
    assert Horner(s) < TWO_32 ==> r.value as nat == Horner(s);
  }

  lemma {:induction false} Canonical(s: seq<byte>)
    requires s != [] && s[|s| - 1] < 0x80 && forall i :: 0 <= i < |s| - 1 ==> s[i] >= 0x80
    ensures EncodeNum(Horner(s)) == s <==> |s| == 1 || s[|s| - 1] != 0
    ensures |s| > 1 && s[|s| - 1] != 0 ==> Horner(s) >= 0x80
    ensures s[|s| - 1] != 0 ==> Horner(s) > 0
  {
    if |s| > 1 {
      var t := s[1..];
      Canonical(t);
      var h := Horner(t);
      assert Horner(s) % 0x80 == s[0] % 0x80 && Horner(s) / 0x80 == h;
      EncodeOnce(Horner(s));
      assert s == [s[0]] + t;
    }
  }
}
