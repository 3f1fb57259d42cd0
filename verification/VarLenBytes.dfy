/**
  The self-delimiting byte code: a zero byte escapes, zero-zero stands for a zero, zero-one ends. The
  decoder takes any byte but one after an escape for itself.
 */
module VarLenBytes {
  import opened Bytes

  const ESCAPE: byte := 0
  const DELIMITER: byte := 1

  function Encode(s: seq<byte>): seq<byte> {
    if s == [] then [ESCAPE, DELIMITER]
    else (if s[0] == ESCAPE then [ESCAPE, ESCAPE] else [s[0]]) + Encode(s[1..])
  }

  function Zeros(s: seq<byte>): nat {
    if s == [] then 0 else (if s[0] == ESCAPE then 1 else 0) + Zeros(s[1..])
  }

  /** What a reader made of the front of a buffer, or why it made nothing of it. */
  datatype Parse<+T> = Parsed(value: T, used: nat) | OutOfBuffer | Thrown {
    predicate IsFailure() { !Parsed? }
    function PropagateFailure<U>(): Parse<U> requires !Parsed? { if Thrown? then Thrown else OutOfBuffer }
    function Extract(): (T, nat) requires Parsed? { (value, used) }
  }

  function Decode(b: seq<byte>): (r: Parse<seq<byte>>)
    ensures r.Parsed? ==> r.used <= |b|
    ensures !r.Thrown?
  {
    if |b| == 0 then OutOfBuffer
    else if b[0] == ESCAPE then
      if |b| == 1 then OutOfBuffer
      else if b[1] == DELIMITER then Parsed([], 2)
      else
        var (rest, used) :- Decode(b[2..]);
        Parsed([b[1]] + rest, 2 + used)
    else
      var (rest, used) :- Decode(b[1..]);
      Parsed([b[0]] + rest, 1 + used)
  }

  // ---------- the loops ----------

  method EncodeBytes(dest: array<byte>, at: nat, src: seq<byte>) returns (cnt: nat)
    requires at + |Encode(src)| <= dest.Length
    modifies dest
    ensures cnt == |Encode(src)|
    ensures dest[..at + cnt] == old(dest[..at]) + Encode(src)
    ensures forall i :: at + cnt <= i < dest.Length ==> dest[i] == old(dest[i])
  {
    var curr, total := at, 0;
    ghost var before, all := dest[..at], Encode(src);
    for k := 0 to |src|
      invariant curr == at + total && total + |Encode(src[k..])| == |all|
      invariant dest[..curr] + Encode(src[k..]) == before + all
      invariant forall i :: at + |all| <= i < dest.Length ==> dest[i] == old(dest[i])
    {
      EncodeStep(src, k);
      ghost var done, rest := dest[..curr], Encode(src[k + 1..]);
      if src[k] == ESCAPE {
        CopyInto(dest, curr, [ESCAPE, src[k]]);
        curr, total := curr + 2, total + 2;
        ConcatAssoc(done, [ESCAPE, ESCAPE], rest);
      } else {
        CopyInto(dest, curr, [src[k]]);
        curr, total := curr + 1, total + 1;
        ConcatAssoc(done, [src[k]], rest);
      }
    }
    CopyInto(dest, curr, [ESCAPE, DELIMITER]);
    cnt := total + 2;
  }

  lemma EncodeStep(src: seq<byte>, k: nat)
    requires k < |src|
    ensures Encode(src[k..]) == (if src[k] == ESCAPE then [ESCAPE, ESCAPE] else [src[k]]) + Encode(src[k + 1..])
  {
    assert src[k..][1..] == src[k + 1..];
  }

  /** Reading on past the end of the buffer is what `OutOfBuffer` stands for. */
  method DecodeBytes(src: seq<byte>, at: nat) returns (r: Parse<seq<byte>>)
    requires at <= |src|
    ensures r == Decode(src[at..])
  {
    var data, total, next := [], 0, at;
    PrependNothing(Decode(src[at..]));
    while true
      invariant next == at + total <= |src|
      invariant Prepend(data, total, Decode(src[next..])) == Decode(src[at..])
      decreases |src| - next
    {
      ghost var from := next;
      if next >= |src| {
        assert src[next..] == [];
        return OutOfBuffer;
      }
      if src[next] == ESCAPE {
        next, total := next + 1, total + 1;
        if next >= |src| {
          assert Decode(src[from..]) == OutOfBuffer;
          return OutOfBuffer;
        }
        if src[next] == DELIMITER {
          assert Decode(src[from..]) == Parsed([], 2) && data + [] == data;
          return Parsed(data, total + 1);
        }
        assert src[from..][2..] == src[next + 1..];
        PrependByte(data, total - 1, src[next], 2, Decode(src[next + 1..]));
      } else {
        assert src[from..][1..] == src[next + 1..];
        PrependByte(data, total, src[next], 1, Decode(src[next + 1..]));
      }
      data := data + [src[next]];
      next, total := next + 1, total + 1;
    }
  }

  ghost function Prepend(data: seq<byte>, total: nat, r: Parse<seq<byte>>): Parse<seq<byte>> {
    if r.Parsed? then Parsed(data + r.value, total + r.used) else r
  }

  lemma PrependNothing(r: Parse<seq<byte>>)
    requires !r.Thrown?
    ensures Prepend([], 0, r) == r
  {
    if r.Parsed? {
      assert [] + r.value == r.value;
    }
  }

  lemma PrependByte(data: seq<byte>, total: nat, x: byte, taken: nat, r: Parse<seq<byte>>)
    ensures Prepend(data, total, Prepend([x], taken, r)) == Prepend(data + [x], total + taken, r)
  {
    if r.Parsed? {
      assert data + ([x] + r.value) == data + [x] + r.value;
    }
  }

  // ---------- self-delimiting, prefix-free ----------

  lemma {:induction false} RoundTrip(s: seq<byte>, rest: seq<byte>)
    ensures Decode(Encode(s) + rest) == Parsed(s, |Encode(s)|)
    ensures |Encode(s)| == |s| + Zeros(s) + 2
  {
    var b := Encode(s) + rest;
    if s != [] {
      RoundTrip(s[1..], rest);
      assert s == [s[0]] + s[1..];
      if s[0] == ESCAPE {
        assert b[2..] == Encode(s[1..]) + rest;
      } else {
        assert b[1..] == Encode(s[1..]) + rest;
      }
    }
  }

  lemma PrefixFree(s: seq<byte>, t: seq<byte>, x: seq<byte>, y: seq<byte>)
    ensures Encode(s) + x == Encode(t) + y <==> s == t && x == y
  {
    RoundTrip(s, x);
    RoundTrip(t, y);
    if Encode(s) + x == Encode(t) + y {
      assert x == (Encode(s) + x)[|Encode(s)|..];
      assert y == (Encode(t) + y)[|Encode(t)|..];
    }
  }

  lemma {:induction false} EncodingEnds(s: seq<byte>)
    ensures |Encode(s)| >= 2 && Encode(s)[|Encode(s)| - 2..] == [0, 1]
  {
    if s != [] {
      EncodingEnds(s[1..]);
    }
  }

  lemma {:induction false} ZeroFreeIsItself(s: seq<byte>)
    requires 0 !in s
    ensures Encode(s) == s + [0, 1]
  {
    if s != [] {
      ZeroFreeIsItself(s[1..]);
      assert s[0] in s && s == [s[0]] + s[1..];
    }
  }

  /** Bytes before and behind are coded each for itself: with the lemma above, 0, 0 stands for each zero. */
  lemma {:induction false} ZeroIsDoubled(s: seq<byte>, t: seq<byte>)
    ensures |Encode(s)| >= 2 && Encode(s + [0] + t) == Encode(s)[..|Encode(s)| - 2] + [0, 0] + Encode(t)
  {
    hide Encode;
    EncodingEnds(s);
    if s == [] {
      EncodeCons(0, t);
      EncodeNothing();
      assert s + [0] + t == [0] + t;
    } else {
      var x, rest := s[0], s[1..];
      EncodingEnds(rest);
      ZeroIsDoubled(rest, t);
      assert s == [x] + rest;
      assert s + [0] + t == [x] + (rest + [0] + t);
      EncodeCons(x, rest + [0] + t);
      EncodeCons(x, rest);
      CutBehind(if x == ESCAPE then [ESCAPE, ESCAPE] else [x], Encode(rest), Encode(t));
    }
  }

  lemma EncodeNothing()
    ensures Encode([]) == [0, 1]
  {
  }

  lemma CutBehind(front: seq<byte>, e: seq<byte>, t: seq<byte>)
    requires |e| >= 2
    ensures front + (e[..|e| - 2] + [0, 0] + t) == (front + e)[..|front + e| - 2] + [0, 0] + t
  {
  }

  /** An escape in front of a byte that needs none is read, and changes nothing but the length. */
  lemma NeedlessEscape(x: byte, b: seq<byte>)
    requires x >= 2
    ensures Decode([0, x] + b) == match Decode([x] + b)
                                  case Parsed(value, used) => Parsed(value, used + 1)
                                  case _ => OutOfBuffer
  {
    assert ([0, x] + b)[2..] == b && ([x] + b)[1..] == b;
  }

  /** Decoding and encoding again never takes more room, and gives the same bytes when it takes as much. */
  lemma {:induction false} ReencodeNeverGrows(b: seq<byte>)
    requires Decode(b).Parsed?
    ensures |Encode(Decode(b).value)| <= Decode(b).used
    ensures |Encode(Decode(b).value)| == Decode(b).used <==> Encode(Decode(b).value) == b[..Decode(b).used]
  {
    if b[0] == ESCAPE {
      if b[1] != DELIMITER {
        ReencodeNeverGrows(b[2..]);
        EncodeCons(b[1], Decode(b[2..]).value);
        assert b[..Decode(b).used] == [b[0], b[1]] + b[2..][..Decode(b[2..]).used];
      }
    } else {
      ReencodeNeverGrows(b[1..]);
      EncodeCons(b[0], Decode(b[1..]).value);
      assert b[..Decode(b).used] == [b[0]] + b[1..][..Decode(b[1..]).used];
    }
  }

  lemma EncodeCons(x: byte, s: seq<byte>)
    ensures Encode([x] + s) == (if x == ESCAPE then [ESCAPE, ESCAPE] else [x]) + Encode(s)
  {
    assert ([x] + s)[1..] == s;
  }
}
