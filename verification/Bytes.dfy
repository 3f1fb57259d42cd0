/**
  Octets, unsigned machine words and byte order. The host is little-endian, as it has to be for
  the casts in the source to mean what they do: a word stored through a pointer puts its low byte
  first, and `htons` swaps the two bytes.
 */
module Bytes {

  type nibble = x: int | 0 <= x < 0x10
  type byte = x: int | 0 <= x < 0x100
  type word = x: int | 0 <= x < 0x1_0000
  type dword = x: int | 0 <= x < 0x1_0000_0000

  const TWO_32 := 0x1_0000_0000

  function Power2(n: nat): (p: nat)
    ensures p > 0
  {
    if n == 0 then 1 else 2 * Power2(n - 1)
  }

  datatype Option<+T> = None | Some(value: T)

  /** `htons` and `ntohs` on a little-endian host. */
  function SwapBytes(w: word): word {
    w % 0x100 * 0x100 + w / 0x100
  }

  /** A native 16-bit store, and the load that undoes it. */
  function Store16(w: word): (s: seq<byte>) {
    [w % 0x100, w / 0x100]
  }

  function Load16(s: seq<byte>, at: nat): word
    requires at + 2 <= |s|
  {
    s[at] as int + 0x100 * s[at + 1] as int
  }

  /** A native 32-bit store. */
  function Store32(d: dword): (s: seq<byte>) {
    [d % 0x100, d / 0x100 % 0x100, d / 0x1_0000 % 0x100, d / 0x100_0000]
  }

  /** Network (big-endian) order, which `Store16(SwapBytes(w))` must produce. */
  function Be16(w: word): (s: seq<byte>) {
    [w / 0x100, w % 0x100]
  }

  /** Four bytes in network order: what `htonl` and a native store must produce. */
  function Be32(d: dword): (s: seq<byte>) {
    [d / 0x100_0000, d / 0x1_0000 % 0x100, d / 0x100 % 0x100, d % 0x100]
  }

  /** The number that octets in network order stand for. */
  function BigEndian(s: seq<byte>): nat {
    if s == [] then 0 else BigEndian(s[..|s| - 1]) * 0x100 + s[|s| - 1]
  }

  lemma BigEndianOfWord(w: word)
    ensures BigEndian(Be16(w)) == w
  {
    BigEndianOfTwo(w / 0x100, w % 0x100);
  }

  lemma BigEndianOfTwo(a: byte, b: byte)
    ensures BigEndian([a, b]) == a as int * 0x100 + b as int
  {
    assert [a, b][..1] == [a] && [a][..0] == [];
    assert BigEndian([a]) == a as int;
  }

  lemma BigEndianOfFour(a: byte, b: byte, c: byte, d: byte)
    ensures BigEndian([a, b, c, d]) == ((a as int * 0x100 + b as int) * 0x100 + c as int) * 0x100 + d as int
  {
    BigEndianOfTwo(a, b);
    assert [a, b, c, d][..3] == [a, b, c] && [a, b, c][..2] == [a, b];
    assert BigEndian([a, b, c]) == BigEndian([a, b]) * 0x100 + c as int;
  }

  lemma BigEndianOfDword(d: dword)
    ensures BigEndian(Be32(d)) == d
  {
    var s, a, b := Be32(d), d / 0x100, d / 0x1_0000;
    assert a / 0x100 == b && b / 0x100 == d / 0x100_0000;
    BigEndianOfFour(s[0], s[1], s[2], s[3]);
  }

  lemma SwapBytesGivesNetworkOrder(w: word)
    ensures Store16(SwapBytes(w)) == Be16(w)
    ensures SwapBytes(SwapBytes(w)) == w
  {
  }

  lemma Load16At(s: seq<byte>, at: nat, w: word)
    requires at + 2 <= |s| && s[at..at + 2] == Store16(w)
    ensures Load16(s, at) == w
  {
    assert s[at] == s[at..at + 2][0] && s[at + 1] == s[at..at + 2][1];
  }

  lemma ConcatAssoc(a: seq<byte>, b: seq<byte>, c: seq<byte>)
    ensures a + b + c == a + (b + c)
  {
  }

  /** `memcpy(dest + at, src, |src|)`: what was written before stays, what comes after stays. */
  method CopyInto(dest: array<byte>, at: nat, src: seq<byte>)
    requires at + |src| <= dest.Length
    modifies dest
    ensures dest[..at + |src|] == old(dest[..at]) + src
    ensures forall i :: at + |src| <= i < dest.Length ==> dest[i] == old(dest[i])
  {
    for i := 0 to |src|
      invariant dest[..at + i] == old(dest[..at]) + src[..i]
      invariant forall j :: at + i <= j < dest.Length ==> dest[j] == old(dest[j])
    {
      dest[at + i] := src[i];
    }
  }

  // ---------- network order in a buffer ----------

  /** The word at a place, in network order. */
  function NetworkWord(p: seq<byte>, at: nat): word
    requires at + 2 <= |p|
  {
    0x100 * p[at] as int + p[at + 1] as int
  }

  /** `ntohs(*(uint16_t*) (p + at))` */
  method Get16(p: seq<byte>, at: nat) returns (w: word)
    requires at + 2 <= |p|
    ensures w == NetworkWord(p, at)
  {
    w := SwapBytes(Load16(p, at));
  }

  method Put16(dest: array<byte>, at: nat, w: word)
    requires at + 2 <= dest.Length
    modifies dest
    ensures dest[..at + 2] == old(dest[..at]) + Be16(w)
    ensures forall i :: at + 2 <= i < dest.Length ==> dest[i] == old(dest[i])
  {
    SwapBytesGivesNetworkOrder(w);
    CopyInto(dest, at, Store16(SwapBytes(w)));
  }

  lemma WordIsBigEndian(p: seq<byte>, at: nat)
    requires at + 2 <= |p|
    ensures NetworkWord(p, at) == BigEndian(p[at..at + 2])
  {
    assert p[at..at + 2] == [p[at], p[at + 1]];
    BigEndianOfTwo(p[at], p[at + 1]);
  }

  /** `ntohl` of a native load. */
  function NetworkDword(s: seq<byte>, at: nat): dword
    requires at + 4 <= |s|
  {
    0x100_0000 * s[at] as int + 0x1_0000 * s[at + 1] as int + 0x100 * s[at + 2] as int + s[at + 3] as int
  }

  lemma DwordIsBigEndian(s: seq<byte>, at: nat)
    requires at + 4 <= |s|
    ensures NetworkDword(s, at) == BigEndian(s[at..at + 4])
  {
    assert s[at..at + 4] == [s[at], s[at + 1], s[at + 2], s[at + 3]];
    BigEndianOfFour(s[at], s[at + 1], s[at + 2], s[at + 3]);
  }
}
