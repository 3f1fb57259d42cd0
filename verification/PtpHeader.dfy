/** The header of the path protocol: a list of tagged actions, the index of the current one, a hop count. */
module PtpHeader {
  import opened Bytes
  import opened VarLenBytes

  /** An address or a network id: any number of octets. */
  type Addr = seq<byte>

  const START: byte := 0
  const END: byte := 1

  /** The kind of an endpoint is a byte cast from the wire, so it need not be START or END. */
  datatype Action =
    | Endpoint(kind: byte)
    | LocalConn(srcAddr: Addr, destAddr: Addr)
    | NetSwitch(srcId: Addr, destId: Addr)

  datatype Header = Header(actions: seq<Action>, currAction: byte, noJumps: byte)

  // ---------- wire form ----------

  /** A local connection and a network switch are both two encoded byte strings. */
  function PairImage(a: Addr, b: Addr): seq<byte> {
    Encode(a) + Encode(b)
  }

  function ActionImage(a: Action): (s: seq<byte>)
  {
    match a
    case Endpoint(kind) => [0, kind]
    case LocalConn(src, dest) => [1] + PairImage(src, dest)
    case NetSwitch(src, dest) => [2] + PairImage(src, dest)
  }

  function ActionsImage(actions: seq<Action>): seq<byte> {
    if actions == [] then []
    else ActionsImage(actions[..|actions| - 1]) + ActionImage(actions[|actions| - 1])
  }

  function Image(h: Header): seq<byte>
    requires |h.actions| < 0x100
  {
    [|h.actions|] + ActionsImage(h.actions) + [h.currAction, h.noJumps]
  }

  function ParsePair(b: seq<byte>): (r: Parse<(Addr, Addr)>)
    ensures r.Parsed? ==> r.used <= |b|
    ensures !r.Thrown?
  {
    var (first, n) :- Decode(b);
    var (second, m) :- Decode(b[n..]);
    Parsed((first, second), n + m)
  }

  /** An unknown tag runs into a bare `throw`. */
  function ParseAction(b: seq<byte>): (r: Parse<Action>)
    ensures r.Parsed? ==> r.used <= |b|
  {
    if |b| == 0 then OutOfBuffer
    else if b[0] == 0 then
      if |b| == 1 then OutOfBuffer else Parsed(Endpoint(b[1]), 2)
    else if b[0] == 1 then
      var (pair, n) :- ParsePair(b[1..]);
      Parsed(LocalConn(pair.0, pair.1), 1 + n)
    else if b[0] == 2 then
      var (pair, n) :- ParsePair(b[1..]);
      Parsed(NetSwitch(pair.0, pair.1), 1 + n)
    else Thrown
  }

  /** `n` actions, one after the other. */
  function ParseActions(b: seq<byte>, n: nat): (r: Parse<seq<Action>>)
    ensures r.Parsed? ==> r.used <= |b| && |r.value| == n
  {
    if n == 0 then Parsed([], 0)
    else
      var (init, used) :- ParseActions(b, n - 1);
      var (last, more) :- ParseAction(b[used..]);
      Parsed(init + [last], used + more)
  }

  function ParseHeader(b: seq<byte>): (r: Parse<Header>)
    ensures r.Parsed? ==> r.used <= |b| && |r.value.actions| < 0x100
  {
    if |b| == 0 then OutOfBuffer
    else
      var (actions, used) :- ParseActions(b[1..], b[0]);
      if 1 + used + 2 > |b| then OutOfBuffer
      else Parsed(Header(actions, b[1 + used], b[1 + used + 1]), 1 + used + 2)
  }

  // ---------- writers ----------

  method WritePair(dest: array<byte>, at: nat, a: Addr, b: Addr) returns (cnt: nat)
    requires at + |PairImage(a, b)| <= dest.Length
    modifies dest
    ensures cnt == |PairImage(a, b)|
    ensures dest[..at + cnt] == old(dest[..at]) + PairImage(a, b)
    ensures forall i :: at + cnt <= i < dest.Length ==> dest[i] == old(dest[i])
  {
    ghost var before := dest[..at];
    var n := EncodeBytes(dest, at, a);
    var m := EncodeBytes(dest, at + n, b);
    cnt := n + m;
    ConcatAssoc(before, Encode(a), Encode(b));
  }

  method WriteAction(dest: array<byte>, at: nat, a: Action) returns (cnt: nat)
    requires at + |ActionImage(a)| <= dest.Length
    modifies dest
    ensures cnt == |ActionImage(a)|
    ensures dest[..at + cnt] == old(dest[..at]) + ActionImage(a)
    ensures forall i :: at + cnt <= i < dest.Length ==> dest[i] == old(dest[i])
  {
    ghost var before := dest[..at];
    match a
    case Endpoint(kind) =>
      CopyInto(dest, at, [0, kind]);
      cnt := 2;
    case LocalConn(src, dst) =>
      CopyInto(dest, at, [1]);
      cnt := WritePair(dest, at + 1, src, dst);
      cnt := cnt + 1;
      ConcatAssoc(before, [1], PairImage(src, dst));
    case NetSwitch(src, dst) =>
      CopyInto(dest, at, [2]);
      cnt := WritePair(dest, at + 1, src, dst);
      cnt := cnt + 1;
      ConcatAssoc(before, [2], PairImage(src, dst));
  }

  /** From the buffer's start; `None` is the throw, with nothing written. */
  method WriteHeader(dest: array<byte>, h: Header) returns (r: Option<nat>)
    requires |h.actions| < 0x100 ==> |Image(h)| <= dest.Length
    modifies dest
    ensures r == if |h.actions| < 0x100 then Some(|Image(h)|) else None
    ensures r.Some? ==> dest[..r.value] == Image(h)
    ensures forall i :: (if r.Some? then r.value else 0) <= i < dest.Length ==> dest[i] == old(dest[i])
  {
    hide Image, ImageUpTo, ActionImage;
    if !(|h.actions| < 0x100) {
      return None;
    }
    ImageStart(h);
    dest[0] := |h.actions|;
    var cnt := 1;
    for i := 0 to |h.actions|
      invariant cnt == |ImageUpTo(h, i)| && cnt + 2 <= |Image(h)|
      invariant dest[..cnt] == ImageUpTo(h, i)
      invariant forall k :: |Image(h)| <= k < dest.Length ==> dest[k] == old(dest[k])
    {
      ImageStep(h, i);
      var n := WriteAction(dest, cnt, h.actions[i]);
      cnt := cnt + n;
    }
    ImageEnd(h);
    CopyInto(dest, cnt, [h.currAction, h.noJumps]);
    return Some(cnt + 2);
  }

  /** The header's bytes before its i-th action. */
  ghost function ImageUpTo(h: Header, i: nat): seq<byte>
    requires i <= |h.actions| < 0x100
  {
    [|h.actions|] + ActionsImage(h.actions[..i])
  }

  lemma ImageStart(h: Header)
    requires |h.actions| < 0x100
    ensures ImageUpTo(h, 0) == [|h.actions|] && 3 <= |Image(h)|
  {
  }

  lemma ImageStep(h: Header, i: nat)
    requires i < |h.actions| < 0x100
    ensures ImageUpTo(h, i + 1) == ImageUpTo(h, i) + ActionImage(h.actions[i])
    ensures |ImageUpTo(h, i + 1)| + 2 <= |Image(h)|
  {
    ActionsImageStep(h.actions, i);
    ActionsImageBound(h.actions, i + 1);
    ConcatAssoc([|h.actions|], ActionsImage(h.actions[..i]), ActionImage(h.actions[i]));
  }

  lemma ImageEnd(h: Header)
    requires |h.actions| < 0x100
    ensures ImageUpTo(h, |h.actions|) + [h.currAction, h.noJumps] == Image(h)
  {
    assert h.actions[..|h.actions|] == h.actions;
  }

  lemma ActionsImageStep(actions: seq<Action>, i: nat)
    requires i < |actions|
    ensures ActionsImage(actions[..i + 1]) == ActionsImage(actions[..i]) + ActionImage(actions[i])
  {
    assert actions[..i + 1][..i] == actions[..i];
  }

  lemma {:induction false} ActionsImageBound(actions: seq<Action>, i: nat)
    requires i <= |actions|
    ensures |ActionsImage(actions[..i])| <= |ActionsImage(actions)|
    decreases |actions|
  {
    if i < |actions| {
      var init := actions[..|actions| - 1];
      ActionsImageBound(init, i);
      assert init[..i] == actions[..i];
    } else {
      assert actions[..i] == actions;
    }
  }

  // ---------- readers ----------

  method ExtractPair(src: seq<byte>, at: nat) returns (r: Parse<(Addr, Addr)>)
    requires at <= |src|
    ensures r == ParsePair(src[at..])
  {
    var a :- DecodeBytes(src, at);
    assert src[at..][a.1..] == src[at + a.1..];
    var b :- DecodeBytes(src, at + a.1);
    return Parsed((a.0, b.0), a.1 + b.1);
  }

  method ExtractAction(src: seq<byte>, at: nat) returns (r: Parse<Action>)
    requires at <= |src|
    ensures r == ParseAction(src[at..])
  {
    if at >= |src| {
      return OutOfBuffer;
    }
    assert src[at..][1..] == src[at + 1..];
    if src[at] == 0 {
      if at + 1 >= |src| {
        return OutOfBuffer;
      }
      return Parsed(Endpoint(src[at + 1]), 2);
    } else if src[at] == 1 {
      var p :- ExtractPair(src, at + 1);
      return Parsed(LocalConn(p.0.0, p.0.1), 1 + p.1);
    } else if src[at] == 2 {
      var p :- ExtractPair(src, at + 1);
      return Parsed(NetSwitch(p.0.0, p.0.1), 1 + p.1);
    } else {
      return Thrown;
    }
  }

  method ExtractHeader(src: seq<byte>) returns (r: Parse<Header>)
    ensures r == ParseHeader(src)
  {
    hide ParseAction;
    if |src| == 0 {
      return OutOfBuffer;
    }
    var noActions := src[0];
    var curr := 1;
    var actions: seq<Action> := [];
    for i := 0 to noActions
      invariant 1 <= curr <= |src|
      invariant ParseActions(src[1..], i) == Parsed(actions, curr - 1)
    {
      assert src[1..][curr - 1..] == src[curr..];
      var r := ExtractAction(src, curr);
      if !r.Parsed? {
        FailureStays(src[1..], i + 1, noActions);
        return r.PropagateFailure();
      }
      actions := actions + [r.value];
      curr := curr + r.used;
    }
    if curr + 2 > |src| {
      return OutOfBuffer;
    }
    return Parsed(Header(actions, src[curr], src[curr + 1]), curr + 2);
  }

  lemma {:induction false} FailureStays(b: seq<byte>, i: nat, n: nat)
    requires i <= n && !ParseActions(b, i).Parsed?
    ensures ParseActions(b, n) == ParseActions(b, i)
  {
    hide ParseAction;
    if i < n {
      FailureStays(b, i, n - 1);
    }
  }

  // ---------- round trips ----------

  lemma PairRoundTrip(a: Addr, b: Addr, rest: seq<byte>)
    ensures ParsePair(PairImage(a, b) + rest) == Parsed((a, b), |PairImage(a, b)|)
  {
    ConcatAssoc(Encode(a), Encode(b), rest);
    RoundTrip(a, Encode(b) + rest);
    assert (PairImage(a, b) + rest)[|Encode(a)|..] == Encode(b) + rest;
    RoundTrip(b, rest);
  }

  lemma TagInFront(tag: byte, image: seq<byte>, rest: seq<byte>)
    ensures ([tag] + image + rest)[0] == tag && ([tag] + image + rest)[1..] == image + rest
  {
  }

  lemma ActionRoundTrip(a: Action, rest: seq<byte>)
    ensures ParseAction(ActionImage(a) + rest) == Parsed(a, |ActionImage(a)|)
  {
    match a
    case Endpoint(kind) =>
    case LocalConn(src, dest) =>
      TagInFront(1, PairImage(src, dest), rest);
      PairRoundTrip(src, dest, rest);
    case NetSwitch(src, dest) =>
      TagInFront(2, PairImage(src, dest), rest);
      PairRoundTrip(src, dest, rest);
  }

  /**
    The wire form of start, one hop between addresses without zeros, end: the number of actions; a tag
    before each, 0 with the kind (0 or 1) behind it, 1 with source and destination, each ended by 0, 1; then
    the current action and the hops made. A switch differs in its tag.
   */
  lemma OneHopOctets(a: Addr, b: Addr, curr: byte, jumps: byte)
    requires 0 !in a && 0 !in b
    ensures Image(Header([Endpoint(START), LocalConn(a, b), Endpoint(END)], curr, jumps))
         == [3, 0, 0, 1] + a + [0, 1] + b + [0, 1, 0, 1] + [curr, jumps]
    ensures Image(Header([Endpoint(START), NetSwitch(a, b), Endpoint(END)], curr, jumps))
         == [3, 0, 0, 2] + a + [0, 1] + b + [0, 1, 0, 1] + [curr, jumps]
  {
    hide Encode, ActionsImage;
    ZeroFreeIsItself(a);
    ZeroFreeIsItself(b);
    ThreeActions(Endpoint(START), LocalConn(a, b), Endpoint(END));
    ThreeActions(Endpoint(START), NetSwitch(a, b), Endpoint(END));
    InOneRow(1, a, b, [curr, jumps]);
    InOneRow(2, a, b, [curr, jumps]);
  }

  lemma InOneRow(tag: byte, a: seq<byte>, b: seq<byte>, tail: seq<byte>)
    ensures [3] + ([0, 0] + ([tag] + (a + [0, 1] + (b + [0, 1]))) + [0, 1]) + tail
         == [3, 0, 0, tag] + a + [0, 1] + b + [0, 1, 0, 1] + tail
  {
    var inner := a + [0, 1] + (b + [0, 1]);
    assert [3] + ([0, 0] + ([tag] + inner) + [0, 1]) == [3, 0, 0, tag] + inner + [0, 1];
    assert inner + [0, 1] == a + [0, 1] + b + [0, 1, 0, 1];
  }

  lemma ThreeActions(x: Action, y: Action, z: Action)
    ensures ActionsImage([x, y, z]) == ActionImage(x) + ActionImage(y) + ActionImage(z)
  {
    hide ActionImage;
    assert [x, y, z][..2] == [x, y] && [x, y][..1] == [x] && [x][..0] == [];
    assert ActionsImage([x]) == ActionImage(x);
    assert ActionsImage([x, y]) == ActionImage(x) + ActionImage(y);
  }

  lemma OneMoreAction(b: seq<byte>, init: seq<Action>, used: nat, last: Action, more: nat)
    requires ParseActions(b, |init|) == Parsed(init, used) && used <= |b|
    requires ParseAction(b[used..]) == Parsed(last, more)
    ensures ParseActions(b, |init| + 1) == Parsed(init + [last], used + more)
  {
    hide ParseAction;
  }

  lemma NoActions(b: seq<byte>)
    ensures ParseActions(b, 0) == Parsed([], 0) && ActionsImage([]) == []
  {
  }

  lemma DropFront(front: seq<byte>, back: seq<byte>)
    ensures (front + back)[|front|..] == back
  {
  }

  lemma {:induction false} ActionsRoundTrip(actions: seq<Action>, rest: seq<byte>)
    ensures ParseActions(ActionsImage(actions) + rest, |actions|) == Parsed(actions, |ActionsImage(actions)|)
  {
    hide ParseActions, ParseAction, ActionImage;
    NoActions([] + rest);
    if actions != [] {
      var init, last := actions[..|actions| - 1], actions[|actions| - 1];
      var front, back := ActionsImage(init), ActionImage(last) + rest;
      ConcatAssoc(front, ActionImage(last), rest);
      ActionsRoundTrip(init, back);
      ActionRoundTrip(last, rest);
      DropFront(front, back);
      OneMoreAction(front + back, init, |front|, last, |ActionImage(last)|);
      assert init + [last] == actions;
    }
  }

  /** A tag that is neither of the three throws, whatever was read before it and whatever follows. */
  lemma UnknownTagThrows(n: byte, actions: seq<Action>, tag: byte, rest: seq<byte>)
    requires |actions| < n as nat && tag >= 3
    ensures ParseHeader([n] + (ActionsImage(actions) + ([tag] + rest))) == Thrown
  {
    hide ParseAction;
    var front, back := ActionsImage(actions), [tag] + rest;
    ActionsRoundTrip(actions, back);
    DropFront(front, back);
    NoSuchTag(tag, rest);
    FailureStays(front + back, |actions| + 1, n as nat);
    DropFront([n], front + back);
  }

  lemma NoSuchTag(tag: byte, rest: seq<byte>)
    requires tag >= 3
    ensures ParseAction([tag] + rest) == Thrown
  {
  }

  /** Any header of fewer than 256 actions is read back, and exactly its own bytes are taken. */
  lemma HeaderRoundTrip(h: Header, rest: seq<byte>)
    requires |h.actions| < 0x100
    ensures ParseHeader(Image(h) + rest) == Parsed(h, |Image(h)|)
  {
    var front, tail := ActionsImage(h.actions), [h.currAction, h.noJumps] + rest;
    assert Image(h) + rest == [|h.actions|] + front + tail;
    TagInFront(|h.actions|, front, tail);
    ActionsRoundTrip(h.actions, tail);
    HeaderTail([|h.actions|] + front + tail, h, front, rest);
  }

  lemma HeaderTail(b: seq<byte>, h: Header, front: seq<byte>, rest: seq<byte>)
    requires |h.actions| < 0x100 && b == [|h.actions|] + front + ([h.currAction, h.noJumps] + rest)
    requires ParseActions(b[1..], |h.actions|) == Parsed(h.actions, |front|)
    ensures ParseHeader(b) == Parsed(h, |front| + 3)
  {
    assert b[1 + |front|] == h.currAction && b[1 + |front| + 1] == h.noJumps;
  }

  // ---------- writing back what was read never takes more room ----------

  lemma PairNeverGrows(b: seq<byte>)
    requires ParsePair(b).Parsed?
    ensures |PairImage(ParsePair(b).value.0, ParsePair(b).value.1)| <= ParsePair(b).used
  {
    ReencodeNeverGrows(b);
    ReencodeNeverGrows(b[Decode(b).used..]);
  }

  lemma ActionNeverGrows(b: seq<byte>)
    requires ParseAction(b).Parsed?
    ensures |ActionImage(ParseAction(b).value)| <= ParseAction(b).used
  {
    if b[0] != 0 {
      PairNeverGrows(b[1..]);
    }
  }

  lemma {:induction false} ActionsNeverGrow(b: seq<byte>, n: nat)
    requires ParseActions(b, n).Parsed?
    ensures |ActionsImage(ParseActions(b, n).value)| <= ParseActions(b, n).used
  {
    if n > 0 {
      var init := ParseActions(b, n - 1);
      ActionsNeverGrow(b, n - 1);
      ActionNeverGrows(b[init.used..]);
      assert ParseActions(b, n).value[..n - 1] == init.value;
    }
  }

  lemma HeaderNeverGrows(b: seq<byte>)
    requires ParseHeader(b).Parsed?
    ensures |Image(ParseHeader(b).value)| <= ParseHeader(b).used
  {
    ActionsNeverGrow(b[1..], b[0]);
  }
}
