/** The text form of paths: printing, parsing, and exactly when the one undoes the other. */
module PtpText {
  import opened Bytes
  import opened SplitStr
  import opened PtpHeader

  // ---------- hexadecimal ----------

  function HexDigit(n: nat): (c: char)
    requires n < 16
    ensures c == "0123456789abcdef"[n]
  {
    if n < 10 then '0' + n as char else 'a' + (n - 10) as char
  }

  /** The value of a hexadecimal digit, or 16. */
  function DigitValue(c: char): nat {
    if '0' <= c <= '9' then (c - '0') as nat
    else if 'a' <= c <= 'f' then (c - 'a') as nat + 10
    else if 'A' <= c <= 'F' then (c - 'A') as nat + 10
    else 16
  }

  predicate IsHex(c: char) {
    DigitValue(c) < 16
  }

  /** `std::hex` does not pad: an octet below 16 is one digit. */
  function OctetText(o: byte): string {
    if o < 16 then [HexDigit(o)] else [HexDigit(o / 16), HexDigit(o % 16)]
  }

  predicate IsSpace(c: char) {
    c == ' ' || 9 <= c as int <= 13
  }

  /**
    `std::stoul` of two characters in base 16, cast to a byte: leading space and a sign are skipped, it
    stops at the first character that is no digit, and it throws when it has seen no digit.
   */
  function StoulTwo(c0: char, c1: char): Option<byte> {
    if IsHex(c0) then
      Some(if IsHex(c1) then DigitValue(c0) * 16 + DigitValue(c1) else DigitValue(c0))
    else if !IsHex(c1) then None
    else if c0 == '-' then Some((0x100 - DigitValue(c1)) % 0x100)
    else if c0 == '+' || IsSpace(c0) then Some(DigitValue(c1))
    else None
  }

  /** What two characters are read as: digits of either case, one digit and something else, a sign, a space. */
  lemma StoulReads(i: nat, j: nat, c: char)
    requires i < 16 && j < 16
    ensures var lower, upper := "0123456789abcdef", "0123456789ABCDEF";
      && StoulTwo(lower[i], lower[j]) == StoulTwo(upper[i], upper[j]) == Some(0x10 * i + j)
      && (c !in lower && c !in upper ==> StoulTwo(lower[i], c) == Some(i))
      && StoulTwo('+', lower[j]) == StoulTwo(' ', lower[j]) == Some(j)
      && StoulTwo('-', lower[j]).Some? && (StoulTwo('-', lower[j]).value + j) % 0x100 == 0
  {
    DigitOf(i);
    DigitOf(j);
    NoDigit(c);
  }

  lemma DigitOf(i: nat)
    requires i < 16
    ensures DigitValue("0123456789abcdef"[i]) == DigitValue("0123456789ABCDEF"[i]) == i
  {
  }

  lemma NoDigit(c: char)
    ensures c !in "0123456789abcdef" && c !in "0123456789ABCDEF" <==> !IsHex(c)
  {
    var lower, upper := "0123456789abcdef", "0123456789ABCDEF";
    if '0' <= c <= '9' {
      assert lower[(c - '0') as int] == c;
    } else if 'a' <= c <= 'f' {
      assert lower[(c - 'a') as int + 10] == c;
    } else if 'A' <= c <= 'F' {
      assert upper[(c - 'A') as int + 10] == c;
    }
  }

  // ---------- addresses ----------

  function AddrTextFrom(a: Addr, first: bool): string {
    if a == [] then ""
    else (if first then "" else ".") + OctetText(a[0]) + AddrTextFrom(a[1..], false)
  }

  function AddrText(a: Addr): string {
    AddrTextFrom(a, true)
  }

  lemma {:induction false} AddrTextGrows(a: Addr, o: byte)
    ensures AddrText([o]) == OctetText(o)
    ensures a != [] ==> AddrText(a + [o]) == AddrText(a) + "." + OctetText(o)
  {
    assert AddrTextFrom([o], true) == "" + OctetText(o) + "";
    if a != [] {
      AddrTextSnoc(a, o, true);
    }
  }

  lemma {:induction false} AddrTextSnoc(a: Addr, o: byte, first: bool)
    requires !first || a != []
    ensures AddrTextFrom(a + [o], first) == AddrTextFrom(a, first) + "." + OctetText(o)
    decreases |a|
  {
    hide OctetText;
    if a == [] {
      assert a + [o] == [o];
    } else {
      assert (a + [o])[1..] == a[1..] + [o];
      AddrTextSnoc(a[1..], o, false);
    }
  }

  method AddrToStr(a: Addr) returns (res: string)
    ensures res == AddrText(a)
  {
    hide OctetText, AddrTextFrom;
    res := "";
    assert a[0..] == a;
    for i := 0 to |a|
      invariant res + AddrTextFrom(a[i..], i == 0) == AddrText(a)
    {
      OctetInFront(res, a, i);
      if i > 0 {
        res := res + ".";
      }
      res := res + OctetText(a[i]);
    }
    NoTextLeft(a);
  }

  lemma OctetInFront(res: string, a: Addr, i: nat)
    requires i < |a|
    ensures res + AddrTextFrom(a[i..], i == 0)
         == res + (if i > 0 then "." else "") + OctetText(a[i]) + AddrTextFrom(a[i + 1..], false)
  {
    hide OctetText;
    assert a[i..][1..] == a[i + 1..];
  }

  lemma NoTextLeft(a: Addr)
    ensures AddrTextFrom(a[|a|..], |a| == 0) == ""
  {
  }

  function AddrFrom(s: string, first: bool, octets: Addr): Option<Addr>
    decreases |s|
  {
    if s == "" then Some(octets)
    else if !first && s[0] != '.' then None
    else
      var t := if first then s else s[1..];
      if |t| < 2 then None
      else
        match StoulTwo(t[0], t[1])
        case None => None
        case Some(o) => AddrFrom(t[2..], false, octets + [o])
  }

  method StrToAddr(s: string) returns (r: Option<Addr>)
    ensures r == AddrFrom(s, true, [])
  {
    var octets: Addr := [];
    var i := 0;
    while i < |s|
      invariant i <= |s|
      invariant AddrFrom(s[i..], i == 0, octets) == AddrFrom(s, true, [])
    {
      ghost var from := i;
      if i != 0 {
        if s[i] != '.' {
          return None;
        }
        i := i + 1;
      }
      assert s[i..] == if from == 0 then s[from..] else s[from..][1..];
      if !(|s| - i >= 2) {
        return None;
      }
      var o := StoulTwo(s[i], s[i + 1]);
      if o.None? {
        return None;
      }
      octets := octets + [o.value];
      assert s[i..][2..] == s[i + 2..];
      i := i + 2;
    }
    return Some(octets);
  }

  /** Two characters for each octet. */
  ghost predicate ArePairs(pairs: seq<string>, a: Addr) {
    |pairs| == |a| && forall k :: 0 <= k < |a| ==> |pairs[k]| == 2 && StoulTwo(pairs[k][0], pairs[k][1]) == Some(a[k])
  }

  /** For all strings: an address is read of pairs of characters with dots between, or of nothing. */
  lemma AddrReadIff(s: string, a: Addr)
    ensures AddrFrom(s, true, []) == Some(a)
       <==> (s == "" && a == []) || exists pairs :: pairs != [] && ArePairs(pairs, a) && s == Join(pairs, ".")
  {
    hide ArePairs;
    if s != "" && AddrFrom(s, true, []) == Some(a) {
      var pairs := PairsRead("." + s, [], a);
      TailDropped(pairs, s);
    }
    if pairs :| pairs != [] && ArePairs(pairs, a) && s == Join(pairs, ".") {
      ReadsPairs(pairs, [], a);
      TailDropped(pairs, s);
      NothingDone(a);
      NotEmpty(pairs, a);
      assert ("." + s)[1..] == s;
    }
  }

  /** Each pair with a dot in front. */
  ghost function Tail(pairs: seq<string>): string {
    if pairs == [] then "" else "." + pairs[0] + Tail(pairs[1..])
  }

  lemma {:induction false} TailIsJoin(pairs: seq<string>)
    requires pairs != []
    ensures Tail(pairs) == "." + Join(pairs, ".")
  {
    if |pairs| > 1 {
      TailIsJoin(pairs[1..]);
    } else {
      assert Tail(pairs[1..]) == "";
    }
  }

  lemma TailDropped(pairs: seq<string>, s: string)
    ensures pairs != [] && "." + s == Tail(pairs) ==> s == Join(pairs, ".")
    ensures pairs != [] && s == Join(pairs, ".") ==> "." + s == Tail(pairs)
    ensures pairs == [] ==> "." + s != Tail(pairs)
  {
    if pairs != [] {
      TailIsJoin(pairs);
      assert ("." + s)[1..] == s && ("." + Join(pairs, "."))[1..] == Join(pairs, ".");
    }
  }

  lemma NothingDone(a: Addr)
    ensures [] + a == a
  {
  }

  lemma NotEmpty(pairs: seq<string>, a: Addr)
    requires pairs != [] && ArePairs(pairs, a)
    ensures Join(pairs, ".") != ""
  {
  }

  lemma {:induction false} PairsRead(s: string, done: Addr, a: Addr) returns (pairs: seq<string>)
    requires AddrFrom(s, false, done) == Some(a)
    ensures done <= a && ArePairs(pairs, a[|done|..]) && s == Tail(pairs)
    decreases |s|
  {
    hide StoulTwo;
    pairs := [];
    if s != "" {
      var o, t := StoulTwo(s[1], s[2]).value, s[1..];
      assert t[2..] == s[3..];
      var more := PairsRead(s[3..], done + [o], a);
      pairs := [s[1..3]] + more;
      assert pairs[1..] == more && (done + [o])[..|done|] == done;
      assert a[|done|..] == [o] + a[|done + [o]|..];
      assert s == "." + s[1..3] + s[3..];
    }
  }

  lemma {:induction false} ReadsPairs(pairs: seq<string>, done: Addr, more: Addr)
    requires ArePairs(pairs, more)
    ensures AddrFrom(Tail(pairs), false, done) == Some(done + more)
    decreases |pairs|
  {
    hide StoulTwo;
    if pairs == [] {
      assert done + more == done;
    } else {
      var s, t := Tail(pairs), pairs[0] + Tail(pairs[1..]);
      assert s[1..] == t && t[2..] == Tail(pairs[1..]);
      ReadsPairs(pairs[1..], done + [more[0]], more[1..]);
      assert done + [more[0]] + more[1..] == done + more;
    }
  }

  // ---------- actions and lists of them ----------

  function ConnText(src: Addr, dest: Addr): string {
    AddrText(src) + " -> " + AddrText(dest)
  }

  function ActionText(a: Action): Option<string> {
    match a
    case Endpoint(kind) =>
      if kind == START then Some("endpoint " + "start")
      else if kind == END then Some("endpoint " + "end")
      else None
    case LocalConn(src, dest) => Some("conn " + ConnText(src, dest))
    case NetSwitch(src, dest) => Some("switch " + ConnText(src, dest))
  }

  /** `Diverges`: reading does not end, or not within the rounds given. */
  datatype FromText<+T> = Read(value: T) | Rejected | Diverges {
    predicate IsFailure() { !Read? }
    function PropagateFailure<U>(): FromText<U> requires !Read? { if Rejected? then Rejected else Diverges }
    function Extract(): T requires Read? { value }
  }

  function ReadAddr(s: string): FromText<Addr> {
    match AddrFrom(s, true, [])
    case Some(a) => Read(a)
    case None => Rejected
  }

  /** The loop over a network id, at index i; it never moves i past an octet it has read. */
  function ReadIdFrom(s: string, i: nat, vals: Addr, rounds: nat): FromText<Addr>
    requires i <= |s|
    decreases rounds
  {
    if rounds == 0 then Diverges
    else if i >= |s| then Read(vals)
    else if i != 0 && s[i] != '.' then Rejected
    else
      var at := if i != 0 then i + 1 else i;
      if |s| - at < 2 then Rejected
      else
        match StoulTwo(s[at], s[at + 1])
        case None => Rejected
        case Some(o) => ReadIdFrom(s, at, vals + [o], rounds - 1)
  }

  /** One round decides; see `NetIdDecided`. */
  function ReadNetId(s: string): FromText<Addr> {
    ReadIdFrom(s, 0, [], 1)
  }

  /** What has not ended after one round never ends, and what has is the same for any more rounds. */
  lemma NetIdDecided(s: string, rounds: nat)
    requires rounds > 0
    ensures ReadIdFrom(s, 0, [], rounds) == ReadNetId(s)
    ensures ReadNetId(s) == if s == "" then Read([])
                            else if |s| >= 2 && StoulTwo(s[0], s[1]).Some? then Diverges
                            else Rejected
  {
    if ReadNetId(s).Diverges? {
      NeverEnds(s, [], rounds);
    }
  }

  lemma {:induction false} NeverEnds(s: string, vals: Addr, rounds: nat)
    requires |s| >= 2 && StoulTwo(s[0], s[1]).Some?
    ensures ReadIdFrom(s, 0, vals, rounds) == Diverges
    decreases rounds
  {
    if rounds > 0 {
      NeverEnds(s, vals + [StoulTwo(s[0], s[1]).value], rounds - 1);
    }
  }

  /** The loop from index `from` on, watched for so many rounds. */
  method NetIdLoop(s: string, from: nat, read: Addr, rounds: nat) returns (r: FromText<Addr>)
    requires from <= |s|
    ensures r == ReadIdFrom(s, from, read, rounds)
  {
    var vals := read;
    var i: nat := from;
    for round := 0 to rounds
      invariant i <= |s| && ReadIdFrom(s, i, vals, rounds - round) == ReadIdFrom(s, from, read, rounds)
    {
      if i >= |s| {
        return Read(vals);
      }
      if i != 0 {
        if s[i] != '.' {
          return Rejected;
        }
        i := i + 1;
      }
      if !(|s| - i >= 2) {
        return Rejected;
      }
      var o := StoulTwo(s[i], s[i + 1]);
      if o.None? {
        return Rejected;
      }
      vals := vals + [o.value];
    }
    return Diverges;
  }

  method StrToNetId(s: string, rounds: nat) returns (r: FromText<Addr>)
    requires rounds > 0
    ensures r == ReadNetId(s)
  {
    NetIdDecided(s, rounds);
    r := NetIdLoop(s, 0, [], rounds);
  }

  function ReadPair(s: string, reader: string -> FromText<Addr>): FromText<(Addr, Addr)> {
    var parts := Split(s, " -> ");
    if |parts| != 2 then Rejected
    else
      var src :- reader(parts[0]);
      var dest :- reader(parts[1]);
      Read((src, dest))
  }

  function ReadAction(s: string): FromText<Action> {
    if "endpoint " <= s then
      if s[9..] == "start" then Read(Endpoint(START))
      else if s[9..] == "end" then Read(Endpoint(END))
      else Rejected
    else if "conn " <= s then
      var p :- ReadPair(s[5..], ReadAddr);
      Read(LocalConn(p.0, p.1))
    else if "switch " <= s then
      var p :- ReadPair(s[7..], ReadNetId);
      Read(NetSwitch(p.0, p.1))
    else Rejected
  }

  /** Actions are read from the left, and the first that is not read decides. */
  function ReadAll(parts: seq<string>): FromText<seq<Action>> {
    if parts == [] then Read([])
    else
      var a :- ReadAction(parts[0]);
      var rest :- ReadAll(parts[1..]);
      Read([a] + rest)
  }

  function ReadList(s: string): FromText<seq<Action>> {
    ReadAll(Split(s, " ; "))
  }

  /** Where the source would never come back from a network id the method may not be called. */
  method StrToActionList(str: string) returns (r: FromText<seq<Action>>)
    requires ReadList(str) != Diverges
    ensures r == ReadList(str)
  {
    hide ReadAction;
    var parts := SplitString(str, " ; ");
    var list: seq<Action> := [];
    assert parts[0..] == parts;
    ReadNothing(ReadAll(parts));
    for i := 0 to |parts|
      invariant ReadList(str) == ReadAfter(list, ReadAll(parts[i..]))
    {
      var tmp := ReadAction(parts[i]);
      assert parts[i..][1..] == parts[i + 1..];
      if !tmp.Read? {
        return Rejected;
      }
      ReadOneMore(list, tmp.value, ReadAll(parts[i + 1..]));
      list := list + [tmp.value];
    }
    ReadNothing(Read(list));
    return Read(list);
  }

  /** What reading the rest gives after some actions have been read. */
  ghost function ReadAfter(list: seq<Action>, rest: FromText<seq<Action>>): FromText<seq<Action>> {
    if rest.Read? then Read(list + rest.value) else rest
  }

  lemma ReadNothing(r: FromText<seq<Action>>)
    ensures ReadAfter([], r) == r
    ensures r.Read? ==> ReadAfter(r.value, Read([])) == r
  {
    if r.Read? {
      assert [] + r.value == r.value && r.value + [] == r.value;
    }
  }

  lemma ReadOneMore(list: seq<Action>, a: Action, rest: FromText<seq<Action>>)
    ensures rest.Read? ==> list + ([a] + rest.value) == list + [a] + rest.value
  {
  }

  predicate HasText(list: seq<Action>) {
    forall a :: a in list ==> ActionText(a).Some?
  }

  function Texts(list: seq<Action>): (t: seq<string>)
    requires HasText(list)
    ensures |t| == |list|
  {
    seq(|list|, i requires 0 <= i < |list| => ActionText(list[i]).value)
  }

  function ListText(list: seq<Action>): Option<string> {
    if !HasText(list) then None
    else if list == [] then Some("")
    else Some(Join(Texts(list), " ; "))
  }

  method ActionListToStr(list: seq<Action>) returns (r: Option<string>)
    ensures r == ListText(list)
  {
    var res := "";
    for i := 0 to |list|
      invariant HasText(list[..i])
      invariant i > 0 ==> res == Join(Texts(list[..i]), " ; ")
      invariant i == 0 ==> res == ""
    {
      if i > 0 {
        res := res + " ; ";
      }
      var t := ActionText(list[i]);
      if t.None? {
        assert list[i] in list;
        return None;
      }
      forall a | a in list[..i + 1] ensures ActionText(a).Some? {
        assert list[..i + 1] == list[..i] + [list[i]];
      }
      assert Texts(list[..i + 1]) == Texts(list[..i]) + [t.value];
      if i > 0 {
        JoinSnoc(Texts(list[..i]), t.value, " ; ");
      }
      res := res + t.value;
    }
    assert list[..|list|] == list;
    return Some(res);
  }

  lemma {:induction false} JoinSnoc(tokens: seq<string>, t: string, d: string)
    requires |tokens| > 0
    ensures Join(tokens + [t], d) == Join(tokens, d) + d + t
  {
    if |tokens| == 1 {
      assert (tokens + [t])[1..] == [t];
    } else {
      assert (tokens + [t])[1..] == tokens[1..] + [t];
      JoinSnoc(tokens[1..], t, d);
    }
  }

  /** The text of start, one hop, end, and of the same with a switch. */
  lemma OneHopText(a: Addr, b: Addr)
    ensures ListText([Endpoint(0), LocalConn(a, b), Endpoint(1)])
         == Some("endpoint " + "start" + " ; " + ("conn " + (AddrText(a) + " -> " + AddrText(b)))
                 + " ; " + ("endpoint " + "end"))
    ensures ListText([Endpoint(0), NetSwitch(a, b), Endpoint(1)])
         == Some("endpoint " + "start" + " ; " + ("switch " + (AddrText(a) + " -> " + AddrText(b)))
                 + " ; " + ("endpoint " + "end"))
  {
    hide AddrText, ListText;
    ThreeTexts(LocalConn(a, b));
    ThreeTexts(NetSwitch(a, b));
  }

  lemma ThreeTexts(hop: Action)
    requires ActionText(hop).Some?
    ensures ListText([Endpoint(0), hop, Endpoint(1)])
         == Some("endpoint " + "start" + " ; " + ActionText(hop).value + " ; " + ("endpoint " + "end"))
  {
    var list := [Endpoint(0), hop, Endpoint(1)];
    var t: seq<string> := ["endpoint " + "start", ActionText(hop).value, "endpoint " + "end"];
    EndpointTexts();
    hide ActionText;
    assert Texts(list) == t;
    ThreeJoined(t[0], t[1], t[2], " ; ");
  }

  lemma EndpointTexts()
    ensures ActionText(Endpoint(0)) == Some("endpoint " + "start")
    ensures ActionText(Endpoint(1)) == Some("endpoint " + "end")
  {
  }

  lemma ThreeJoined(x: string, y: string, z: string, d: string)
    ensures Join([x, y, z], d) == x + d + y + d + z
  {
    assert [x] + [y] == [x, y] && [x, y] + [z] == [x, y, z];
    JoinSnoc([x], y, d);
    JoinSnoc([x, y], z, d);
  }
}
