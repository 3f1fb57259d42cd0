/** Exactly when printed paths are read back. */
module PtpTextExact {
  import opened Bytes
  import opened SplitStr
  import opened PtpHeader
  import opened PtpText

  /** Octets of two digits. */
  predicate Wide(a: Addr) {
    forall o :: o in a ==> o >= 16
  }

  predicate Printable(a: Action) {
    match a
    case Endpoint(kind) => kind == START || kind == END
    case LocalConn(src, dest) => Wide(src) && Wide(dest)
    case NetSwitch(src, dest) => src == [] && dest == []
  }

  // ---------- addresses ----------

  lemma WideCons(a: Addr)
    requires a != []
    ensures Wide(a) <==> a[0] >= 16 && Wide(a[1..])
  {
    var rest := a[1..];
    assert a == [a[0]] + rest;
    assert a[0] in a;
    if Wide(a) {
      assert forall o :: o in rest ==> o in a;
    }
  }

  /** One octet of text in front: its digits, and what follows. */
  lemma NarrowOctetInFront(o: byte, rest: string)
    requires o < 16
    ensures var t := OctetText(o) + rest; IsHex(t[0]) && DigitValue(t[0]) == o && t[1..] == rest
  {
    HexDigitValue(o);
    assert (OctetText(o) + rest)[1..] == rest;
  }

  lemma WideOctetInFront(o: byte, rest: string)
    requires o >= 16
    ensures var t := OctetText(o) + rest;
            |t| >= 2 && StoulTwo(t[0], t[1]) == Some(o) && IsHex(t[0]) && t[2..] == rest
  {
    var hi, lo := HexDigit(o / 16), HexDigit(o % 16);
    HexDigitValue(o / 16);
    HexDigitValue(o % 16);
    assert StoulTwo(hi, lo) == Some(o);
    assert OctetText(o) + rest == [hi, lo] + rest;
    assert ([hi, lo] + rest)[2..] == rest;
  }

  lemma HexDigitValue(n: nat)
    requires n < 16
    ensures DigitValue(HexDigit(n)) == n
  {
  }

  lemma {:induction false} WideAddrIsRead(a: Addr, first: bool, acc: Addr)
    requires Wide(a)
    ensures AddrFrom(AddrTextFrom(a, first), first, acc) == Some(acc + a)
    decreases |a|
  {
    if a == [] {
      assert acc + a == acc;
    } else {
      var s, rest := AddrTextFrom(a, first), AddrTextFrom(a[1..], false);
      WideCons(a);
      WideOctetInFront(a[0], rest);
      assert (if first then s else s[1..]) == OctetText(a[0]) + rest;
      WideAddrIsRead(a[1..], false, acc + [a[0]]);
      assert acc + [a[0]] + a[1..] == acc + a;
    }
  }

  lemma {:induction false} NarrowAddrIsRejected(a: Addr, first: bool, acc: Addr)
    requires !Wide(a)
    ensures AddrFrom(AddrTextFrom(a, first), first, acc) == None
    decreases |a|
  {
    var s, rest := AddrTextFrom(a, first), AddrTextFrom(a[1..], false);
    var t := OctetText(a[0]) + rest;
    assert (if first then s else s[1..]) == t;
    WideCons(a);
    if a[0] >= 16 {
      WideOctetInFront(a[0], rest);
      NarrowAddrIsRejected(a[1..], false, acc + [a[0]]);
    } else {
      NarrowHeadIsRejected(t, a, acc);
    }
  }

  /** After a single digit the dot is taken for the second, and a digit stands where the dot should be. */
  lemma NarrowHeadIsRejected(t: string, a: Addr, acc: Addr)
    requires a != [] && a[0] < 16 && t == OctetText(a[0]) + AddrTextFrom(a[1..], false)
    ensures |t| < 2 || StoulTwo(t[0], t[1]) == None || AddrFrom(t[2..], false, acc + [a[0]]) == None
    ensures |t| >= 2 ==> StoulTwo(t[0], t[1]) == Some(a[0])
  {
    NarrowOctetInFront(a[0], AddrTextFrom(a[1..], false));
    if |a| > 1 {
      var tail := OctetText(a[1]) + AddrTextFrom(a[2..], false);
      assert a[1..][1..] == a[2..];
      assert AddrTextFrom(a[1..], false) == "." + tail;
      if a[1] < 16 {
        NarrowOctetInFront(a[1], AddrTextFrom(a[2..], false));
      } else {
        WideOctetInFront(a[1], AddrTextFrom(a[2..], false));
      }
      assert t[1] == '.' && t[2..] == tail;
    }
  }

  lemma AddrRoundTrip(a: Addr)
    ensures AddrFrom(AddrText(a), true, []) == (if Wide(a) then Some(a) else None)
  {
    if Wide(a) {
      WideAddrIsRead(a, true, []);
      assert [] + a == a;
    } else {
      NarrowAddrIsRejected(a, true, []);
    }
  }

  predicate AddrChars(s: string) {
    forall c :: c in s ==> IsHex(c) || c == '.'
  }

  lemma {:induction false} AddrTextChars(a: Addr, first: bool)
    ensures AddrChars(AddrTextFrom(a, first))
    decreases |a|
  {
    if a != [] {
      AddrTextChars(a[1..], false);
      if a[0] < 16 {
        HexDigitValue(a[0]);
      } else {
        HexDigitValue(a[0] / 16);
        HexDigitValue(a[0] % 16);
      }
    }
  }

  lemma {:induction false} AddrTextEmpty(a: Addr)
    ensures AddrText(a) == "" <==> a == []
  {
  }

  // ---------- pairs ----------

  /** The arrow is the only place in a pair's text where a dash can be. */
  lemma PairSplits(src: Addr, dest: Addr)
    ensures Split(ConnText(src, dest), " -> ") == [AddrText(src), AddrText(dest)]
  {
    var tokens := [AddrText(src), AddrText(dest)];
    AddrTextChars(src, true);
    AddrTextChars(dest, true);
    assert " -> "[1] == '-' && !IsHex('-');
    MarkedTokensSeparable(tokens, " -> ", 1);
    SplitOfJoin(tokens, " -> ");
    assert tokens[1..] == [AddrText(dest)];
    assert Join(tokens, " -> ") == ConnText(src, dest);
  }

  lemma ConnRead(src: Addr, dest: Addr)
    ensures ReadPair(ConnText(src, dest), ReadAddr)
         == if Wide(src) && Wide(dest) then Read((src, dest)) else Rejected
  {
    PairSplits(src, dest);
    AddrRoundTrip(src);
    AddrRoundTrip(dest);
  }

  lemma SwitchRead(src: Addr, dest: Addr)
    ensures ReadPair(ConnText(src, dest), ReadNetId) == Read((src, dest)) <==> src == [] && dest == []
    ensures ReadPair(ConnText(src, dest), ReadNetId).Read? ==> src == [] && dest == []
  {
    PairSplits(src, dest);
    AddrTextEmpty(src);
    AddrTextEmpty(dest);
  }

  // ---------- actions ----------

  lemma ActionRead(a: Action)
    requires ActionText(a).Some?
    ensures ReadAction(ActionText(a).value).Read? ==> Printable(a)
    ensures Printable(a) ==> ReadAction(ActionText(a).value) == Read(a)
  {
    var s := ActionText(a).value;
    match a
    case Endpoint(kind) =>
      assert s[9..] == if kind == START then "start" else "end";
    case LocalConn(src, dest) =>
      assert s[5..] == ConnText(src, dest) && s[0] == 'c';
      ConnRead(src, dest);
    case NetSwitch(src, dest) =>
      assert s[7..] == ConnText(src, dest) && s[0] == 's';
      SwitchRead(src, dest);
  }

  lemma ConnTextChars(src: Addr, dest: Addr)
    ensures ';' !in ConnText(src, dest)
  {
    AddrTextChars(src, true);
    AddrTextChars(dest, true);
    assert !IsHex(';');
  }

  lemma ActionTextChars(a: Action)
    requires ActionText(a).Some?
    ensures ';' !in ActionText(a).value
  {
    match a
    case Endpoint(_) =>
    case LocalConn(src, dest) => ConnTextChars(src, dest);
    case NetSwitch(src, dest) => ConnTextChars(src, dest);
  }

  // ---------- lists ----------

  lemma ListSplits(list: seq<Action>)
    requires HasText(list) && list != []
    ensures Split(Join(Texts(list), " ; "), " ; ") == Texts(list)
  {
    forall t | t in Texts(list) ensures ';' !in t {
      var i :| 0 <= i < |list| && Texts(list)[i] == t;
      assert list[i] in list;
      ActionTextChars(list[i]);
    }
    assert " ; "[1] == ';';
    MarkedTokensSeparable(Texts(list), " ; ", 1);
    SplitOfJoin(Texts(list), " ; ");
  }

  lemma {:induction false} AllRead(list: seq<Action>)
    requires HasText(list)
    ensures ReadAll(Texts(list)).Read? ==> forall a :: a in list ==> Printable(a)
    ensures (forall a :: a in list ==> Printable(a)) ==> ReadAll(Texts(list)) == Read(list)
  {
    if list != [] {
      var rest := list[1..];
      assert HasText(rest);
      assert Texts(list)[1..] == Texts(rest);
      assert list[0] in list && list == [list[0]] + rest;
      ActionRead(list[0]);
      AllRead(rest);
    }
  }

  /**
    A list is printed and read back as itself exactly when it is not empty, its endpoints are starts
    and ends, no octet of a hop's address is below 16, and its switches name no network.
   */
  lemma TextRoundTrip(list: seq<Action>)
    ensures ListText(list).Some? && ReadList(ListText(list).value) == Read(list)
       <==> list != [] && forall a :: a in list ==> Printable(a)
  {
    if list == [] {
      EmptyTextIsRejected();
    } else if HasText(list) {
      ListSplits(list);
      AllRead(list);
    } else {
      var a :| a in list && ActionText(a).None?;
      assert !Printable(a);
    }
  }

  lemma EmptyTextIsRejected()
    ensures ReadList("") == Rejected
  {
    assert Find("", " ; ") == -1;
    assert Split("", " ; ") == [""];
  }
}
