/** Which strings are read as paths at all, and as which. */
module PtpTextRead {
  import opened Bytes
  import opened SplitStr
  import opened PtpHeader
  import opened PtpText
  import opened PtpTextExact

  lemma JoinOfTwo(t: string, u: string, d: string)
    ensures Join([t, u], d) == t + d + u
  {
    assert [t, u][1..] == [u];
  }

  /** Two texts that the arrow cuts apart. */
  ghost predicate IsPair(s: string, t: string, u: string) {
    s == t + " -> " + u && Separable([t, u], " -> ")
  }

  lemma PairReadIff(s: string, reader: string -> FromText<Addr>, x: Addr, y: Addr)
    ensures ReadPair(s, reader) == Read((x, y))
       <==> exists t, u :: IsPair(s, t, u) && reader(t) == Read(x) && reader(u) == Read(y)
  {
    hide Separable, Split;
    var d := " -> ";
    if ReadPair(s, reader) == Read((x, y)) {
      var parts := Split(s, d);
      JoinOfSplit(s, d);
      SplitOfJoin(parts, d);
      assert parts == [parts[0], parts[1]];
      JoinOfTwo(parts[0], parts[1], d);
      assert IsPair(s, parts[0], parts[1]);
    }
    if t, u :| IsPair(s, t, u) && reader(t) == Read(x) && reader(u) == Read(y) {
      JoinOfTwo(t, u, d);
      SplitOfJoin([t, u], d);
    }
  }

  ghost predicate IsConn(s: string, x: Addr, y: Addr) {
    exists t, u :: IsPair(s, t, u) && AddrFrom(t, true, []) == Some(x) && AddrFrom(u, true, []) == Some(y)
  }

  lemma ConnReadIff(s: string, x: Addr, y: Addr)
    ensures ReadPair(s, ReadAddr) == Read((x, y)) <==> IsConn(s, x, y)
  {
    hide IsPair, ReadPair, AddrFrom;
    PairReadIff(s, ReadAddr, x, y);
    if IsConn(s, x, y) {
      var t, u :| IsPair(s, t, u) && AddrFrom(t, true, []) == Some(x) && AddrFrom(u, true, []) == Some(y);
      assert ReadAddr(t) == Read(x) && ReadAddr(u) == Read(y);
    }
    if t, u :| IsPair(s, t, u) && ReadAddr(t) == Read(x) && ReadAddr(u) == Read(y) {
      assert AddrFrom(t, true, []) == Some(x) && AddrFrom(u, true, []) == Some(y);
    }
  }

  lemma SwitchReadIff(s: string, x: Addr, y: Addr)
    ensures ReadPair(s, ReadNetId) == Read((x, y)) <==> s == " -> " && x == [] && y == []
  {
    hide Separable, ReadPair, ReadNetId;
    PairReadIff(s, ReadNetId, x, y);
    if t, u :| IsPair(s, t, u) && ReadNetId(t) == Read(x) && ReadNetId(u) == Read(y) {
      NetIdDecided(t, 1);
      NetIdDecided(u, 1);
    }
    if s == " -> " && x == [] && y == [] {
      NetIdDecided("", 1);
      LoneArrow();
      assert s == "" + " -> " + "";
      assert IsPair(s, "", "");
    }
  }

  lemma LoneArrow()
    ensures Separable(["", ""], " -> ")
  {
    PairSplits([], []);
    JoinOfTwo("", "", " -> ");
    assert AddrText([]) == "";
    SplitOfJoin(["", ""], " -> ");
  }

  /** For all strings: which are actions, and which ones. */
  ghost predicate IsAction(s: string, a: Action) {
    match a
    case Endpoint(kind) => (kind == 0 && s == "endpoint " + "start") || (kind == 1 && s == "endpoint " + "end")
    case LocalConn(x, y) => exists pair :: s == "conn " + pair && IsConn(pair, x, y)
    case NetSwitch(x, y) => s == "switch " + " -> " && x == [] && y == []
  }

  lemma ActionReadIff(s: string, a: Action)
    ensures ReadAction(s) == Read(a) <==> IsAction(s, a)
  {
    hide IsConn, ReadPair;
    if "endpoint " <= s {
      assert s == "endpoint " + s[9..] && s[0] == 'e';
    } else if "conn " <= s {
      assert s == "conn " + s[5..] && s[0] == 'c';
      if a.LocalConn? {
        ConnReadIff(s[5..], a.srcAddr, a.destAddr);
        assert forall pair :: s == "conn " + pair ==> pair == s[5..];
      }
    } else if "switch " <= s {
      assert s == "switch " + s[7..] && s[0] == 's';
      if a.NetSwitch? {
        SwitchReadIff(s[7..], a.srcId, a.destId);
        assert s == "switch " + " -> " ==> s[7..] == " -> ";
      }
    }
  }

  // ---------- lists ----------

  ghost predicate AreActions(parts: seq<string>, list: seq<Action>) {
    |parts| == |list| && forall i :: 0 <= i < |parts| ==> IsAction(parts[i], list[i])
  }

  lemma {:induction false} AllReadIff(parts: seq<string>, list: seq<Action>)
    ensures ReadAll(parts) == Read(list) <==> AreActions(parts, list)
    decreases |parts|
  {
    hide ReadAction, IsAction;
    if parts != [] && list != [] {
      ActionReadIff(parts[0], list[0]);
      AllReadIff(parts[1..], list[1..]);
      assert list == [list[0]] + list[1..];
      ConsActions(parts, list);
    }
  }

  lemma ConsActions(parts: seq<string>, list: seq<Action>)
    requires parts != [] && list != []
    ensures AreActions(parts, list) <==> IsAction(parts[0], list[0]) && AreActions(parts[1..], list[1..])
  {
    hide IsAction;
    if AreActions(parts[1..], list[1..]) && IsAction(parts[0], list[0]) {
      forall i | 0 <= i < |parts| ensures IsAction(parts[i], list[i]) {
        assert i > 0 ==> parts[i] == parts[1..][i - 1] && list[i] == list[1..][i - 1];
      }
    }
  }

  /** For all strings: a path is read of the texts of its actions, which the semicolons cut apart. */
  lemma ListReadIff(s: string, list: seq<Action>)
    ensures ReadList(s) == Read(list)
       <==> exists parts :: |parts| > 0 && Separable(parts, " ; ") && s == Join(parts, " ; ") && AreActions(parts, list)
  {
    hide Separable, Split, Join, ReadAll, AreActions;
    var d := " ; ";
    if ReadList(s) == Read(list) {
      var parts := Split(s, d);
      JoinOfSplit(s, d);
      SplitOfJoin(parts, d);
      AllReadIff(parts, list);
    }
    if parts :| |parts| > 0 && Separable(parts, " ; ") && s == Join(parts, " ; ") && AreActions(parts, list) {
      SplitOfJoin(parts, d);
      AllReadIff(parts, list);
    }
  }
}
