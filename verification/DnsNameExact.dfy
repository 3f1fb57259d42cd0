/** Which names come back when what was written for them is read out of a packet. */
module DnsNameExact {
  import opened Bytes
  import opened DnsName
  import opened DnsExpand

  /** `Beyond`: the read leaves the packet or the name. `Endless`: the pointer chase never ends. */
  datatype Reading<+T> = Got(value: T, count: nat) | Beyond | Endless

  /** Expand, then decode. */
  function NameAt(p: seq<byte>, at: nat): Reading<seq<byte>> {
    match ReadName(p, at)
    case Outside => Beyond
    case Loops => Endless
    case Raw(raw, count) =>
      match Decode(raw)
      case None => Beyond
      case Some(text) => Got(text, count)
  }

  method ReadNameAt(p: seq<byte>, at: nat) returns (r: Reading<seq<byte>>)
    requires NameAt(p, at) != Endless
    ensures r == NameAt(p, at)
  {
    var raw := ExtractEncodedName(p, at);
    if raw.Outside? {
      return Beyond;
    }
    var text := DecodeDnsName(raw.bytes);
    r := if text.None? then Beyond else Got(text.value, raw.count);
  }

  /** Some bytes that can stand in a name, and a NUL. */
  predicate Terminated(s: seq<byte>) {
    |s| > 0 && s[|s| - 1] == NUL && Plain(s[..|s| - 1])
  }

  predicate Short(labels: seq<Label>) {
    forall l :: l in labels ==> |l| < 0xC0
  }

  predicate NoneEmpty(labels: seq<Label>) {
    forall l :: l in labels ==> l != []
  }

  /** One or more labels of 1 to 191 bytes, each byte 1 to 191, then a NUL. */
  predicate GoodName(text: seq<byte>) {
    && Terminated(text)
    && Short(LabelsOf(text[..|text| - 1]))
    && NoneEmpty(LabelsOf(text[..|text| - 1]))
  }

  // ---------- what can be read at all ----------

  lemma {:induction false} RawIsTerminated(p: seq<byte>, pos: nat, steps: nat)
    requires Read(p, pos, steps).Raw?
    ensures Terminated(Read(p, pos, steps).bytes)
    decreases steps
  {
    if p[pos] != NUL {
      if p[pos] < 0xC0 {
        RawIsTerminated(p, pos + 1, steps - 1);
        var rest := Read(p, pos + 1, steps - 1).bytes;
        PlainParts([p[pos]], rest[..|rest| - 1]);
        assert ([p[pos]] + rest)[..|rest|] == [p[pos]] + rest[..|rest| - 1];
      } else {
        RawIsTerminated(p, Target(p, pos), steps - 1);
      }
    }
  }

  lemma {:induction false} LabelsOfConcat(a: seq<byte>, b: seq<byte>)
    ensures LabelsOf(a + [DOT] + b) == LabelsOf(a) + LabelsOf(b)
  {
    var body := a + [DOT] + b;
    if a == [] {
      assert body[1..] == b;
    } else {
      assert body[1..] == a[1..] + [DOT] + b;
      LabelsOfConcat(a[1..], b);
      LabelsCons(a[0], LabelsOf(a[1..]), LabelsOf(b));
    }
  }

  lemma LabelsCons(c: byte, r: seq<Label>, t: seq<Label>)
    requires |r| > 0
    ensures [[]] + (r + t) == [[]] + r + t
    ensures [[c] + (r + t)[0]] + (r + t)[1..] == [[c] + r[0]] + r[1..] + t
  {
  }

  lemma {:induction false} LabelsAreNoLonger(body: seq<byte>)
    ensures forall l :: l in LabelsOf(body) ==> |l| <= |body|
  {
    if body != [] {
      LabelsAreNoLonger(body[1..]);
      var r := LabelsOf(body[1..]);
      assert r[0] in r;
    }
  }

  /** Appending a label of fewer than 192 bytes, which may have dots of its own. */
  lemma ShortAppended(res: seq<byte>, part: seq<byte>)
    requires Plain(res) && Short(LabelsOf(res)) && Plain(part) && |part| < 0xC0
    ensures Plain(Dotted(res) + part) && Short(LabelsOf(Dotted(res) + part))
  {
    LabelsAreNoLonger(part);
    if res == [] {
      assert Dotted(res) + part == part;
    } else {
      LabelsOfConcat(res, part);
      PlainParts(res, [DOT]);
      PlainParts(res + [DOT], part);
    }
  }

  lemma TerminatedSplit(wire: seq<byte>, at: nat)
    requires Terminated(wire) && at < |wire|
    ensures Plain(wire[..at]) && Terminated(wire[at..])
  {
    var q := wire[..|wire| - 1];
    assert q == wire[..at] + wire[at..|wire| - 1];
    PlainParts(wire[..at], wire[at..|wire| - 1]);
    assert wire[at..][..|wire| - at - 1] == wire[at..|wire| - 1];
  }

  /** What decoding gives back ends in a NUL and has no label of 192 bytes or more. */
  lemma {:induction false} DecodedIsShort(wire: seq<byte>, res: seq<byte>)
    requires Terminated(wire) && Plain(res) && Short(LabelsOf(res))
    requires DecodeFrom(wire, res).Some?
    ensures var t := DecodeFrom(wire, res).value; Terminated(t) && Short(LabelsOf(t[..|t| - 1]))
    decreases |wire|
  {
    hide LabelsOf, Short, DecodeFrom, Plain, Dotted;
    if wire[0] == NUL {
      NulEnds(wire, res);
    } else if 1 + wire[0] as int < |wire| {
      DecodeOnce(wire, res);
      PartDecoded(wire, res);
      DecodedIsShort(wire[1 + wire[0] as int..], Dotted(res) + wire[1..1 + wire[0] as int]);
    } else {
      DecodeOnce(wire, res);
      DecodedToTheEnd(wire, res);
    }
  }

  lemma NulEnds(wire: seq<byte>, res: seq<byte>)
    requires |wire| > 0 && wire[0] == NUL && Plain(res)
    ensures DecodeFrom(wire, res) == Some(res + [NUL]) && Terminated(res + [NUL])
    ensures (res + [NUL])[..|res|] == res
  {
  }

  lemma PartDecoded(wire: seq<byte>, res: seq<byte>)
    requires |wire| > 0 && wire[0] != NUL && 1 + wire[0] as int < |wire|
    requires Terminated(wire) && Plain(res) && Short(LabelsOf(res))
    ensures Terminated(wire[1 + wire[0] as int..])
    ensures var now := Dotted(res) + wire[1..1 + wire[0] as int]; Plain(now) && Short(LabelsOf(now))
  {
    hide LabelsOf, Short, Dotted;
    var len: nat := wire[0];
    assert wire[0] in wire[..|wire| - 1];
    TerminatedSplit(wire, 1 + len);
    assert wire[..1 + len] == [wire[0]] + wire[1..1 + len];
    PlainParts([wire[0]], wire[1..1 + len]);
    ShortAppended(res, wire[1..1 + len]);
  }

  lemma DecodeOnce(wire: seq<byte>, res: seq<byte>)
    requires |wire| > 0 && wire[0] != NUL
    ensures DecodeFrom(wire, res)
         == if |wire| < 1 + wire[0] as int then None
            else DecodeFrom(wire[1 + wire[0] as int..], Dotted(res) + wire[1..1 + wire[0] as int])
  {
  }

  /** A last length that covers the NUL as well. */
  lemma DecodedToTheEnd(wire: seq<byte>, res: seq<byte>)
    requires Terminated(wire) && Plain(res) && Short(LabelsOf(res))
    requires wire[0] != NUL && |wire| <= 1 + wire[0] as int && DecodeFrom(wire, res).Some?
    ensures var t := DecodeFrom(wire, res).value; Terminated(t) && Short(LabelsOf(t[..|t| - 1]))
  {
    var len: nat := wire[0];
    assert wire[0] in wire[..|wire| - 1];
    var part := wire[1..len];
    assert wire[..len] == [wire[0]] + part;
    PlainParts([wire[0]], part);
    ShortAppended(res, part);
    var t := Dotted(res) + wire[1..1 + len];
    assert wire[1 + len..] == [];
    assert DecodeFrom(wire, res) == Some(t);
    assert t[..|t| - 1] == Dotted(res) + part;
  }

  lemma ReadNamesAreShort(p: seq<byte>, at: nat)
    requires NameAt(p, at).Got?
    ensures var t := NameAt(p, at).value; Terminated(t) && Short(LabelsOf(t[..|t| - 1]))
  {
    RawIsTerminated(p, at, |p| + 1);
    DecodedIsShort(ReadName(p, at).bytes, []);
  }

  // ---------- agreement with RFC 1035, section 4.1.4 ----------

  lemma {:induction false} TerminatedIsPlain(labels: seq<Label>)
    requires Terminated(Wire(labels)) && LengthsFit(labels)
    ensures AllPlain(labels)
  {
    if labels != [] {
      hide Plain, Wire;
      var l, more := labels[0], labels[1..];
      var w, rest := Wire(labels), Wire(more);
      assert l in labels && [l] + more == labels;
      assert forall x :: x in more ==> x in labels;
      WireCons(l, more);
      WireIsNotEmpty(more);
      TerminatedSplit(w, 1 + |l|);
      assert w[..1 + |l|] == [|l|] + l && w[1 + |l|..] == rest;
      PlainParts([|l|], l);
      TerminatedIsPlain(more);
      FirstPlain(l, more);
    }
  }

  lemma WireIsNotEmpty(labels: seq<Label>)
    ensures Wire(labels) != []
  {
  }

  /**
    For a name whose pointers go backwards, the chase gives the labels the pointers stand for, and the
    count of the bytes in place, exactly when no byte of those labels is zero or above 0xBF; the text
    decoded from it is then the labels joined by dots.
   */
  lemma ExpandsIffPlain(p: seq<byte>, pos: nat)
    requires CompressedName(p, pos, pos)
    ensures var labels := Labels(p, pos, pos);
      && (ReadName(p, pos) == Raw(Wire(labels), Occupied(p, pos, pos)) <==> AllPlain(labels))
      && (AllPlain(labels) ==> NameAt(p, pos) == Got(JoinDots(labels) + [NUL], Occupied(p, pos, pos)))
  {
    hide Wire, AllPlain, Read;
    var labels := Labels(p, pos, pos);
    if AllPlain(labels) {
      ReadsLabels(p, pos, pos);
      DecodesToJoin(labels);
    } else if ReadName(p, pos) == Raw(Wire(labels), Occupied(p, pos, pos)) {
      RawIsTerminated(p, pos, |p| + 1);
      TerminatedIsPlain(labels);
    }
  }

  // ---------- reading what was written ----------

  /** A lone NUL is the whole name. */
  lemma NulIsRead(p: seq<byte>, r: nat)
    requires r < |p| && p[r] == 0
    ensures NameAt(p, r) == Got([NUL], 1)
  {
    var raw: seq<byte> := [NUL];
    assert ReadName(p, r) == Raw(raw, 1);
    assert raw[0] == NUL && [] + [NUL] == raw;
    assert DecodeFrom(raw, []) == Some(raw);
  }

  lemma {:induction false} WireIsTerminated(labels: seq<Label>)
    requires Short(labels) && NoneEmpty(labels) && Plain(JoinDots(labels))
    ensures Terminated(Wire(labels))
  {
    hide Plain, JoinDots, Wire;
    NothingIsTerminated();
    if labels != [] {
      var l, more := labels[0], labels[1..];
      assert l in labels;
      assert forall x :: x in more ==> x in labels;
      assert [l] + more == labels;
      PlainJoin(l, more);
      WireIsTerminated(more);
      WireCons(l, more);
      LabelTerminated(l, Wire(more));
    }
  }

  lemma NothingIsTerminated()
    ensures Terminated(Wire([]))
  {
  }

  lemma PlainJoin(l: Label, more: seq<Label>)
    requires Plain(JoinDots([l] + more))
    ensures Plain(l) && Plain(JoinDots(more))
  {
    assert ([l] + more)[1..] == more;
    if more != [] {
      PlainParts(l + [DOT], JoinDots(more));
      PlainParts(l, [DOT]);
    }
  }

  lemma LabelTerminated(l: Label, rest: seq<byte>)
    requires 0 < |l| < 0xC0 && Plain(l) && Terminated(rest)
    ensures Terminated([|l|] + l + rest)
  {
    hide Plain;
    var w := [|l|] + l + rest;
    PlainParts([|l|] + l, rest[..|rest| - 1]);
    PlainParts([|l|], l);
    PlainByte(|l|);
    assert w[..|w| - 1] == [|l|] + l + rest[..|rest| - 1];
  }

  lemma PlainByte(b: byte)
    requires 0 < b < 0xC0
    ensures Plain([b])
  {
  }

  /** The labels before the first empty one. */
  function UpToEmpty(labels: seq<Label>): (k: nat)
    ensures k <= |labels| && NoneEmpty(labels[..k])
    ensures k < |labels| ==> labels[k] == []
  {
    if labels == [] || labels[0] == [] then 0
    else
      var k := UpToEmpty(labels[1..]);
      assert labels[..k + 1] == [labels[0]] + labels[1..][..k];
      k + 1
  }

  /** An empty label puts a zero where the name's end would be, so a reader cannot tell. */
  lemma {:induction false} WireStopsAtEmpty(labels: seq<Label>, k: nat)
    requires k <= |labels| && (k < |labels| ==> labels[k] == [])
    ensures Wire(labels[..k]) <= Wire(labels)
  {
    if k > 0 {
      WireStopsAtEmpty(labels[1..], k - 1);
      assert labels[..k][1..] == labels[1..][..k - 1];
      WireCons(labels[0], labels[1..][..k - 1]);
      WireCons(labels[0], labels[1..]);
      assert [labels[0]] + labels[1..] == labels;
      assert [labels[0]] + labels[1..][..k - 1] == labels[..k];
    }
  }

  lemma {:induction false} PlainPrefix(labels: seq<Label>, k: nat)
    requires k <= |labels| && Plain(JoinDots(labels))
    ensures Plain(JoinDots(labels[..k]))
  {
    if 0 < k {
      var l, more := labels[0], labels[1..];
      if more != [] {
        PlainParts(l + [DOT], JoinDots(more));
        PlainParts(l, [DOT]);
        PlainPrefix(more, k - 1);
        assert labels[..k][1..] == more[..k - 1];
        PlainParts(l + [DOT], JoinDots(more[..k - 1]));
      }
    }
  }

  /** A terminated run of bytes is read as it stands. */
  lemma ReadsTerminated(p: seq<byte>, at: nat, raw: seq<byte>)
    requires at + |raw| <= |p| && p[at..at + |raw|] == raw && Terminated(raw)
    ensures ReadName(p, at) == Raw(raw, |raw|)
  {
    var end := at + |raw| - 1;
    assert p[at..end] == raw[..|raw| - 1];
    assert p[end] == raw[|raw| - 1];
    ReadRun(p, at, end, 1);
    assert p[at..end] + [NUL] == raw;
    StepsSuffice(p, at, end - at + 1);
  }

  /** Labels that can be told apart from lengths and pointers are read as far as the first empty one. */
  lemma ReadsUpToEmpty(p: seq<byte>, at: nat, labels: seq<Label>)
    requires at + |Wire(labels)| <= |p| && p[at..at + |Wire(labels)|] == Wire(labels)
    requires Short(labels) && Plain(JoinDots(labels))
    ensures var read := labels[..UpToEmpty(labels)];
      NameAt(p, at) == Got(JoinDots(read) + [NUL], |Wire(read)|)
  {
    var k := UpToEmpty(labels);
    var read := labels[..k];
    WireStopsAtEmpty(labels, k);
    PlainPrefix(labels, k);
    PrefixFits(labels, k);
    WireIsTerminated(read);
    var raw := Wire(read);
    assert p[at..at + |raw|] == p[at..at + |Wire(labels)|][..|raw|];
    ReadsTerminated(p, at, raw);
    DecodesToJoin(read);
  }

  lemma DecodesToJoin(labels: seq<Label>)
    requires LengthsFit(labels)
    ensures Decode(Wire(labels)) == Some(JoinDots(labels) + [NUL])
  {
    DecodeOfWire(labels, [], []);
    assert Wire(labels) + [] == Wire(labels);
    assert Decoded([], labels) == JoinDots(labels);
  }

  lemma PrefixFits(labels: seq<Label>, k: nat)
    requires k <= |labels| && Short(labels) && NoneEmpty(labels[..k])
    ensures Short(labels[..k]) && LengthsFit(labels[..k])
  {
    forall l | l in labels[..k] ensures l in labels && 0 < |l| < 0xC0 {
    }
  }

  /** The labels a reader finds where `text` was written. */
  function Seen(text: seq<byte>): seq<Label>
    requires text != []
  {
    var labels := LabelsOf(text[..|text| - 1]);
    labels[..UpToEmpty(labels)]
  }

  lemma ReadsSeen(p: seq<byte>, at: nat, text: seq<byte>)
    requires at + |Encode(text)| <= |p| && p[at..at + |Encode(text)|] == Encode(text)
    requires Terminated(text) && Short(LabelsOf(text[..|text| - 1]))
    ensures NameAt(p, at) == Got(JoinDots(Seen(text)) + [NUL], |Wire(Seen(text))|)
  {
    JoinOfLabels(text[..|text| - 1]);
    ReadsUpToEmpty(p, at, LabelsOf(text[..|text| - 1]));
  }

  lemma GoodIsSeenWhole(text: seq<byte>)
    requires GoodName(text)
    ensures JoinDots(Seen(text)) + [NUL] == text && Wire(Seen(text)) == Encode(text)
  {
    var body := text[..|text| - 1];
    NoneEmptyIsWhole(LabelsOf(body));
    JoinOfLabels(body);
    assert body + [NUL] == text;
  }

  lemma {:induction false} NoneEmptyIsWhole(labels: seq<Label>)
    requires NoneEmpty(labels)
    ensures labels[..UpToEmpty(labels)] == labels
  {
    if labels != [] {
      assert labels[0] in labels;
      assert forall l :: l in labels[1..] ==> l in labels;
      NoneEmptyIsWhole(labels[1..]);
      assert UpToEmpty(labels[1..]) == |labels| - 1;
    }
  }

  /** Only all of its labels, or none where there is nothing, join to a text. */
  lemma SeenWholeIsGood(text: seq<byte>)
    requires Terminated(text) && Short(LabelsOf(text[..|text| - 1]))
    requires JoinDots(Seen(text)) + [NUL] == text
    ensures GoodName(text) || (text == [NUL] && Seen(text) == [])
  {
    var body := text[..|text| - 1];
    var seen := Seen(text);
    assert JoinDots(seen) == body;
    if seen != [] {
      JoinOfLabels(body);
      assert forall l :: l in seen ==> l in LabelsOf(body);
      LabelsOfJoin(seen);
      assert seen == LabelsOf(body);
    }
  }

  /** If what is read where a name was written is that name, then it was a good one, or the lone NUL. */
  lemma NameReadBack(p: seq<byte>, at: nat, text: seq<byte>)
    requires at + |Encode(text)| <= |p| && p[at..at + |Encode(text)|] == Encode(text)
    requires NameAt(p, at).Got? && NameAt(p, at).value == text
    ensures if GoodName(text) then NameAt(p, at).count == |Encode(text)|
            else text == [NUL] && NameAt(p, at).count == 1
  {
    ReadNamesAreShort(p, at);
    ReadsSeen(p, at, text);
    if GoodName(text) {
      GoodIsSeenWhole(text);
    } else {
      SeenWholeIsGood(text);
    }
  }

  lemma EncodedLength(text: seq<byte>)
    requires text != []
    ensures |Encode(text)| == |text| + 1
  {
    JoinOfLabels(text[..|text| - 1]);
    WireLength(LabelsOf(text[..|text| - 1]));
  }

  lemma {:induction false} WireLength(labels: seq<Label>)
    requires labels != []
    ensures |Wire(labels)| == |JoinDots(labels)| + 2
  {
    if |labels| > 1 {
      WireLength(labels[1..]);
    }
  }

  /** Exactly the good names come back, with the length they were written with. */
  lemma NameRoundTrip(p: seq<byte>, at: nat, text: seq<byte>)
    requires at + |Encode(text)| <= |p| && p[at..at + |Encode(text)|] == Encode(text)
    ensures NameAt(p, at) == Got(text, |Encode(text)|) <==> GoodName(text)
  {
    if GoodName(text) {
      ReadsSeen(p, at, text);
      GoodIsSeenWhole(text);
    } else if NameAt(p, at).Got? && NameAt(p, at).value == text {
      NameReadBack(p, at, text);
      EncodedLength(text);
    }
  }
}
