/** Domain names: the text form (dots, a final NUL) and the wire form (a length in front of each label). */
module DnsName {
  import opened Bytes

  const DOT: byte := 46
  const NUL: byte := 0

  type Label = seq<byte>

  // ---------- labels of a text ----------

  function LabelsOf(body: seq<byte>): (r: seq<Label>)
    ensures |r| > 0
  {
    if body == [] then [[]]
    else
      var r := LabelsOf(body[1..]);
      if body[0] == DOT then [[]] + r else [[body[0]] + r[0]] + r[1..]
  }

  function JoinDots(labels: seq<Label>): seq<byte> {
    if |labels| == 0 then []
    else if |labels| == 1 then labels[0]
    else labels[0] + [DOT] + JoinDots(labels[1..])
  }

  /** A length byte (cut to eight bits) and the label, for each label, and a NUL. */
  function Wire(labels: seq<Label>): seq<byte> {
    if labels == [] then [NUL]
    else
      var len := |labels[0]|;
      [len % 0x100] + labels[0] + Wire(labels[1..])
  }

  /** The last byte of the text is taken for its NUL, whatever it is. */
  function Encode(text: seq<byte>): seq<byte> {
    if text == [] then [NUL] else Wire(LabelsOf(text[..|text| - 1]))
  }

  lemma Prepended(b: byte, first: Label, more: seq<Label>)
    ensures [[b] + ([first] + more)[0]] + ([first] + more)[1..] == [[b] + first] + more
  {
    assert ([first] + more)[1..] == more;
  }

  lemma {:induction false} LabelsOfDotFree(part: Label)
    requires DOT !in part
    ensures LabelsOf(part) == [part]
  {
    if part != [] {
      LabelsOfDotFree(part[1..]);
      Prepended(part[0], part[1..], []);
      assert [part[0]] + part[1..] == part;
    }
  }

  lemma {:induction false} LabelsOfDot(part: Label, rest: seq<byte>)
    requires DOT !in part
    ensures LabelsOf(part + [DOT] + rest) == [part] + LabelsOf(rest)
  {
    var body := part + [DOT] + rest;
    if part == [] {
      assert body[1..] == rest;
    } else {
      assert body[1..] == part[1..] + [DOT] + rest;
      LabelsOfDot(part[1..], rest);
      Prepended(part[0], part[1..], LabelsOf(rest));
      assert [part[0]] + part[1..] == part;
    }
  }

  lemma {:induction false} JoinOfLabels(body: seq<byte>)
    ensures JoinDots(LabelsOf(body)) == body
    ensures forall l :: l in LabelsOf(body) ==> DOT !in l
  {
    if body != [] {
      var r := LabelsOf(body[1..]);
      JoinOfLabels(body[1..]);
      if body[0] == DOT {
        assert ([[]] + r)[1..] == r;
      } else {
        assert ([[body[0]] + r[0]] + r[1..])[1..] == r[1..];
      }
    }
  }

  /** A text of two parts, `.` (46) between them and a NUL behind: RFC 1035, section 3.1. */
  lemma TwoPartsOnTheWire(x: Label, y: Label)
    requires 46 !in x && 46 !in y
    ensures Encode(x + [46] + y + [0]) == [|x| % 0x100] + x + [|y| % 0x100] + y + [0]
  {
    hide LabelsOf, Wire;
    var text := x + [46] + y + [0];
    assert text[..|text| - 1] == x + [46] + y;
    LabelsOfDot(x, y);
    LabelsOfDotFree(y);
    WireCons(x, [y]);
    WireCons(y, []);
    WireOfNone();
    assert [y] + [] == [y];
  }

  lemma WireOfNone()
    ensures Wire([]) == [0]
  {
  }

  lemma {:induction false} LabelsOfJoin(labels: seq<Label>)
    requires |labels| > 0 && forall l :: l in labels ==> DOT !in l
    ensures LabelsOf(JoinDots(labels)) == labels
  {
    if |labels| == 1 {
      LabelsOfDotFree(labels[0]);
    } else {
      LabelsOfJoin(labels[1..]);
      LabelsOfDot(labels[0], JoinDots(labels[1..]));
    }
  }

  // ---------- encoding ----------

  /** What is still to be encoded when the current label began at `last`. */
  ghost function Remaining(text: seq<byte>, last: nat): seq<byte>
    requires last <= |text|
  {
    if last < |text| then Wire(LabelsOf(text[last..|text| - 1])) else [NUL]
  }

  method EncodeDnsName(text: seq<byte>) returns (encoded: seq<byte>)
    ensures encoded == Encode(text)
  {
    hide LabelsOf, Wire;
    encoded := [];
    var last, curr := 0, 0;
    NothingEncoded(text);
    while curr < |text|
      invariant last <= curr <= |text| && (curr == |text| ==> last == |text|)
      invariant DOT !in text[last..curr]
      invariant encoded + Remaining(text, last) == Encode(text)
    {
      if text[curr] == DOT || curr == |text| - 1 {
        LabelEnds(encoded, text, last, curr);
        encoded := PushLabel(encoded, text, last, curr);
        curr := curr + 1;
        last := curr;
      } else {
        assert text[last..curr + 1] == text[last..curr] + [text[curr]];
        curr := curr + 1;
      }
    }
    encoded := encoded + [NUL];
  }

  /** One label: its length, pushed into a byte, and its bytes. */
  method PushLabel(encoded: seq<byte>, text: seq<byte>, last: nat, curr: nat) returns (r: seq<byte>)
    requires last <= curr <= |text|
    ensures r == encoded + [(curr - last) % 0x100] + text[last..curr]
  {
    var len := curr - last;
    r := encoded + [len % 0x100];
    ghost var before := r;
    for j := last to curr
      invariant r == before + text[last..j]
    {
      r := r + [text[j]];
    }
  }

  lemma NothingEncoded(text: seq<byte>)
    ensures [] + Remaining(text, 0) == Encode(text)
  {
    if text != [] {
      assert text[0..|text| - 1] == text[..|text| - 1];
    }
  }

  lemma LabelEnds(encoded: seq<byte>, text: seq<byte>, last: nat, curr: nat)
    requires last <= curr < |text| && DOT !in text[last..curr]
    requires text[curr] == DOT || curr == |text| - 1
    ensures encoded + Remaining(text, last)
         == encoded + [(curr - last) % 0x100] + text[last..curr] + Remaining(text, curr + 1)
  {
    var part, left := text[last..curr], Remaining(text, curr + 1);
    LabelEndsWith(text, last, curr);
    ConcatAssoc(encoded, [|part| % 0x100], part);
    ConcatAssoc(encoded, [|part| % 0x100] + part, left);
  }

  lemma LabelEndsWith(text: seq<byte>, last: nat, curr: nat)
    requires last <= curr < |text| && DOT !in text[last..curr]
    requires text[curr] == DOT || curr == |text| - 1
    ensures Remaining(text, last) == [(curr - last) % 0x100] + text[last..curr] + Remaining(text, curr + 1)
  {
    var part := text[last..curr];
    if curr == |text| - 1 {
      LabelsOfDotFree(part);
      WireCons(part, []);
      assert [part] + [] == [part];
    } else {
      var rest := text[curr + 1..|text| - 1];
      assert text[last..|text| - 1] == part + [DOT] + rest;
      LabelsOfDot(part, rest);
      WireCons(part, LabelsOf(rest));
    }
  }

  lemma WireCons(part: Label, more: seq<Label>)
    ensures Wire([part] + more) == [|part| % 0x100] + part + Wire(more)
  {
    assert ([part] + more)[1..] == more;
  }

  // ---------- decoding ----------

  /** A length that runs past the end of the name is read past its end: `None`. */
  function DecodeFrom(wire: seq<byte>, res: seq<byte>): Option<seq<byte>>
    decreases |wire|
  {
    if wire == [] then Some(res)
    else if wire[0] == NUL then Some(res + [NUL])
    else
      var len: nat := wire[0];
      if |wire| < 1 + len then None
      else DecodeFrom(wire[1 + len..], Dotted(res) + wire[1..1 + len])
  }

  function Dotted(res: seq<byte>): seq<byte> {
    if res == [] then [] else res + [DOT]
  }

  function Decode(wire: seq<byte>): Option<seq<byte>> {
    DecodeFrom(wire, [])
  }

  /** One round of the decoder at place i. */
  lemma DecodeRound(name: seq<byte>, i: nat, res: seq<byte>)
    requires i <= |name|
    ensures i == |name| ==> DecodeFrom(name[i..], res) == Some(res)
    ensures i < |name| && name[i] == NUL ==> DecodeFrom(name[i..], res) == Some(res + [NUL])
    ensures i < |name| && name[i] != NUL && |name| < i + 1 + name[i] as nat ==> DecodeFrom(name[i..], res) == None
    ensures i < |name| && name[i] != NUL && i + 1 + name[i] as nat <= |name| ==>
              var end := i + 1 + name[i] as nat;
              DecodeFrom(name[i..], res) == DecodeFrom(name[end..], Dotted(res) + name[i + 1..end])
  {
    if i < |name| && name[i] != NUL && i + 1 + name[i] as nat <= |name| {
      var len: nat := name[i];
      assert name[i..][1 + len..] == name[i + 1 + len..] && name[i..][1..1 + len] == name[i + 1..i + 1 + len];
    }
  }

  method DecodeDnsName(name: seq<byte>) returns (r: Option<seq<byte>>)
    ensures r == Decode(name)
  {
    hide DecodeFrom;
    assert name[0..] == name;
    var res: seq<byte> := [];
    var i := 0;
    while i < |name|
      invariant 0 <= i <= |name|
      invariant DecodeFrom(name[i..], res) == Decode(name)
    {
      DecodeRound(name, i, res);
      var len := name[i];
      if len == NUL {
        return Some(res + [NUL]);
      }
      ghost var start, dotted := i, Dotted(res);
      if res != [] {
        res := res + [DOT];
      }
      i := i + 1;
      var j := 0;
      while j < len
        invariant 0 <= j <= len && i == start + 1 + j <= |name|
        invariant res == dotted + name[start + 1..i]
      {
        if i >= |name| {
          return None;
        }
        assert name[start + 1..i + 1] == name[start + 1..i] + [name[i]];
        res := res + [name[i]];
        i := i + 1;
        j := j + 1;
      }
    }
    DecodeRound(name, i, res);
    return Some(res);
  }

  // ---------- decoding what was encoded ----------

  predicate LengthsFit(labels: seq<Label>) {
    forall l :: l in labels ==> 0 < |l| < 0x100
  }

  /** What decoding has to give when `labels` are still to come. */
  function Decoded(res: seq<byte>, labels: seq<Label>): seq<byte> {
    if labels == [] then res else Dotted(res) + JoinDots(labels)
  }

  lemma {:induction false} DecodeOfWire(labels: seq<Label>, rest: seq<byte>, res: seq<byte>)
    requires LengthsFit(labels)
    ensures DecodeFrom(Wire(labels) + rest, res) == Some(Decoded(res, labels) + [NUL])
    decreases |labels|
  {
    if labels != [] {
      var l, more := labels[0], labels[1..];
      assert l in labels;
      DecodeOfWire(more, rest, Dotted(res) + l);
      WireStep(l, more, rest, res);
      JoinStep(Dotted(res), l, more);
      assert [l] + more == labels;
    }
  }

  lemma WireStep(l: Label, more: seq<Label>, rest: seq<byte>, res: seq<byte>)
    requires 0 < |l| < 0x100
    ensures DecodeFrom(Wire([l] + more) + rest, res) == DecodeFrom(Wire(more) + rest, Dotted(res) + l)
  {
    hide Wire, DecodeFrom;
    WireCons(l, more);
    ConcatAssoc([|l|] + l, Wire(more), rest);
    DecodeStep(l, Wire(more) + rest, res);
  }

  lemma JoinStep(before: seq<byte>, l: Label, more: seq<Label>)
    requires l != []
    ensures Decoded(before + l, more) == before + JoinDots([l] + more)
  {
    assert ([l] + more)[1..] == more;
    if more != [] {
      ConcatAssoc(before, l, [DOT]);
      ConcatAssoc(before, l + [DOT], JoinDots(more));
    }
  }

  lemma DecodeStep(l: Label, rest: seq<byte>, res: seq<byte>)
    requires 0 < |l| < 0x100
    ensures DecodeFrom([|l|] + l + rest, res) == DecodeFrom(rest, Dotted(res) + l)
  {
    var w := [|l|] + l + rest;
    assert w[1..1 + |l|] == l && w[1 + |l|..] == rest;
  }

  // ---------- what can be decoded at all ----------

  /** What is decoded is the labels in front of a zero, or all of them if there is no zero; the text says which. */
  ghost predicate IsDecoding(wire: seq<byte>, labels: seq<Label>, res: seq<byte>, text: seq<byte>) {
    && LengthsFit(labels)
    && if Wire(labels) <= wire then text == Decoded(res, labels) + [NUL]
       else wire + [NUL] == Wire(labels) && text == Decoded(res, labels)
  }

  /** For all bytes: they are decoded exactly when they are labels with their lengths, and to these labels. */
  lemma DecodesIff(wire: seq<byte>, text: seq<byte>)
    ensures Decode(wire) == Some(text) <==> exists labels :: IsDecoding(wire, labels, [], text)
  {
    hide IsDecoding, DecodeFrom;
    if Decode(wire) == Some(text) {
      var labels := LabelsDecoded(wire, []);
    }
    if labels :| IsDecoding(wire, labels, [], text) {
      DecodingIsDecoded(wire, labels, text);
    }
  }

  lemma DecodingIsDecoded(wire: seq<byte>, labels: seq<Label>, text: seq<byte>)
    requires IsDecoding(wire, labels, [], text)
    ensures Decode(wire) == Some(text)
  {
    hide Wire, DecodeFrom;
    if Wire(labels) <= wire {
      assert wire == Wire(labels) + wire[|Wire(labels)|..];
      DecodeOfWire(labels, wire[|Wire(labels)|..], []);
    } else {
      DecodeOfRun(labels, wire, []);
    }
  }

  lemma {:induction false} LabelsDecoded(wire: seq<byte>, res: seq<byte>) returns (labels: seq<Label>)
    requires DecodeFrom(wire, res).Some?
    ensures IsDecoding(wire, labels, res, DecodeFrom(wire, res).value)
    decreases |wire|
  {
    hide IsDecoding, Dotted;
    if wire == [] || wire[0] == NUL {
      labels := [];
      NothingDecoded(wire, res);
    } else {
      var len: nat := wire[0];
      var l, tail := wire[1..1 + len], wire[1 + len..];
      var more := LabelsDecoded(tail, Dotted(res) + l);
      labels := [l] + more;
      assert wire == [|l|] + l + tail;
      OneMoreDecoded(l, tail, more, res);
    }
  }

  lemma NothingDecoded(wire: seq<byte>, res: seq<byte>)
    requires wire == [] || wire[0] == NUL
    ensures IsDecoding(wire, [], res, DecodeFrom(wire, res).value)
  {
    WireOfNone();
    assert wire != [] ==> wire[..1] == [NUL];
  }

  lemma OneMoreDecoded(l: Label, tail: seq<byte>, more: seq<Label>, res: seq<byte>)
    requires 0 < |l| < 0x100 && DecodeFrom(tail, Dotted(res) + l).Some?
    requires IsDecoding(tail, more, Dotted(res) + l, DecodeFrom(tail, Dotted(res) + l).value)
    ensures var wire := [|l|] + l + tail;
      DecodeFrom(wire, res).Some? && IsDecoding(wire, [l] + more, res, DecodeFrom(wire, res).value)
  {
    hide Wire, DecodeFrom, JoinDots;
    WireCons(l, more);
    DecodeStep(l, tail, res);
    JoinStep(Dotted(res), l, more);
    InFront(l, tail, Wire(more));
  }

  lemma InFront(l: Label, tail: seq<byte>, w: seq<byte>)
    requires 0 < |l| < 0x100
    ensures [|l|] + l + w <= [|l|] + l + tail <==> w <= tail
    ensures [|l|] + l + tail + [NUL] == [|l|] + l + w <==> tail + [NUL] == w
  {
    var f := [|l|] + l;
    assert (f + w)[|f|..] == w && (f + tail)[|f|..] == tail;
    ConcatAssoc(f, tail, [NUL]);
    assert (f + (tail + [NUL]))[|f|..] == tail + [NUL];
    if f + w <= f + tail {
      assert w == (f + tail)[|f|..|f| + |w|];
    }
    if w <= tail {
      assert (f + tail)[..|f + w|] == f + w;
    }
  }

  /** Labels with no zero behind. */
  lemma {:induction false} DecodeOfRun(labels: seq<Label>, wire: seq<byte>, res: seq<byte>)
    requires LengthsFit(labels) && wire + [NUL] == Wire(labels)
    ensures DecodeFrom(wire, res) == Some(Decoded(res, labels))
    decreases |labels|
  {
    hide Wire, DecodeFrom, JoinDots;
    if labels == [] {
      WireOfNone();
      assert |wire + [NUL]| == 1;
      DecodeRound(wire, 0, res);
      assert wire[0..] == wire;
    } else {
      var l, more := labels[0], labels[1..];
      assert l in labels && labels == [l] + more;
      WireCons(l, more);
      WireEnds(more);
      var tail := Wire(more)[..|Wire(more)| - 1];
      assert Wire(more) == tail + [NUL];
      CutLast(wire, [|l|] + l, tail);
      DecodeOfRun(more, tail, Dotted(res) + l);
      DecodeStep(l, tail, res);
      JoinStep(Dotted(res), l, more);
    }
  }

  lemma CutLast(wire: seq<byte>, f: seq<byte>, tail: seq<byte>)
    requires wire + [NUL] == f + (tail + [NUL])
    ensures wire == f + tail
  {
    assert (wire + [NUL])[..|wire|] == wire;
    assert (f + (tail + [NUL]))[..|f| + |tail|] == f + tail;
  }

  lemma {:induction false} WireEnds(labels: seq<Label>)
    ensures |Wire(labels)| > 0 && Wire(labels)[|Wire(labels)| - 1] == NUL
  {
    if labels != [] {
      WireEnds(labels[1..]);
    }
  }
}
