/**
  Reading an encoded name out of a packet, where two bytes whose first has both high bits set
  point to the place in the packet where the name goes on (RFC 1035, section 4.1.4).
 */
module DnsExpand {
  import opened Bytes
  import opened DnsName

  /**
    The name's bytes with every pointer replaced by what it points to, and how many bytes it takes
    up in place. `Outside`: the read leaves the packet. `Loops`: it does not stop within the steps
    given.
   */
  datatype Expansion = Raw(bytes: seq<byte>, count: nat) | Outside | Loops

  function Target(p: seq<byte>, pos: nat): nat
    requires pos + 1 < |p| && p[pos] >= 0xC0
  {
    var high: nat := p[pos] as int - 0xC0;
    high * 0x100 + p[pos + 1]
  }

  function Read(p: seq<byte>, pos: nat, steps: nat): Expansion
    decreases steps
  {
    if steps == 0 then Loops
    else if pos >= |p| then Outside
    else if p[pos] == NUL then Raw([NUL], 1)
    else if p[pos] < 0xC0 then Pushed(p[pos], Read(p, pos + 1, steps - 1))
    else if pos + 1 == |p| then Outside
    else Jumped(Read(p, Target(p, pos), steps - 1))
  }

  function Pushed(b: byte, rest: Expansion): Expansion {
    if rest.Raw? then Raw([b] + rest.bytes, 1 + rest.count) else rest
  }

  function Jumped(rest: Expansion): Expansion {
    if rest.Raw? then rest.(count := 2) else rest
  }

  /** One step more than the packet has bytes is enough; see `StepsSuffice`. */
  function ReadName(p: seq<byte>, pos: nat): Expansion {
    Read(p, pos, |p| + 1)
  }

  // ---------- a read that has not stopped after |p| + 1 steps never stops ----------

  lemma {:induction false} MoreSteps(p: seq<byte>, pos: nat, n: nat, m: nat)
    requires n <= m && Read(p, pos, n) != Loops
    ensures Read(p, pos, m) == Read(p, pos, n)
    decreases n
  {
    if pos < |p| && p[pos] != NUL {
      if p[pos] < 0xC0 {
        MoreSteps(p, pos + 1, n - 1, m - 1);
      } else if pos + 1 < |p| {
        MoreSteps(p, Target(p, pos), n - 1, m - 1);
      }
    }
  }

  ghost function Stopping(p: seq<byte>, n: nat): set<nat> {
    set pos: nat | pos < |p| && Read(p, pos, n) != Loops
  }

  lemma StoppingGrows(p: seq<byte>, n: nat)
    ensures Stopping(p, n) <= Stopping(p, n + 1)
  {
    forall pos | pos in Stopping(p, n) ensures pos in Stopping(p, n + 1) {
      MoreSteps(p, pos, n, n + 1);
    }
  }

  /** Once a step stops no new position, no later step does. */
  lemma {:induction false} StoppingIsStable(p: seq<byte>, n: nat, pos: nat, m: nat)
    requires 0 < n <= m && Stopping(p, n) == Stopping(p, n + 1)
    requires Read(p, pos, m) != Loops
    ensures Read(p, pos, n) != Loops
    decreases m
  {
    if pos < |p| && p[pos] != NUL && (p[pos] < 0xC0 || pos + 1 < |p|) {
      var next := if p[pos] < 0xC0 then pos + 1 else Target(p, pos);
      if m > n {
        StoppingIsStable(p, n, next, m - 1);
        assert pos in Stopping(p, n + 1);
      }
    }
  }

  lemma {:induction false} StableOrLarge(p: seq<byte>, n: nat)
    requires n > 0
    ensures |Stopping(p, n)| >= n - 1 || Stopping(p, n) == Stopping(p, n + 1)
  {
    if n > 1 {
      StableOrLarge(p, n - 1);
      StoppingGrows(p, n - 1);
      StoppingGrows(p, n);
      if Stopping(p, n - 1) == Stopping(p, n) {
        forall pos | pos in Stopping(p, n + 1) ensures pos in Stopping(p, n) {
          StoppingIsStable(p, n - 1, pos, n + 1);
        }
      } else {
        Larger(Stopping(p, n - 1), Stopping(p, n));
      }
    }
  }

  lemma Larger(a: set<nat>, b: set<nat>)
    requires a < b
    ensures |a| < |b|
  {
    var x :| x in b - a;
    assert b == a + (b - a);
    assert |b - a| > 0;
  }

  lemma {:induction false} AtMost(s: set<nat>, n: nat)
    requires forall x :: x in s ==> x < n
    ensures |s| <= n
    ensures |s| == n ==> forall x: nat :: x < n ==> x in s
  {
    if n > 0 {
      AtMost(s - {n - 1}, n - 1);
      if n - 1 in s {
        assert s == (s - {n - 1}) + {n - 1};
        assert |s| == |s - {n - 1}| + 1;
      } else {
        assert s - {n - 1} == s;
      }
    }
  }

  /**
    The chase is decided after one step more than the packet has bytes: if it stops at all it has
    stopped by then, so `Loops` means that the source's loop never ends.
   */
  lemma StepsSuffice(p: seq<byte>, pos: nat, m: nat)
    ensures Read(p, pos, m) != Loops ==> ReadName(p, pos) == Read(p, pos, m)
    ensures ReadName(p, pos) == Loops ==> Read(p, pos, m) == Loops
  {
    var n := |p| + 1;
    if Read(p, pos, m) != Loops {
      if m <= n {
        MoreSteps(p, pos, m, n);
      } else {
        StableOrLarge(p, n);
        StoppingGrows(p, n);
        AtMost(Stopping(p, n), |p|);
        StoppingIsStable(p, n, pos, m);
        MoreSteps(p, pos, n, m);
      }
    }
  }

  // ---------- the loop ----------

  /** Where the source's loop would not end the method may not be called. */
  method ExtractEncodedName(p: seq<byte>, at: nat) returns (r: Expansion)
    requires ReadName(p, at) != Loops
    ensures r == ReadName(p, at)
  {
    var dest: seq<byte> := [];
    var curr: nat, count: nat := at, 0;
    var jumped := false;
    ghost var steps := |p| + 1;
    while true
      invariant steps > 0 && Read(p, curr, steps) != Loops
      invariant ReadName(p, at) == Resumed(dest, count, jumped, Read(p, curr, steps))
      decreases steps
    {
      if curr >= |p| {
        return Outside;
      }
      if p[curr] == NUL {
        break;
      }
      if p[curr] >= 0xC0 {
        if curr + 1 >= |p| {
          return Outside;
        }
        var high: nat := p[curr] as int - 0xC0;
        curr := high * 0x100 + p[curr + 1];
        jumped := true;
      } else {
        ResumedPush(dest, count, jumped, p[curr], Read(p, curr + 1, steps - 1));
        dest := dest + [p[curr]];
        curr := curr + 1;
        if !jumped {
          count := count + 1;
        }
      }
      steps := steps - 1;
    }
    dest := dest + [NUL];
    r := Raw(dest, if jumped then count + 2 else count + 1);
  }

  ghost function Resumed(dest: seq<byte>, count: nat, jumped: bool, rest: Expansion): Expansion {
    if rest.Raw? then Raw(dest + rest.bytes, if jumped then count + 2 else count + rest.count) else rest
  }

  lemma ResumedPush(dest: seq<byte>, count: nat, jumped: bool, b: byte, rest: Expansion)
    ensures Resumed(dest, count, jumped, Pushed(b, rest))
         == Resumed(dest + [b], if jumped then count else count + 1, jumped, rest)
  {
    if rest.Raw? {
      ConcatAssoc(dest, [b], rest.bytes);
    }
  }

  // ---------- the names of RFC 1035, section 4.1.4 ----------

  /**
    A name whose run of labels began at `start`: labels of 1 to 63 bytes that end in a zero or in a
    pointer to a name before `start`.
   */
  predicate CompressedName(p: seq<byte>, pos: nat, start: nat)
    decreases start, |p| - pos
  {
    && pos < |p|
    && if p[pos] == 0 then true
       else if p[pos] <= 63 then LabelEnd(p, pos) < |p| && CompressedName(p, LabelEnd(p, pos), start)
       else
         && p[pos] >= 0xC0 && pos + 1 < |p|
         && Target(p, pos) < start
         && CompressedName(p, Target(p, pos), Target(p, pos))
  }

  function LabelEnd(p: seq<byte>, pos: nat): nat
    requires pos < |p|
  {
    var len: nat := p[pos];
    pos + 1 + len
  }

  /** The labels the name stands for. */
  function Labels(p: seq<byte>, pos: nat, start: nat): (r: seq<Label>)
    requires CompressedName(p, pos, start)
    ensures LengthsFit(r)
    decreases start, |p| - pos
  {
    if p[pos] == 0 then []
    else if p[pos] <= 63 then [p[pos + 1..LabelEnd(p, pos)]] + Labels(p, LabelEnd(p, pos), start)
    else Labels(p, Target(p, pos), Target(p, pos))
  }

  /** The bytes in place: up to the zero, or up to the first pointer, which is two bytes. */
  function Occupied(p: seq<byte>, pos: nat, start: nat): nat
    requires CompressedName(p, pos, start)
    decreases |p| - pos
  {
    if p[pos] == 0 then 1
    else if p[pos] <= 63 then 1 + p[pos] + Occupied(p, LabelEnd(p, pos), start)
    else 2
  }

  /** Bytes that are neither the end of a name nor the first byte of a pointer. */
  predicate Plain(s: seq<byte>) {
    forall b :: b in s ==> 0 < b < 0xC0
  }

  predicate AllPlain(labels: seq<Label>) {
    forall l :: l in labels ==> Plain(l)
  }

  lemma PlainParts(a: seq<byte>, b: seq<byte>)
    ensures Plain(a + b) <==> Plain(a) && Plain(b)
  {
    assert forall x :: x in a ==> x in a + b;
    assert forall x :: x in b ==> x in a + b;
  }

  lemma {:induction false} ReadRun(p: seq<byte>, pos: nat, end: nat, steps: nat)
    requires pos <= end <= |p| && Plain(p[pos..end])
    requires Read(p, end, steps).Raw?
    ensures Read(p, pos, end - pos + steps)
         == Raw(p[pos..end] + Read(p, end, steps).bytes, end - pos + Read(p, end, steps).count)
    decreases end - pos
  {
    if pos < end {
      assert p[pos..end] == [p[pos]] + p[pos + 1..end];
      PlainParts([p[pos]], p[pos + 1..end]);
      assert p[pos] in [p[pos]];
      ReadRun(p, pos + 1, end, steps);
      ConcatAssoc([p[pos]], p[pos + 1..end], Read(p, end, steps).bytes);
    }
  }

  /** A name that the packet ends in the middle of can not be read. */
  lemma {:induction false} UnendedIsOutside(p: seq<byte>, pos: nat)
    requires pos <= |p| && Plain(p[pos..])
    ensures ReadName(p, pos) == Outside
    decreases |p| - pos
  {
    if pos < |p| {
      assert p[pos..] == [p[pos]] + p[pos + 1..];
      PlainParts([p[pos]], p[pos + 1..]);
      assert p[pos] in [p[pos]];
      UnendedIsOutside(p, pos + 1);
      StepsSuffice(p, pos, |p| + 2);
    }
  }

  lemma ReadsLabel(p: seq<byte>, pos: nat, more: seq<Label>, count: nat)
    requires pos < |p| && 0 < p[pos] <= 63 && LabelEnd(p, pos) <= |p| && Plain(p[pos + 1..LabelEnd(p, pos)])
    requires ReadName(p, LabelEnd(p, pos)) == Raw(Wire(more), count)
    ensures ReadName(p, pos) == Raw(Wire([p[pos + 1..LabelEnd(p, pos)]] + more), 1 + p[pos] + count)
  {
    hide Wire, Plain;
    var end := LabelEnd(p, pos);
    ReadRun(p, pos + 1, end, |p| + 1);
    WireCons(p[pos + 1..end], more);
    ConcatAssoc([p[pos]], p[pos + 1..end], Wire(more));
    StepsSuffice(p, pos, end - pos + (|p| + 1));
  }

  lemma ReadsPointer(p: seq<byte>, pos: nat)
    requires pos + 1 < |p| && p[pos] >= 0xC0 && ReadName(p, Target(p, pos)).Raw?
    ensures ReadName(p, pos) == Raw(ReadName(p, Target(p, pos)).bytes, 2)
  {
    StepsSuffice(p, pos, |p| + 2);
  }

  /**
    RFC 1035, section 4.1.4: two bits set, then an offset of 14 bits in network order. What is read there
    is read here, in two bytes; and where that can not be read, neither can this.
   */
  lemma PointerLeadsToOffset(p: seq<byte>, pos: nat, offset: nat)
    requires offset < 0x4000 && pos + 2 <= |p| && p[pos..pos + 2] == Be16(0xC000 + offset)
    ensures Target(p, pos) == offset
    ensures ReadName(p, pos) == match ReadName(p, offset)
                                case Raw(bytes, _) => Raw(bytes, 2)
                                case Outside => Outside
                                case Loops => Loops
  {
    assert p[pos] == p[pos..pos + 2][0] && p[pos + 1] == p[pos..pos + 2][1];
    StepsSuffice(p, pos, |p| + 2);
    if ReadName(p, pos) != Loops {
      MoreSteps(p, pos, |p| + 1, |p| + 2);
    }
  }

  /** The start of the run goes down with each pointer and the bytes left with each label, so it ends. */
  lemma {:induction false} ReadsLabels(p: seq<byte>, pos: nat, start: nat)
    requires CompressedName(p, pos, start) && AllPlain(Labels(p, pos, start))
    ensures ReadName(p, pos) == Raw(Wire(Labels(p, pos, start)), Occupied(p, pos, start))
    decreases start, |p| - pos
  {
    hide Plain;
    if 0 < p[pos] <= 63 {
      var end := LabelEnd(p, pos);
      FirstPlain(p[pos + 1..end], Labels(p, end, start));
      ReadsLabels(p, end, start);
      ReadsLabel(p, pos, Labels(p, end, start), Occupied(p, end, start));
    } else if p[pos] != 0 {
      ReadsLabels(p, Target(p, pos), Target(p, pos));
      ReadsPointer(p, pos);
    }
  }

  lemma FirstPlain(l: Label, more: seq<Label>)
    ensures AllPlain([l] + more) <==> Plain(l) && AllPlain(more)
  {
    hide Plain;
    assert forall x :: x in [l] + more <==> x == l || x in more;
  }

  /** A label byte above 0xBF is taken for a pointer: this one-label name is never read to its end. */
  lemma HighLabelByteLoops()
    ensures ReadName([1, 0xC0, 0], 0) == Loops
  {
    var p: seq<byte> := [1, 0xC0, 0];
    assert Target(p, 1) == 0;
    assert Read(p, 0, 4) == Pushed(1, Read(p, 1, 3));
    assert Read(p, 1, 3) == Jumped(Read(p, 0, 2));
    assert Read(p, 0, 2) == Pushed(1, Read(p, 1, 1));
    assert Read(p, 1, 1) == Jumped(Read(p, 0, 0));
  }
}
