/**
  Message boundaries over a byte stream: each message is sent behind its length, and the receiver
  reassembles messages from chunks that fall anywhere. The length field is a native `uint16_t`.
 */
module MsgBoundary {
  import opened Bytes

  const FIELD := 2

  // ---------- sending ----------

  /** The size is cut to 16 bits, and so is the message. */
  function Frame(msg: seq<byte>): seq<byte> {
    var size := |msg| % 0x1_0000;
    Store16(size) + msg[..size]
  }

  method SendData(msg: seq<byte>) returns (sent: seq<byte>)
    ensures sent == Frame(msg)
  {
    var size := |msg| % 0x1_0000;
    var buff := new byte[FIELD + size];
    CopyInto(buff, 0, Store16(size));
    CopyInto(buff, FIELD, msg[..size]);
    sent := buff[..FIELD + size];
  }

  // ---------- what a stream of bytes means ----------

  /** Whole messages from the front, and the bytes after the last whole one. */
  datatype Parsed = Parsed(msgs: seq<seq<byte>>, rest: seq<byte>)

  function Parse(s: seq<byte>): (p: Parsed)
    ensures |p.rest| <= |s|
  {
    if |s| < FIELD || |s| < FIELD + Load16(s, 0) then Parsed([], s)
    else
      var size := Load16(s, 0);
      var tail := Parse(s[FIELD + size..]);
      Parsed([s[FIELD..FIELD + size]] + tail.msgs, tail.rest)
  }

  // ---------- the receiver ----------

  /** The receiver's fields say what the bytes taken so far mean. */
  ghost predicate Tracks(stream: seq<byte>, mid: bool, msg: seq<byte>, read: nat, delivered: seq<seq<byte>>) {
    && delivered == Parse(stream).msgs
    && if mid then Pending(Parse(stream).rest, msg, read) && read < |msg| else Parse(stream).rest == []
  }

  /** The bytes of a message begun: its length, and the part of it that has been read. */
  ghost predicate Pending(rest: seq<byte>, msg: seq<byte>, read: nat) {
    read <= |msg| && |rest| == FIELD + read && Load16(rest, 0) == |msg| && rest[FIELD..] == msg[..read]
  }

  class Separator {
    var midPacket: bool
    var currMsg: seq<byte>
    var currRead: word
    /** The messages forwarded to the listeners, oldest first. */
    var delivered: seq<seq<byte>>
    /** Every byte taken so far. */
    ghost var stream: seq<byte>

    ghost predicate Valid()
      reads this
    {
      Tracks(stream, midPacket, currMsg, currRead, delivered)
    }

    constructor ()
      ensures Valid() && stream == [] && delivered == [] && !midPacket
    {
      midPacket, currMsg, currRead, delivered, stream := false, [], 0, [], [];
    }

    /** The bytes of a chunk that are looked at: its size is cut to 16 bits. */
    static function Used(chunk: seq<byte>): (used: seq<byte>)
      ensures used <= chunk && |used| == |chunk| % 0x1_0000
    {
      chunk[..|chunk| % 0x1_0000]
    }

    /** A message has been begun; `header` is what has been read of it but not yet counted in `stream`. */
    ghost predicate InMessage(header: seq<byte>)
      reads this
    {
      && midPacket && delivered == Parse(stream).msgs
      && Pending(Parse(stream).rest + header, currMsg, currRead)
    }

    /** The length field, read where a message must begin. */
    method BeginMessage(buff: seq<byte>)
      requires Valid() && !midPacket && |buff| >= FIELD
      modifies this
      ensures InMessage(buff[..FIELD]) && stream == old(stream)
    {
      var currSize := Load16(buff, 0);
      currMsg := seq(currSize, _ => 0);
      currRead := 0;
      midPacket := true;
      StartOfMessage(stream, buff, currMsg);
    }

    /** As many bytes as the message still needs and the chunk still has; a full message is forwarded. */
    method ContinueMessage(buff: seq<byte>, ghost header: seq<byte>) returns (reading: nat)
      requires InMessage(header) && |buff| < 0x1_0000
      modifies this
      ensures Valid() && reading <= |buff|
      ensures reading == if |buff| < old(|currMsg| - currRead) then |buff| else old(|currMsg| - currRead)
      ensures stream == old(stream) + (header + buff[..reading])
      ensures stream + buff[reading..] == old(stream) + (header + buff)
    {
      var readLeft: word := |currMsg| - currRead;
      reading := if |buff| < readLeft then |buff| else readLeft;
      assert buff == buff[..reading] + buff[reading..];
      ChunkStep(stream, header, buff[..reading], buff[reading..], currMsg, currRead);
      currMsg := currMsg[..currRead] + buff[..reading] + currMsg[currRead + reading..];
      currRead := currRead + reading;
      stream := stream + (header + buff[..reading]);
      if currRead == |currMsg| {
        delivered := delivered + [currMsg];
        midPacket := false;
      }
    }

    /**
      One chunk. Where a message must begin and only one byte is left, the source reads the length field
      past the chunk's end: `ok` is false, and that byte has not been taken. This happens exactly when
      the chunk ends between the two bytes of a length field.
     */
    method HandleCallback(chunk: seq<byte>) returns (ok: bool)
      requires Valid()
      modifies this
      ensures Valid() && (ok <==> |Parse(old(stream) + Used(chunk)).rest| != 1)
      ensures ok ==> stream == old(stream) + Used(chunk)
      ensures !ok ==> Used(chunk) != [] && stream == old(stream) + Used(chunk)[..|Used(chunk)| - 1]
    {
      hide Parse, Load16;
      var buff := Used(chunk);
      while |buff| > 0
        invariant Valid() && |buff| <= |Used(chunk)| < 0x1_0000
        invariant stream + buff == old(stream) + Used(chunk)
        decreases |buff|
      {
        ghost var header: seq<byte> := [];
        if !midPacket {
          if |buff| < FIELD {
            HeaderIsCut(stream, buff);
            LastByteLeft(stream, buff, old(stream), Used(chunk));
            return false;
          }
          BeginMessage(buff);
          header := buff[..FIELD];
          assert buff == header + buff[FIELD..];
          buff := buff[FIELD..];
        } else {
          assert Parse(stream).rest + header == Parse(stream).rest && header + buff == buff;
        }
        var reading := ContinueMessage(buff, header);
        buff := buff[reading..];
      }
      assert stream + buff == stream;
      return true;
    }
  }

  lemma LastByteLeft(stream: seq<byte>, buff: seq<byte>, before: seq<byte>, used: seq<byte>)
    requires |buff| == 1 <= |used| && stream + buff == before + used
    ensures stream == before + used[..|used| - 1]
  {
    assert (stream + buff)[..|stream|] == stream;
    assert (before + used)[..|before| + |used| - 1] == before + used[..|used| - 1];
  }

  /** The message buffer after copying `taken` behind the bytes already read. */
  ghost function Copied(msg: seq<byte>, read: nat, taken: seq<byte>): (r: seq<byte>)
    requires read + |taken| <= |msg|
    ensures |r| == |msg| && r[..read + |taken|] == msg[..read] + taken
  {
    msg[..read] + taken + msg[read + |taken|..]
  }

  lemma StartOfMessage(stream: seq<byte>, buff: seq<byte>, msg: seq<byte>)
    requires Parse(stream).rest == [] && |buff| >= FIELD && |msg| == Load16(buff, 0)
    ensures Pending(Parse(stream).rest + buff[..FIELD], msg, 0)
  {
    assert [] + buff[..FIELD] == buff[..FIELD];
  }

  /** One round of the loop, with a length field in front (`header`) or none. */
  lemma ChunkStep(stream: seq<byte>, header: seq<byte>, taken: seq<byte>, more: seq<byte>, msg: seq<byte>, read: nat)
    requires read + |taken| <= |msg| && Pending(Parse(stream).rest + header, msg, read)
    ensures var copied := Copied(msg, read, taken);
            var done := read + |taken| == |msg|;
            Tracks(stream + (header + taken), !done, copied, read + |taken|,
                   if done then Parse(stream).msgs + [copied] else Parse(stream).msgs)
    ensures stream + (header + taken) + more == stream + (header + (taken + more))
  {
    hide Parse, Load16;
    var rest := Parse(stream).rest;
    ConcatAssoc(rest, header, taken);
    PendingGrows(rest + header, taken, msg, read);
    ParseConcat(stream, header + taken);
    ParsePending(rest + (header + taken), Copied(msg, read, taken), read + |taken|);
    assert Parse(stream).msgs + [] == Parse(stream).msgs;
  }

  lemma PendingGrows(rest: seq<byte>, taken: seq<byte>, msg: seq<byte>, read: nat)
    requires read + |taken| <= |msg| && Pending(rest, msg, read)
    ensures Pending(rest + taken, Copied(msg, read, taken), read + |taken|)
  {
    assert (rest + taken)[FIELD..] == rest[FIELD..] + taken;
  }

  /** A length, and some of the bytes it announces: a message once all of them are there. */
  lemma ParsePending(rest: seq<byte>, msg: seq<byte>, read: nat)
    requires Pending(rest, msg, read)
    ensures Parse(rest) == if read == |msg| then Parsed([msg], []) else Parsed([], rest)
  {
    if read == |msg| {
      assert msg[..read] == msg;
      assert rest[FIELD + |msg|..] == [] && rest[FIELD..FIELD + |msg|] == msg;
      assert [msg] + [] == [msg];
    }
  }

  // ---------- parsing piece by piece ----------

  lemma {:induction false} ParseConcat(s: seq<byte>, t: seq<byte>)
    ensures var p := Parse(s);
            var q := Parse(p.rest + t);
            Parse(s + t) == Parsed(p.msgs + q.msgs, q.rest)
    decreases |s|
  {
    hide Parse, Load16;
    if |s| < FIELD || |s| < FIELD + Load16(s, 0) {
      ParseShort(s);
      assert [] + Parse(s + t).msgs == Parse(s + t).msgs;
    } else {
      var n := FIELD + Load16(s, 0);
      ParseConcat(s[n..], t);
      var tail := Parse(s[n..]);
      var q := Parse(tail.rest + t);
      ParseFront(s, t);
      assert [s[FIELD..n]] + (tail.msgs + q.msgs) == [s[FIELD..n]] + tail.msgs + q.msgs;
    }
  }

  lemma ParseShort(s: seq<byte>)
    requires |s| < FIELD || |s| < FIELD + Load16(s, 0)
    ensures Parse(s) == Parsed([], s)
  {
  }

  /** A whole message at the front is taken off whatever follows. */
  lemma ParseFront(s: seq<byte>, t: seq<byte>)
    requires |s| >= FIELD && |s| >= FIELD + Load16(s, 0)
    ensures var n := FIELD + Load16(s, 0);
      && Parse(s) == Parsed([s[FIELD..n]] + Parse(s[n..]).msgs, Parse(s[n..]).rest)
      && Parse(s + t) == Parsed([s[FIELD..n]] + Parse(s[n..] + t).msgs, Parse(s[n..] + t).rest)
  {
    var n := FIELD + Load16(s, 0);
    assert (s + t)[n..] == s[n..] + t && (s + t)[FIELD..n] == s[FIELD..n];
  }

  lemma HeaderIsCut(stream: seq<byte>, buff: seq<byte>)
    requires Parse(stream).rest == [] && |buff| == 1
    ensures |Parse(stream + buff).rest| == 1
  {
    ParseConcat(stream, buff);
    assert [] + buff == buff;
  }

  // ---------- any cutting of any messages ----------

  function Frames(msgs: seq<seq<byte>>): seq<byte> {
    if msgs == [] then [] else Frame(msgs[0]) + Frames(msgs[1..])
  }

  predicate AllFit(msgs: seq<seq<byte>>) {
    forall m :: m in msgs ==> |m| < 0x1_0000
  }

  lemma FrameParses(m: seq<byte>, rest: seq<byte>)
    ensures Parse(Frame(m) + rest) == Parsed([Cut(m)] + Parse(rest).msgs, Parse(rest).rest)
  {
    var cut := Cut(m);
    Load16At(Frame(m), 0, |cut|);
    ParsePending(Frame(m), cut, |cut|);
    ParseConcat(Frame(m), rest);
    assert [] + rest == rest;
  }

  function Cut(m: seq<byte>): seq<byte> {
    m[..|m| % 0x1_0000]
  }

  function Cuts(msgs: seq<seq<byte>>): seq<seq<byte>> {
    if msgs == [] then [] else [Cut(msgs[0])] + Cuts(msgs[1..])
  }

  lemma {:induction false} FramesParseToCuts(msgs: seq<seq<byte>>)
    ensures Parse(Frames(msgs)) == Parsed(Cuts(msgs), [])
  {
    if msgs != [] {
      FramesParseToCuts(msgs[1..]);
      FrameParses(msgs[0], Frames(msgs[1..]));
    }
  }

  lemma CutIsWhole(m: seq<byte>)
    ensures Cut(m) == m <==> |m| < 0x1_0000
  {
  }

  lemma {:induction false} CutsAreWhole(msgs: seq<seq<byte>>)
    ensures Cuts(msgs) == msgs <==> AllFit(msgs)
  {
    if msgs != [] {
      var m, rest := msgs[0], msgs[1..];
      CutsAreWhole(rest);
      CutIsWhole(m);
      AllFitCons(msgs);
      assert msgs == [m] + rest;
      SameCons(Cut(m), Cuts(rest), m, rest);
    }
  }

  lemma SameCons<T>(x: T, xs: seq<T>, y: T, ys: seq<T>)
    ensures [x] + xs == [y] + ys <==> x == y && xs == ys
  {
    if [x] + xs == [y] + ys {
      assert ([x] + xs)[0] == ([y] + ys)[0] && ([x] + xs)[1..] == ([y] + ys)[1..];
      assert ([x] + xs)[1..] == xs && ([y] + ys)[1..] == ys;
    }
  }

  lemma AllFitCons(msgs: seq<seq<byte>>)
    requires msgs != []
    ensures AllFit(msgs) <==> |msgs[0]| < 0x1_0000 && AllFit(msgs[1..])
  {
    var rest := msgs[1..];
    assert msgs == [msgs[0]] + rest;
    assert msgs[0] in msgs;
    if AllFit(msgs) {
      assert forall m :: m in rest ==> m in msgs;
    }
  }

  /** The frames of a list of messages parse back to it exactly when every message fits its length field. */
  lemma FramesParse(msgs: seq<seq<byte>>)
    ensures Parse(Frames(msgs)).rest == []
    ensures Parse(Frames(msgs)).msgs == msgs <==> AllFit(msgs)
  {
    FramesParseToCuts(msgs);
    CutsAreWhole(msgs);
  }

  function Flatten(chunks: seq<seq<byte>>): seq<byte> {
    if chunks == [] then [] else Flatten(chunks[..|chunks| - 1]) + chunks[|chunks| - 1]
  }

  /** Chunks of at most 65535 bytes. */
  predicate ShortChunks(chunks: seq<seq<byte>>) {
    forall k :: 0 <= k < |chunks| ==> |chunks[k]| < 0x1_0000
  }

  /** No chunk ends inside a length field. */
  ghost predicate CleanCut(chunks: seq<seq<byte>>) {
    forall k :: 0 < k <= |chunks| ==> |Parse(Flatten(chunks[..k])).rest| != 1
  }

  /**
    The base connection handing over chunk after chunk. The source stays within every chunk if and only
    if none ends inside a length field, and then what has been delivered is the messages that the bytes
    complete, however the stream was cut.
   */
  method ReceiveAll(sep: Separator, chunks: seq<seq<byte>>) returns (ok: bool)
    requires sep.Valid() && sep.stream == [] && ShortChunks(chunks)
    modifies sep
    ensures sep.Valid() && (ok <==> CleanCut(chunks))
    ensures ok ==> sep.stream == Flatten(chunks) && sep.delivered == Parse(Flatten(chunks)).msgs
  {
    for k := 0 to |chunks|
      invariant sep.Valid() && sep.stream == Flatten(chunks[..k]) && CleanCut(chunks[..k])
    {
      assert chunks[..k + 1][..k] == chunks[..k];
      assert Flatten(chunks[..k + 1]) == Flatten(chunks[..k]) + chunks[k];
      assert Separator.Used(chunks[k]) == chunks[k];
      CleanCutStep(chunks, k);
      var clean := sep.HandleCallback(chunks[k]);
      if !clean {
        return false;
      }
    }
    assert chunks[..|chunks|] == chunks;
    return true;
  }

  lemma CleanCutStep(chunks: seq<seq<byte>>, k: nat)
    requires k < |chunks|
    ensures CleanCut(chunks[..k + 1]) <==> CleanCut(chunks[..k]) && |Parse(Flatten(chunks[..k + 1])).rest| != 1
    ensures CleanCut(chunks) ==> |Parse(Flatten(chunks[..k + 1])).rest| != 1
  {
    hide Parse, Flatten;
    var a, b := chunks[..k], chunks[..k + 1];
    assert forall j :: 0 < j <= k ==> a[..j] == chunks[..j];
    assert forall j :: 0 < j <= k + 1 ==> b[..j] == chunks[..j];
  }

  /**
    Messages sent, their frames cut in any way, received: the receiver stays within the chunks if and
    only if the cut is clean, and then it has delivered the messages, in order, with nothing pending, if
    and only if each of them fits its length field.
   */
  method SendThenReceive(msgs: seq<seq<byte>>, chunks: seq<seq<byte>>, sep: Separator) returns (ok: bool)
    requires Flatten(chunks) == Frames(msgs) && ShortChunks(chunks)
    requires sep.Valid() && sep.stream == []
    modifies sep
    ensures ok <==> CleanCut(chunks)
    ensures ok ==> !sep.midPacket && (sep.delivered == msgs <==> AllFit(msgs))
  {
    FramesParse(msgs);
    ok := ReceiveAll(sep, chunks);
  }

  /**
    The class comment asks for chunks of at least two bytes. That is not enough: two such chunks can cut
    a length field.
   */
  lemma DocumentedAssumptionTooWeak()
    ensures exists a: seq<byte>, b: seq<byte> ::
              |a| >= FIELD && |b| >= FIELD && a + b == Frames([[7], [8]]) && !CleanCut([a, b])
  {
    var x: seq<byte>, y: seq<byte> := [7], [8];
    var a: seq<byte>, b: seq<byte> := [1, 0, 7, 1], [0, 8];
    OneByteFrame(7);
    OneByteFrame(8);
    TwoFrames(x, y);
    assert a + b == [1, 0, 7] + [1, 0, 8];
    assert a == Frame(x) + [1];
    FrameParses(x, [1]);
    FirstChunk(a, b);
  }

  lemma OneByteFrame(b: byte)
    ensures Frame([b]) == [1, 0, b]
  {
  }

  lemma FirstChunk(a: seq<byte>, b: seq<byte>)
    requires |Parse(a).rest| == 1
    ensures !CleanCut([a, b])
  {
    var chunks := [a, b];
    assert chunks[..1] == [a] && [a][..0] == [];
    assert Flatten([a]) == [] + a == a;
    assert |Parse(Flatten(chunks[..1])).rest| == 1;
  }

  lemma TwoFrames(x: seq<byte>, y: seq<byte>)
    ensures Frames([x, y]) == Frame(x) + Frame(y)
  {
    var xy := [x, y];
    assert xy[1..] == [y] && [y][1..] == [];
    assert Frames([y]) == Frame(y) + Frames([]) == Frame(y);
  }
}
