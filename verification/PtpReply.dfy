/** Sending along a path, reversing it, and the reply that comes back. */
module PtpReply {
  import opened Bytes
  import opened VarLenBytes
  import opened PtpHeader
  import opened PtpNode
  import opened PtpRouting

  // ---------- reversing a path ----------

  function ReverseAction(a: Action): Option<Action> {
    match a
    case Endpoint(kind) =>
      if kind == START then Some(Endpoint(END))
      else if kind == END then Some(Endpoint(START))
      else None
    case LocalConn(src, dest) => Some(LocalConn(dest, src))
    case NetSwitch(src, dest) => Some(NetSwitch(dest, src))
  }

  /** An endpoint of unknown kind throws. */
  predicate Reversible(actions: seq<Action>) {
    forall a :: a in actions ==> ReverseAction(a).Some?
  }

  lemma NotReversibleIff(actions: seq<Action>)
    ensures !Reversible(actions) <==> HasOddEndpoint(actions)
  {
    if !Reversible(actions) {
      var a :| a in actions && ReverseAction(a).None?;
      assert a == Endpoint(a.kind);
    }
  }

  function Reversed(actions: seq<Action>): (r: seq<Action>)
    requires Reversible(actions)
    ensures |r| == |actions|
  {
    seq(|actions|, i requires 0 <= i < |actions| => ReverseAction(actions[|actions| - 1 - i]).value)
  }

  method CreateReverseActions(actions: seq<Action>) returns (r: Option<seq<Action>>)
    ensures r == if Reversible(actions) then Some(Reversed(actions)) else None
  {
    var res: seq<Action> := [];
    var i := |actions| - 1;
    while i >= 0
      invariant -1 <= i < |actions| && |res| == |actions| - 1 - i
      invariant forall k :: i < k < |actions| ==> ReverseAction(actions[k]) == Some(res[|actions| - 1 - k])
    {
      var a := ReverseAction(actions[i]);
      if a.None? {
        assert actions[i] in actions;
        return None;
      }
      res := res + [a.value];
      i := i - 1;
    }
    assert Reversible(actions) by {
      forall a | a in actions ensures ReverseAction(a).Some? {
        var k :| 0 <= k < |actions| && actions[k] == a;
      }
    }
    assert res == Reversed(actions) by {
      forall j | 0 <= j < |res| ensures res[j] == Reversed(actions)[j] {
        assert ReverseAction(actions[|actions| - 1 - j]) == Some(res[j]);
      }
    }
    return Some(res);
  }

  lemma ReverseActionTwice(a: Action)
    ensures ReverseAction(a).Some? ==> ReverseAction(ReverseAction(a).value) == Some(a)
  {
  }

  lemma ReversedAt(actions: seq<Action>, i: nat)
    requires Reversible(actions) && i < |actions|
    ensures ReverseAction(actions[i]) == Some(Reversed(actions)[|actions| - 1 - i])
  {
    assert actions[i] in actions;
  }

  lemma ReversedIsReversible(actions: seq<Action>)
    requires Reversible(actions)
    ensures Reversible(Reversed(actions))
  {
    forall a | a in Reversed(actions) ensures ReverseAction(a).Some? {
      var k :| 0 <= k < |actions| && Reversed(actions)[k] == a;
      ReversedAt(actions, |actions| - 1 - k);
      ReverseActionTwice(actions[|actions| - 1 - k]);
    }
  }

  /** Reversing twice gives the path back. */
  lemma ReversedTwice(actions: seq<Action>)
    requires Reversible(actions)
    ensures Reversible(Reversed(actions)) && Reversed(Reversed(actions)) == actions
  {
    ReversedIsReversible(actions);
    var r := Reversed(actions);
    forall i | 0 <= i < |actions| ensures Reversed(r)[i] == actions[i] {
      ReversedAt(r, |actions| - 1 - i);
      ReversedAt(actions, i);
      ReverseActionTwice(actions[i]);
    }
  }

  // ---------- well-formed paths ----------

  predicate StartsAndEnds(actions: seq<Action>) {
    |actions| >= 2 && actions[0] == Endpoint(START) && actions[|actions| - 1] == Endpoint(END)
  }

  /** Each hop starts where the hop before it ended, and each switch where the switch before it ended. */
  predicate Connected(actions: seq<Action>) {
    forall i :: 0 <= i < |actions| - 1 ==> Joined(actions[i], actions[i + 1])
  }

  predicate Joined(a: Action, b: Action) {
    && (a.LocalConn? && b.LocalConn? ==> a.destAddr == b.srcAddr)
    && (a.NetSwitch? && b.NetSwitch? ==> a.destId == b.srcId)
  }

  lemma ReversedKeepsPaths(actions: seq<Action>)
    requires Reversible(actions)
    ensures StartsAndEnds(Reversed(actions)) <==> StartsAndEnds(actions)
    ensures Connected(Reversed(actions)) <==> Connected(actions)
  {
    ReversedKeepsOneWay(actions);
    ReversedTwice(actions);
    ReversedKeepsOneWay(Reversed(actions));
  }

  lemma ReversedKeepsOneWay(actions: seq<Action>)
    requires Reversible(actions)
    ensures StartsAndEnds(actions) ==> StartsAndEnds(Reversed(actions))
    ensures Connected(actions) ==> Connected(Reversed(actions))
  {
    var r, n := Reversed(actions), |actions|;
    if StartsAndEnds(actions) {
      ReversedAt(actions, 0);
      ReversedAt(actions, n - 1);
    }
    if Connected(actions) {
      forall i | 0 <= i < n - 1
        ensures Joined(r[i], r[i + 1])
      {
        ReversedAt(actions, n - 1 - i);
        ReversedAt(actions, n - 2 - i);
        assert Joined(actions[n - 2 - i], actions[n - 2 - i + 1]);
      }
    }
  }

  // ---------- sending along a path ----------

  /** What an access bound to `path` sends: the first action counts as done, and one jump as made. */
  function SendHeader(path: seq<Action>): Header {
    Header(path, 1, 1)
  }

  method SendOn(path: seq<Action>, data: seq<byte>) returns (packet: Option<seq<byte>>)
    requires |path| < 0x100 ==> |Image(SendHeader(path))| + |data| <= BUFF_SIZE
    ensures packet == if |path| < 0x100 then Some(Image(SendHeader(path)) + data) else None
  {
    var h := Header(path, 0, 0);
    h := h.(currAction := h.currAction + 1);
    h := h.(noJumps := h.noJumps + 1);
    packet := WritePacket(h, data);
  }

  /** An access whose packets leave over a routing table: writing, which throws at 256 actions, then routing. */
  method SendRouted<R>(path: seq<Action>, data: seq<byte>, table: RoutingTable<R>) returns (r: Option<Sent<R>>)
    requires |path| < 0x100 ==> |Image(SendHeader(path))| + |data| <= BUFF_SIZE
    ensures r.None? <==> |path| >= 0x100
    ensures |path| < 2 ==> r == Some(Broken)
    ensures 2 <= |path| < 0x100 && !path[1].LocalConn? ==> r == Some(Err)
    ensures 2 <= |path| < 0x100 && path[1].LocalConn? ==>
              exists route :: Resolves(table.rules, table.defaultGateway, path[1].destAddr, route)
                              && r == Some(if route.Some? then SentOn(route.value) else Err)
  {
    var packet := SendOn(path, data);
    if packet.None? {
      return None;
    }
    HeaderRoundTrip(SendHeader(path), data);
    var sent := SendData(table, packet.value);
    return Some(sent);
  }

  /** `ptp_is_endpoint_end`; the size is unsigned, so an empty list has no last action. */
  predicate IsEndpointEnd(h: Header) {
    && |h.actions| > 0 && h.currAction == |h.actions| - 1
    && h.actions[h.currAction] == Endpoint(END)
  }

  /**
    What the generator makes of a packet: the payload and the path for replies, or nothing if the packet
    is not at its last action or that is no end; `Crashed` if the path can not be reversed.
   */
  datatype Acceptance = Accepted(payload: seq<byte>, replyPath: seq<Action>) | NotForMe | Crashed

  function Accept(packet: seq<byte>): Parse<Acceptance> {
    var (p, used) :- ParsePacket(packet);
    Parsed(if !IsEndpointEnd(p.0) then NotForMe
           else if Reversible(p.0.actions) then Accepted(p.1, Reversed(p.0.actions))
           else Crashed, used)
  }

  method GeneratorRecv(packet: seq<byte>) returns (r: Parse<Acceptance>)
    ensures r == Accept(packet)
  {
    var h := ExtractHeader(packet);
    if !h.Parsed? {
      return h.PropagateFailure();
    }
    if !IsEndpointEnd(h.value) {
      return Parsed(NotForMe, |packet|);
    }
    var encapData := packet[h.used..];
    var back := CreateReverseActions(h.value.actions);
    if back.None? {
      return Parsed(Crashed, |packet|);
    }
    return Parsed(Accepted(encapData, back.value), |packet|);
  }

  /** Some endpoint of the path is neither a start nor an end. */
  ghost predicate HasOddEndpoint(actions: seq<Action>) {
    exists kind: byte :: kind >= 2 && Endpoint(kind) in actions
  }

  /**
    The generator looks at a packet exactly when its current action is the last one and an end, and then it
    crashes exactly when some endpoint of the path is of neither kind.
   */
  lemma CrashesIff(h: Header, data: seq<byte>)
    requires |h.actions| < 0x100
    ensures var atEnd := exists before :: h.actions == before + [Endpoint(1)] && h.currAction as nat == |before|;
            var r := Accept(Image(h) + data);
            && r.Parsed? && (r.value.NotForMe? <==> !atEnd)
            && (r.value.Crashed? <==> atEnd && HasOddEndpoint(h.actions))
            && (r.value.Accepted? ==> r.value.payload == data)
  {
    if IsEndpointEnd(h) {
      assert h.actions == h.actions[..h.currAction] + [Endpoint(1)];
    }
    hide Reversed;
    PacketRoundTrip(h, data);
    NotReversibleIff(h.actions);
  }

  /** Start, hops, end. */
  predicate IsHopPath(path: seq<Action>) {
    StartsAndEnds(path) && forall i :: 0 < i < |path| - 1 ==> path[i].LocalConn?
  }

  predicate AllHopsTo(path: seq<Action>, me: Addr) {
    forall i :: 0 < i < |path| - 1 ==> path[i].LocalConn? && path[i].destAddr == me
  }

  predicate AllHopsFrom(path: seq<Action>, me: Addr) {
    forall i :: 0 < i < |path| - 1 ==> path[i].LocalConn? && path[i].srcAddr == me
  }

  lemma HopPathIsReversible(path: seq<Action>)
    requires IsHopPath(path)
    ensures Reversible(path) && IsHopPath(Reversed(path))
    ensures forall me :: AllHopsTo(Reversed(path), me) <==> AllHopsFrom(path, me)
  {
    assert Reversible(path);
    var r, n := Reversed(path), |path|;
    ReversedAt(path, 0);
    ReversedAt(path, n - 1);
    forall i | 0 < i < n - 1
      ensures path[i].LocalConn? && r[n - 1 - i] == LocalConn(path[i].destAddr, path[i].srcAddr)
    {
      ReversedAt(path, i);
    }
    forall i | 0 < i < n - 1 ensures r[i].LocalConn? {
      assert path[n - 1 - i].LocalConn?;
    }
    forall me
      ensures AllHopsTo(r, me) <==> AllHopsFrom(path, me)
    {
      if AllHopsTo(r, me) {
        forall i | 0 < i < n - 1 ensures path[i].srcAddr == me {
          assert r[n - 1 - i].destAddr == me;
        }
      }
      if AllHopsFrom(path, me) {
        forall i | 0 < i < n - 1 ensures r[i].LocalConn? && r[i].destAddr == me {
          assert path[n - 1 - i].srcAddr == me;
        }
      }
    }
  }

  /** What a node addressed `me` hands to its listener when `packet` arrives, if anything. */
  function HandedOver(packet: seq<byte>, me: Addr): Option<seq<byte>> {
    var o := Received(packet, me);
    if o.Parsed? && o.value.AtEnd?
    then Some(Image(o.value.header) + ParsePacket(packet).value.1)
    else None
  }

  lemma HandedOverOfPacket(h: Header, next: Header, data: seq<byte>, me: Addr)
    requires |h.actions| < 0x100 && next == h.(noJumps := (h.noJumps + 1) % 0x100)
    ensures HandedOver(Image(h) + data, me)
            == if Process(next, me).AtEnd? then Some(Image(Process(next, me).header) + data) else None
  {
    PacketRoundTrip(h, data);
  }

  /** On a path of hops it does not matter whether the start is still to be passed. */
  lemma HopPathProcessing(path: seq<Action>, curr: byte, jumps: byte, me: Addr)
    requires IsHopPath(path) && |path| < 0x100 && curr <= 1
    ensures Process(Header(path, curr, jumps), me).AtEnd? <==> AllHopsTo(path, me)
    ensures AllHopsTo(path, me) ==>
              Process(Header(path, curr, jumps), me) == AtEnd(Header(path, |path| - 1, jumps))
  {
    var h := Header(path, curr, jumps);
    DeliversIff(h, me);
    if AllHopsTo(path, me) {
      forall k: nat | curr as nat <= k < |path| - 1 ensures StaysHere(path[k], me) {
        assert k == 0 || path[k] == LocalConn(path[k].srcAddr, me);
      }
      assert StopsAt(h, me, |path| - 1);
    }
    if Process(h, me).AtEnd? {
      var e: nat :| StopsAt(h, me, e);
      assert e == |path| - 1;
    }
  }

  lemma LastHeaderIsAccepted(path: seq<Action>, data: seq<byte>)
    requires IsHopPath(path) && |path| < 0x100 && Reversible(path)
    ensures var packet := Image(Header(path, |path| - 1, 2)) + data;
      Accept(packet) == Parsed(Accepted(data, Reversed(path)), |packet|)
  {
    PacketRoundTrip(Header(path, |path| - 1, 2), data);
  }

  /**
    A packet sent on a hop path gets through exactly the nodes that every hop leads to, and what is
    handed over there has made two hops and is accepted with the payload sent and the reversed path.
   */
  lemma RequestArrives(path: seq<Action>, data: seq<byte>, me: Addr)
    requires IsHopPath(path) && |path| < 0x100
    ensures HandedOver(Image(SendHeader(path)) + data, me).Some? <==> AllHopsTo(path, me)
    ensures Reversible(path)
    ensures AllHopsTo(path, me) ==>
              var packet := HandedOver(Image(SendHeader(path)) + data, me).value;
              && packet == Image(Header(path, |path| - 1, 2)) + data
              && Accept(packet) == Parsed(Accepted(data, Reversed(path)), |packet|)
  {
    HopPathIsReversible(path);
    HandedOverOfPacket(SendHeader(path), Header(path, 1, 2), data, me);
    HopPathProcessing(path, 1, 2, me);
    LastHeaderIsAccepted(path, data);
  }

  /**
    Request and reply over one hop: a request on start, a -> b, end reaches the node b and no other; the
    reply sent on the path generated there reaches a and no other; both payloads arrive unchanged.
   */
  lemma RequestReply(a: Addr, b: Addr, x: Addr, y: Addr, request: seq<byte>, reply: seq<byte>)
    ensures var path := [Endpoint(START), LocalConn(a, b), Endpoint(END)];
            var there := HandedOver(Image(SendHeader(path)) + request, x);
            && (there.Some? <==> x == b)
            && (there.Some? ==>
                  && Accept(there.value).Parsed? && Accept(there.value).value.Accepted?
                  && Accept(there.value).value.payload == request
                  && var back := Accept(there.value).value.replyPath;
                  && |back| == 3
                  && (HandedOver(Image(SendHeader(back)) + reply, y).Some? <==> y == a)
                  && (y == a ==>
                        && var arrived := HandedOver(Image(SendHeader(back)) + reply, y).value;
                        Accept(arrived) == Parsed(Accepted(reply, path), |arrived|)))
  {
    var path := [Endpoint(START), LocalConn(a, b), Endpoint(END)];
    RequestArrives(path, request, x);
    assert AllHopsTo(path, x) <==> path[1].destAddr == x;
    assert AllHopsFrom(path, y) <==> path[1].srcAddr == y;
    HopPathIsReversible(path);
    ReversedTwice(path);
    RequestArrives(Reversed(path), reply, y);
  }
}
