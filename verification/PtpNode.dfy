/** Packets of the path protocol: writing them, what a node does with one, and replies on the reversed path. */
module PtpNode {
  import opened Bytes
  import opened VarLenBytes
  import opened PtpHeader

  const BUFF_SIZE := 0x1_0000

  // ---------- packets ----------

  /** The buffer is fixed, so the caller keeps header and data within it; 256 actions throw. */
  method WritePacket(h: Header, data: seq<byte>) returns (r: Option<seq<byte>>)
    requires |h.actions| < 0x100 ==> |Image(h)| + |data| <= BUFF_SIZE
    ensures r == if |h.actions| < 0x100 then Some(Image(h) + data) else None
  {
    var buff := new byte[BUFF_SIZE];
    var headerSize := WriteHeader(buff, h);
    if headerSize.None? {
      return None;
    }
    CopyInto(buff, headerSize.value, data);
    return Some(buff[..headerSize.value + |data|]);
  }

  /** A received packet split into header and encapsulated data. */
  function ParsePacket(packet: seq<byte>): (r: Parse<(Header, seq<byte>)>)
    ensures r.Parsed? ==> |r.value.0.actions| < 0x100
  {
    var (h, used) :- ParseHeader(packet);
    Parsed((h, packet[used..]), |packet|)
  }

  lemma PacketRoundTrip(h: Header, data: seq<byte>)
    requires |h.actions| < 0x100
    ensures ParsePacket(Image(h) + data) == Parsed((h, data), |Image(h) + data|)
  {
    HeaderRoundTrip(h, data);
    DropFront(Image(h), data);
  }

  // ---------- the node ----------

  /** The source runs into a bare `throw` when the current action is past the last one. */
  datatype Outcome = AtEnd(header: Header) | Ignored | Terminated

  predicate PassesHere(a: Action, me: Addr) {
    (a.Endpoint? && a.kind == START) || (a.LocalConn? && a.destAddr == me)
  }

  /** What processing comes to: the header as it stands when an end action is reached, if one is. */
  function Process(h: Header, me: Addr): (o: Outcome)
    requires |h.actions| < 0x100
    ensures o.AtEnd? ==> o.header.actions == h.actions && o.header.noJumps == h.noJumps
    decreases |h.actions| - h.currAction
  {
    if h.currAction >= |h.actions| then Terminated
    else
      var a := h.actions[h.currAction];
      if PassesHere(a, me) then Process(h.(currAction := h.currAction + 1), me)
      else if a == Endpoint(END) then AtEnd(h)
      else Ignored
  }

  class Node {
    const myAddr: Addr
    var hasListener: bool
    /** What the endpoint-end listener was handed, oldest first. */
    var delivered: seq<seq<byte>>

    constructor (myAddr: Addr)
      ensures this.myAddr == myAddr && !hasListener && delivered == []
    {
      this.myAddr := myAddr;
      hasListener := false;
      delivered := [];
    }

    /** A null listener is set like any other. */
    method SetRecvAccess(isNull: bool)
      modifies this
      ensures hasListener == !isNull && delivered == old(delivered)
    {
      hasListener := !isNull;
    }

    /** The packets that processing `h` hands to the listener. */
    ghost function Deliveries(h: Header, data: seq<byte>): seq<seq<byte>>
      requires |h.actions| < 0x100
      reads this
    {
      match Process(h, myAddr)
      case AtEnd(g) => if hasListener then [Image(g) + data] else []
      case _ => []
    }

    method HandlePacket(h: Header, data: seq<byte>) returns (outcome: Outcome)
      requires |h.actions| < 0x100 && |Image(h)| + |data| <= BUFF_SIZE
      modifies this
      ensures outcome == Process(h, myAddr)
      ensures delivered == old(delivered) + old(Deliveries(h, data)) && hasListener == old(hasListener)
      decreases |h.actions| - h.currAction
    {
      if h.currAction >= |h.actions| {
        return Terminated;
      }
      var action := h.actions[h.currAction];
      match action
      case Endpoint(kind) =>
        if kind == START {
          outcome := HandlePacket(h.(currAction := h.currAction + 1), data);
        } else if kind == END {
          if hasListener {
            var buff := WritePacket(h, data);
            delivered := delivered + [buff.value];
          }
          outcome := AtEnd(h);
        } else {
          outcome := Ignored;
        }
      case LocalConn(_, dest) =>
        if dest == myAddr {
          outcome := HandlePacket(h.(currAction := h.currAction + 1), data);
        } else {
          outcome := Ignored;
        }
      case NetSwitch(_, _) =>
        outcome := Ignored;
    }

    /** A packet off the network: the hop count goes up by one (it is a byte), then the actions are followed. */
    method HandleRecv(packet: seq<byte>) returns (outcome: Parse<Outcome>)
      requires |packet| <= BUFF_SIZE
      modifies this
      ensures hasListener == old(hasListener)
      ensures outcome == Received(packet, myAddr)
      ensures delivered == old(delivered)
              + if hasListener && outcome.Parsed? && outcome.value.AtEnd?
                then [Image(outcome.value.header) + ParsePacket(packet).value.1] else []
    {
      var r := ExtractHeader(packet);
      if !r.Parsed? {
        return r.PropagateFailure();
      }
      HeaderNeverGrows(packet);
      var next := r.value.(noJumps := (r.value.noJumps + 1) % 0x100);
      var o := HandlePacket(next, packet[r.used..]);
      return Parsed(o, |packet|);
    }
  }

  /** A received packet seen as a whole: parse, count the hop, follow the actions. */
  function Received(packet: seq<byte>, me: Addr): (o: Parse<Outcome>)
    ensures o.Parsed? && o.value.AtEnd? ==>
              ParsePacket(packet).Parsed? && |o.value.header.actions| < 0x100
  {
    var (p, used) :- ParsePacket(packet);
    var next := p.0.(noJumps := (p.0.noJumps + 1) % 0x100);
    Parsed(Process(next, me), used)
  }

  // ---------- when a node delivers ----------

  /** The actions that lead no further than to this node: a start, and a hop to it from wherever. */
  ghost predicate StaysHere(a: Action, me: Addr) {
    a == Endpoint(0) || exists src :: a == LocalConn(src, me)
  }

  /** e is where processing stops to deliver: an end action with nothing but starts and hops to this node before it. */
  ghost predicate StopsAt(h: Header, me: Addr, e: nat) {
    && h.currAction <= e < |h.actions|
    && h.actions[e] == Endpoint(1)
    && forall k :: h.currAction <= k < e ==> StaysHere(h.actions[k], me)
  }

  lemma PassesIffStays(a: Action, me: Addr)
    ensures PassesHere(a, me) <==> StaysHere(a, me)
  {
    if a.LocalConn? && a.destAddr == me {
      assert a == LocalConn(a.srcAddr, me);
    }
  }

  lemma {:induction false} DeliversIff(h: Header, me: Addr)
    requires |h.actions| < 0x100
    ensures Process(h, me).AtEnd? <==> exists e: nat :: StopsAt(h, me, e)
    ensures forall e: nat :: StopsAt(h, me, e) ==> Process(h, me) == AtEnd(h.(currAction := e))
    ensures Process(h, me).Terminated? <==>
            forall k :: h.currAction <= k < |h.actions| ==> StaysHere(h.actions[k], me)
    decreases |h.actions| - h.currAction
  {
    hide StaysHere;
    if h.currAction < |h.actions| {
      var a := h.actions[h.currAction];
      PassesIffStays(a, me);
      if PassesHere(a, me) {
        var next := h.(currAction := h.currAction + 1);
        DeliversIff(next, me);
        forall e: nat
          ensures StopsAt(h, me, e) <==> StopsAt(next, me, e)
        {
        }
      } else if a == Endpoint(END) {
        assert StopsAt(h, me, h.currAction);
        forall e: nat | StopsAt(h, me, e)
          ensures e == h.currAction
        {
        }
      }
    }
  }

  lemma ReceivedOfPacket(h: Header, data: seq<byte>, me: Addr)
    requires |h.actions| < 0x100
    ensures Received(Image(h) + data, me)
         == Parsed(Process(h.(noJumps := (h.noJumps + 1) % 0x100), me), |Image(h) + data|)
  {
    PacketRoundTrip(h, data);
  }
}
