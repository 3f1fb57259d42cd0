/** What the protocols send into: the packets that reached it, oldest first. */
module SendMedium {
  import opened Bytes

  class Medium {
    var sent: seq<seq<byte>>

    constructor ()
      ensures sent == []
    {
      sent := [];
    }

    method SendData(data: seq<byte>)
      modifies this
      ensures sent == old(sent) + [data]
    {
      sent := sent + [data];
    }
  }
}
