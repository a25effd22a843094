/** NetIO descriptors as a device sees them: what was handed to `netio_send` (common/net_io.c). */
module NetIos {
  import opened Bytes

  /** The outgoing side of a descriptor. */
  class NetIo {
    /** Every packet handed to `netio_send` so far. */
    var sent: seq<seq<Byte>>

    constructor ()
      ensures sent == []
    {
      sent := [];
    }

    method Send(pkt: seq<Byte>)
      modifies this
      ensures sent == old(sent) + [pkt]
    {
      sent := sent + [pkt];
    }
  }
}
