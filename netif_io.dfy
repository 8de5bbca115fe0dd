/** Layout of the Xen split network driver's shared-ring protocol as the
    back end uses it: transmit requests and extra-info records written by the
    front end, and the transmit/receive responses written by the back end,
    together with the constants the back end tests them against. */
module NetifIo {
  import opened Kernel

  const ETH_HLEN: nat := 14
  const ETH_DATA_LEN: nat := 1500
  const ETH_ALEN: nat := 6

  /** Slots in each shared ring page (both rings hold 256 entries). */
  const NET_TX_RING_SIZE: nat := 256
  const NET_RX_RING_SIZE: nat := 256

  /** 65536 / PAGE_SIZE + 2 fragments per packet. */
  const MAX_SKB_FRAGS: nat := 18
  /** Bytes of a large packet copied into the linear header area. */
  const PKT_PROT_LEN: nat := 64

  // Transmit request flags.
  const NETTXF_csum_blank: bv16 := 1
  const NETTXF_data_validated: bv16 := 2
  const NETTXF_more_data: bv16 := 4
  const NETTXF_extra_info: bv16 := 8

  // Receive response flags.
  const NETRXF_data_validated: bv16 := 1
  const NETRXF_csum_blank: bv16 := 2
  const NETRXF_more_data: bv16 := 4
  const NETRXF_extra_info: bv16 := 8

  // Response status codes.
  const NETIF_RSP_DROPPED: int := -2
  const NETIF_RSP_ERROR: int := -1
  const NETIF_RSP_OKAY: int := 0
  const NETIF_RSP_NULL: int := 1

  // Extra-info record types and flags.
  const XEN_NETIF_EXTRA_TYPE_NONE: nat := 0
  const XEN_NETIF_EXTRA_TYPE_GSO: nat := 1
  const XEN_NETIF_EXTRA_TYPE_MAX: nat := 4
  const XEN_NETIF_EXTRA_FLAG_MORE: bv8 := 1
  const XEN_NETIF_GSO_TYPE_TCPV4: nat := 1

  // Grant-table operation status codes.
  const GNTST_okay: int := 0
  const GNTST_general_error: int := -1
  const GNTST_bad_page: int := -9
  const GNTST_eagain: int := -12

  /** A transmit request as the front end places it on the ring. */
  datatype TxRequest = TxRequest(gref: u32, offset: u16, flags: bv16, id: u16, size: u16)

  /** The GSO parameters carried by an extra-info record of type GSO. */
  datatype GsoInfo = GsoInfo(size: u16, gsoType: u8, pad: u8, features: u16)

  /** An extra-info record, which occupies a whole transmit ring slot. */
  datatype ExtraInfo = ExtraInfo(extraType: u8, flags: bv8, gso: GsoInfo)

  /** One transmit ring slot read either as a request or as an extra-info
      record; which reading applies depends on where the slot sits in the
      chain, not on the slot itself. */
  datatype TxSlot = TxSlot(req: TxRequest, extra: ExtraInfo)

  /** What the back end writes into one transmit response slot: an id and a
      status, or, for the slot that follows a request carrying extra info, only
      the status NETIF_RSP_NULL (the id field is left untouched). */
  datatype TxRspSlot = TxRsp(id: u16, status: int) | TxRspNull

  /** A receive response. */
  datatype RxResponse = RxResponse(id: u16, offset: u16, flags: bv16, status: int)

  predicate MoreData(r: TxRequest) { r.flags & NETTXF_more_data != 0 }
  predicate HasExtraInfo(r: TxRequest) { r.flags & NETTXF_extra_info != 0 }
  predicate ExtraMore(e: ExtraInfo) { e.flags & XEN_NETIF_EXTRA_FLAG_MORE != 0 }

  /** The (s16) cast of a 16-bit unsigned value, as two's complement. */
  function S16(v: u16): (r: int)
    ensures -0x8000 <= r < 0x8000
    ensures v < 0x8000 ==> r == v
    ensures v >= 0x8000 ==> r < 0 && r + 0x1_0000 == v
  {
    if v < 0x8000 then v else v - 0x1_0000
  }

  /** Growing a prefix by one element. */
  lemma PrefixStep<T>(s: seq<T>, i: nat)
    requires i < |s|
    ensures s[..i + 1] == s[..i] + [s[i]]
  {
  }

  function Min(a: int, b: int): int { if a <= b then a else b }
  function Max(a: int, b: int): int { if a >= b then a else b }
}
