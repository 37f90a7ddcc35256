/**
 * The host-to-dongle side of the msgbuf protocol: posting receive buffers
 * on the RX-post and control submission rings, the data-path counters, TX
 * descriptor posting with doorbell batching, the ioctl request discipline
 * and the protocol-wide clear.  Packet allocation and DMA mapping are
 * foreign calls; each one is a parameter saying whether it succeeded and
 * what it returned.
 */
module MsgbufProt {
  import opened Wrappers
  import opened MsgbufRing
  import opened MsgbufPktid

  /** RX_BUF_BURST: buffers requested per dhd_prot_rxbufpost call. */
  const RX_BUF_BURST: nat := 16
  /** RXBUFPOST_THRESHOLD: re-post once this many buffers have come back. */
  const RXBUFPOST_THRESHOLD: nat := 32
  /** The initial value of the burst counter of dhd_msgbuf_rxbuf_post. */
  const RXBUFPOST_TRIES: nat := 64
  /** DEFAULT_RX_BUFFERS_TO_POST: used when the dongle reports 0. */
  const DEFAULT_RX_BUFFERS_TO_POST: nat := 256
  /** DHD_FLOWRING_MAX_EVENTBUF_POST */
  const MAX_EVENTBUF_POST: nat := 8
  /** DHD_FLOWRING_MAX_IOCTLRESPBUF_POST */
  const MAX_IOCTLRESPBUF_POST: nat := 8
  /** TXP_FLUSH_MAX_ITEMS_FLUSH_CNT */
  const TXP_FLUSH_MAX_ITEMS_FLUSH_CNT: nat := 48
  /** DHD_FLOWRING_DEFAULT_NITEMS_POSTED_H2D */
  const NITEMS_POSTED_H2D: nat := 1
  /** DHD_IOCTL_REQ_PKTID: the request id of every ioctl request message. */
  const IOCTL_REQ_PKTID: nat := 0xFFFE
  /** WLC_IOCTL_MAXLEN */
  const WLC_IOCTL_MAXLEN: nat := 8192
  /** MSGBUF_MAX_MSG_SIZE */
  const MSGBUF_MAX_MSG_SIZE: nat := 1518
  /** WLC_SET_PM, WLC_GET_VAR and WLC_SET_VAR */
  const WLC_SET_PM: nat := 86
  const WLC_GET_VAR: nat := 262
  const WLC_SET_VAR: nat := 263
  /** BCME_STRLEN */
  const BCME_STRLEN: nat := 64
  /** ETHER_HDR_LEN */
  const ETHER_HDR_LEN: nat := 14
  /** The OSL DMA directions. */
  const DMA_TX: nat := 1
  const DMA_RX: nat := 2
  /** Error codes. */
  const BCME_OK: int := 0
  const BCME_ERROR: int := -1
  const BCME_BADARG: int := -2
  const BCME_NORESOURCE: int := -22
  const EIO: int := 5

  const U16: nat := 0x10000
  const U32: nat := 0x1_0000_0000

  // ---------------------------------------------------------------------
  // Integer widths
  // ---------------------------------------------------------------------

  /** A difference of two uint16 values stored into an int16. */
  function Int16(x: int): (v: int)
    requires -(U16 as int) < x < U16 as int
    ensures -0x8000 <= v < 0x8000
    ensures (x - v) % U16 == 0
    ensures 0 <= x < 0x8000 ==> v == x
    ensures 0x8000 <= x ==> v < 0
  {
    if x >= 0x8000 then x - U16 else if x < -0x8000 then x + U16 else x
  }

  /** The remainder is determined by any quotient-remainder decomposition. */
  lemma ModUnique(x: nat, d: nat, q: nat, m: nat)
    requires 0 < d && m < d && x == q * d + m
    ensures x % d == m
  {
    var q', m' := x / d, x % d;
    assert x == q' * d + m';
    if q' < q {
      MulMono(q' + 1, q, d);
      assert false;
    } else if q < q' {
      MulMono(q + 1, q', d);
      assert false;
    }
  }

  /** (x + y) mod d regroups. */
  lemma ModAdd(x: nat, y: nat, d: nat)
    requires 0 < d
    ensures (x % d + y) % d == (x + y) % d
  {
    var q, m := x / d, x % d;
    var q2, m2 := (m + y) / d, (m + y) % d;
    MulAdd(q, q2, d);
    ModUnique(x + y, d, q + q2, m2);
  }

  lemma MulAdd(a: nat, b: nat, d: nat)
    ensures (a + b) * d == a * d + b * d
  {
  }

  /** Rolling back one slot undoes advancing one slot. */
  lemma RewindSucc(s: nat, d: nat)
    requires s < d
    ensures Rewind((s + 1) % d, 1, d) == s
  {
    if s + 1 < d {
      ModUnique(s + 1, d, 0, s + 1);
    } else {
      ModUnique(s + 1, d, 1, 0);
    }
  }

  // ---------------------------------------------------------------------
  // One burst of RX buffers
  // ---------------------------------------------------------------------

  /** A packet obtained by PKTGET and mapped by DMA_MAP. */
  datatype RxBuf = RxBuf(pkt: Pkt, physaddr: nat, len: nat)

  /** The locker NATIVE_TO_PKTID fills for a posted RX data buffer. */
  function RxLocker(b: RxBuf): Locker
  {
    Locker(true, DMA_RX, DataRx, b.len % U16, Some(b.pkt), b.physaddr)
  }

  /** The lockers after the first n buffers took the first n free keys. */
  function Posted(ls: seq<Locker>, fl: seq<nat>, bufs: seq<RxBuf>, n: nat): (ms: seq<Locker>)
    requires n <= |fl| && n <= |bufs|
    requires forall j :: 0 <= j < |fl| ==> fl[j] < |ls|
    ensures |ms| == |ls|
  {
    if n == 0 then ls else Posted(ls, fl, bufs, n - 1)[fl[n - 1] := RxLocker(bufs[n - 1])]
  }

  /**
   * Since the free keys are distinct, the j-th posted buffer is in the j-th
   * free key and every other locker is untouched.
   */
  lemma {:induction false} PostedLockers(ls: seq<Locker>, fl: seq<nat>, bufs: seq<RxBuf>, n: nat)
    requires n <= |fl| && n <= |bufs|
    requires forall j :: 0 <= j < |fl| ==> fl[j] < |ls|
    requires forall i, j :: 0 <= i < j < |fl| ==> fl[i] != fl[j]
    ensures forall j :: 0 <= j < n ==> Posted(ls, fl, bufs, n)[fl[j]] == RxLocker(bufs[j])
    ensures forall k :: 0 <= k < |ls| && k !in fl[..n] ==> Posted(ls, fl, bufs, n)[k] == ls[k]
  {
    if n > 0 {
      PostedLockers(ls, fl, bufs, n - 1);
      forall k | 0 <= k < |ls| && k !in fl[..n]
        ensures Posted(ls, fl, bufs, n)[k] == ls[k]
      {
        assert fl[..n] == fl[..n - 1] + [fl[n - 1]];
      }
    }
  }

  /**
   * The slot loop of dhd_prot_rxbufpost on the pktid map.  bufs are the
   * buffers PKTGET and DMA_MAP deliver, in slot order, before the first one
   * that fails.  Slots are filled until a buffer cannot be had or the map
   * runs out of ids; returns how many were filled.
   */
  method PostSlots(m: PktidMap, n: nat, bufs: seq<RxBuf>) returns (i: nat)
    requires m.Valid()
    modifies m
    ensures m.Valid() && m.items == old(m.items)
    ensures i == Min(Min(n, |bufs|), old(m.avail))
    ensures m.avail == old(m.avail) - i && m.free == old(m.free)[i..]
    ensures m.lockers == Posted(old(m.lockers), old(m.free), bufs, i)
    ensures m.failures == old(m.failures) + (if i < n && i < |bufs| then 1 else 0)
  {
    ghost var avail0, free0, ls0, f0 := m.avail, m.free, m.lockers, m.failures;
    assert forall j :: 0 <= j < |free0| ==> free0[j] < |ls0|;
    i := 0;
    var stop := false;
    while i < n && i < |bufs| && !stop
      invariant SlotsPosted(m, n, bufs, i, stop, old(m.items), avail0, ls0, free0, f0)
      decreases n - i, !stop
    {
      i, stop := PostSlot(m, n, bufs, i, old(m.items), avail0, ls0, free0, f0);
    }
  }

  /** The state of the PostSlots loop after the first i slots. */
  ghost predicate SlotsPosted(m: PktidMap, n: nat, bufs: seq<RxBuf>, i: nat, stop: bool,
                              items0: nat, avail0: nat, ls0: seq<Locker>, free0: seq<nat>, f0: nat)
    reads m
  {
    && m.Valid() && m.items == items0
    && i <= n && i <= |bufs| && i <= avail0 && i <= |free0|
    && (forall j :: 0 <= j < |free0| ==> free0[j] < |ls0|)
    && (stop ==> i < n && i < |bufs| && i == avail0)
    && m.avail == avail0 - i && m.free == free0[i..]
    && m.lockers == Posted(ls0, free0, bufs, i)
    && m.failures == f0 + (if stop then 1 else 0)
  }

  /** One slot of PostSlots: the i-th buffer takes the map's next free key. */
  method PostSlot(m: PktidMap, n: nat, bufs: seq<RxBuf>, i: nat, ghost items0: nat, ghost avail0: nat,
                  ghost ls0: seq<Locker>, ghost free0: seq<nat>, ghost f0: nat)
      returns (i': nat, stop: bool)
    requires SlotsPosted(m, n, bufs, i, false, items0, avail0, ls0, free0, f0) && i < n && i < |bufs|
    modifies m
    ensures SlotsPosted(m, n, bufs, i', stop, items0, avail0, ls0, free0, f0)
    ensures if stop then i' == i else i' == i + 1
  {
    var b := bufs[i];
    var key := m.Alloc(b.pkt, b.physaddr, b.len, DMA_RX, DataRx);
    if key == PKTID_INVALID {
      i', stop := i, true;
    } else {
      DropOne(free0, i);
      i', stop := i + 1, false;
    }
  }

  lemma DropOne(s: seq<nat>, i: nat)
    requires i < |s|
    ensures s[i..][1..] == s[i + 1..]
  {
  }

  /**
   * dhd_prot_rxbufpost: reserve up to count slots on the RX-post ring,
   * fill them with fresh buffers until a buffer or a pktid cannot be had,
   * and rewind the write index over the slots left unfilled.  bufs are the
   * buffers obtained before the first PKTGET or DMA_MAP failure and freshR
   * the dongle's read index for the retry.  The uint8 slot counter keeps
   * count below 256.
   */
  method ProtRxbufpost(m: PktidMap, rxp: MsgRing, count: nat, freshR: nat, bufs: seq<RxBuf>) returns (ret: int)
    requires m.Valid() && rxp.Writable() && count < 0x100
    modifies m, rxp`w, rxp`r, rxp`published
    ensures m.Valid() && rxp.Writable()
    ensures rxp.r == AllocR(old(rxp.r), freshR, old(rxp.w), rxp.maxItem, count)
    ensures rxp.published == if ret > 0 then rxp.w else old(rxp.published)
    ensures m.items == old(m.items)
    ensures var g := AllocGrant(old(rxp.r), freshR, old(rxp.w), rxp.maxItem, count);
      g.None? ==>
        && ret == -1 && rxp.w == old(rxp.w)
        && m.lockers == old(m.lockers) && m.free == old(m.free)
        && m.avail == old(m.avail) && m.failures == old(m.failures)
    ensures var g := AllocGrant(old(rxp.r), freshR, old(rxp.w), rxp.maxItem, count);
      g.Some? ==>
        var p := Min(Min(g.value.count, |bufs|), old(m.avail));
        && ret == p && p <= count
        && rxp.w == (old(rxp.w) + p) % rxp.maxItem
        && m.avail == old(m.avail) - p
        && m.free == old(m.free)[p..]
        && m.lockers == Posted(old(m.lockers), old(m.free), bufs, p)
        && m.failures == old(m.failures) + (if p < g.value.count && p < |bufs| then 1 else 0)
  {
    ghost var w0 := rxp.w;
    var g := rxp.AllocRingSpace(count, freshR);
    if g.None? {
      return -1;
    }
    AllocGrantAt(old(rxp.r), freshR, w0, rxp.maxItem, count);
    assert g == RingSpace(rxp.r, w0, rxp.maxItem, count);
    GrantShape(rxp.r, w0, rxp.maxItem, count);
    var i := FillGrant(m, rxp, w0, g.value.count, bufs);
    if i > 0 {
      rxp.WriteComplete();
    }
    ret := i;
  }

  /**
   * The slots granted from w0 are filled in order; the write index is then
   * rewound over the ones left empty, so it ends just past the filled ones.
   */
  method FillGrant(m: PktidMap, rxp: MsgRing, ghost w0: nat, n: nat, bufs: seq<RxBuf>) returns (i: nat)
    requires m.Valid() && rxp.Writable()
    requires w0 + n <= rxp.maxItem && rxp.w == (w0 + n) % rxp.maxItem
    modifies m, rxp`w
    ensures m.Valid() && rxp.Writable() && m.items == old(m.items)
    ensures i == Min(Min(n, |bufs|), old(m.avail))
    ensures rxp.w == (w0 + i) % rxp.maxItem
    ensures m.avail == old(m.avail) - i && m.free == old(m.free)[i..]
    ensures m.lockers == Posted(old(m.lockers), old(m.free), bufs, i)
    ensures m.failures == old(m.failures) + (if i < n && i < |bufs| then 1 else 0)
  {
    i := PostSlots(m, n, bufs);
    if i < n {
      ghost var d := rxp.maxItem;
      if w0 + n == d {
        ModUnique(w0 + n, d, 1, 0);
      } else {
        ModUnique(w0 + n, d, 0, w0 + n);
      }
      rxp.RewindWrite(n - i);
      assert rxp.w == w0 + i;
      ModUnique(w0 + i, d, 0, w0 + i);
    }
  }

  // ---------------------------------------------------------------------
  // The H2D protocol state
  // ---------------------------------------------------------------------

  /** The buffer type a control-path buffer is saved under. */
  function CtrlBufType(eventBuf: bool): BufType
  {
    if eventBuf then EventRx else IoctlRx
  }

  /** The locker of a posted control-path buffer. */
  function CtrlLocker(b: RxBuf, eventBuf: bool): Locker
  {
    Locker(true, DMA_RX, CtrlBufType(eventBuf), b.len % U16, Some(b.pkt), b.physaddr)
  }

  /** A control-path buffer that was obtained and DMA-mapped to a non-zero address. */
  predicate Mapped(buf: Option<RxBuf>)
  {
    buf.Some? && buf.value.physaddr != 0
  }

  /** The posted count after rxcnt buffers come back: a saturating subtraction. */
  function Returned(rxbufpost: nat, rxcnt: nat): (n: nat)
    ensures n <= rxbufpost
    ensures rxcnt <= rxbufpost ==> n + rxcnt == rxbufpost
    ensures rxbufpost < rxcnt ==> n == 0
  {
    if rxbufpost >= rxcnt then rxbufpost - rxcnt else 0
  }

  /** dhd_prot_return_rxbuf refills when the posted count is RXBUFPOST_THRESHOLD below the limit. */
  predicate RefillDue(rxbufpost: nat, rxcnt: nat, maxRxbufpost: nat)
  {
    Returned(rxbufpost, rxcnt) + RXBUFPOST_THRESHOLD <= maxRxbufpost
  }

  /** The length dhd_prot_txdata maps: the uint32 frame length less the Ethernet header. */
  function TxPayloadLen(frameLen: nat): (n: nat)
    requires frameLen < U32
    ensures n < U32
    ensures ETHER_HDR_LEN <= frameLen ==> n + ETHER_HDR_LEN == frameLen
    ensures frameLen < ETHER_HDR_LEN ==> n + ETHER_HDR_LEN == frameLen + U32
  {
    (frameLen + U32 - ETHER_HDR_LEN) % U32
  }

  /** The locker of a posted TX packet. */
  function TxLocker(pkt: Pkt, frameLen: nat, physaddr: nat): Locker
    requires frameLen < U32
  {
    Locker(true, DMA_TX, DataTx, TxPayloadLen(frameLen) % U16, Some(pkt), physaddr)
  }

  /** NATIVE_TO_PKTID_CLEAR as dhd_prot_clear relies on it: every id is free again. */
  method ClearMap(m: PktidMap)
    requires m.Valid()
    modifies m
    ensures m.Valid() && m.items == old(m.items)
    ensures m.avail == m.items && m.failures == 0 && m.InUse() == []
  {
    m.Clear();
  }

  /** The dhd_prot_ring_clear calls of dhd_prot_clear, in its order. */
  method ClearRings(txp: MsgRing, rxp: MsgRing, ctrl: MsgRing, txCpln: MsgRing, rxCpln: MsgRing, ctrlCpln: MsgRing)
    requires txp.Valid() && rxp.Valid() && ctrl.Valid() && txCpln.Valid() && rxCpln.Valid() && ctrlCpln.Valid()
    modifies txp`w, txp`r, rxp`w, rxp`r, ctrl`w, ctrl`r
    modifies txCpln`w, txCpln`r, rxCpln`w, rxCpln`r, ctrlCpln`w, ctrlCpln`r
    ensures rxp.Writable() && ctrl.Writable()
    ensures rxp.w == 0 && rxp.r == 0 && ctrl.w == 0 && ctrl.r == 0 && txp.w == 0 && txp.r == 0
    ensures txCpln.w == 0 && txCpln.r == 0 && rxCpln.w == 0 && rxCpln.r == 0
    ensures ctrlCpln.w == 0 && ctrlCpln.r == 0
  {
    txp.Clear();
    rxp.Clear();
    ctrl.Clear();
    txCpln.Clear();
    rxCpln.Clear();
    ctrlCpln.Clear();
  }

  /**
   * The err_free_pktid path of dhd_prot_txdata: a reserved id goes back to
   * the tail of the free list (PKTID_TO_NATIVE with BUFF_TYPE_NO_CHECK).
   */
  method ReleaseReserved(m: PktidMap, key: nat)
    requires m.Valid() && 1 <= key < |m.lockers| && m.lockers[key].inuse
    modifies m
    ensures m.Valid() && m.items == old(m.items) && m.failures == old(m.failures)
    ensures m.avail == old(m.avail) + 1 && m.free == old(m.free) + [key]
    ensures m.lockers == old(m.lockers)[key := Opened(old(m.lockers[key]))]
  {
    var pkt, physaddr, len := m.Free(key, NoCheck);
  }

  /**
   * The metadata-failure exit of dhd_prot_txdata: the slot just written is
   * given back (DHD_RING_WR_REWIND of one item) and the pktid released.
   */
  method TxRollback(m: PktidMap, ring: MsgRing, key: nat, slot: nat)
    requires m.Valid() && ring.Writable() && 1 <= key < |m.lockers| && m.lockers[key].inuse
    requires slot < ring.maxItem && ring.w == (slot + 1) % ring.maxItem
    modifies m, ring`w
    ensures m.Valid() && ring.Writable() && ring.w == slot
    ensures m.items == old(m.items) && m.failures == old(m.failures) && m.avail == old(m.avail) + 1
  {
    RewindSucc(slot, ring.maxItem);
    ring.RewindWrite(1);
    ReleaseReserved(m, key);
  }

  /**
   * The ring part of dhd_prot_txdata: reserve one slot, and hand it back
   * when the payload mapping (physaddr) failed.
   */
  method TxSlot(ring: MsgRing, freshR: nat, physaddr: nat) returns (ok: bool, slot: nat)
    requires ring.Writable()
    modifies ring`w, ring`r
    ensures ring.Writable()
    ensures ok <==> physaddr != 0 && AllocGrant(old(ring.r), freshR, old(ring.w), ring.maxItem, NITEMS_POSTED_H2D).Some?
    ensures ring.r == AllocR(old(ring.r), freshR, old(ring.w), ring.maxItem, NITEMS_POSTED_H2D)
    ensures ok ==> slot == old(ring.w) && ring.w == (slot + 1) % ring.maxItem
    ensures !ok ==> ring.w == old(ring.w)
  {
    ghost var w0 := ring.w;
    ok, slot := false, 0;
    var g := ring.AllocRingSpace(NITEMS_POSTED_H2D, freshR);
    if g.None? {
      return;
    }
    AllocGrantAt(old(ring.r), freshR, w0, ring.maxItem, NITEMS_POSTED_H2D);
    assert g == RingSpace(ring.r, w0, ring.maxItem, NITEMS_POSTED_H2D);
    GrantShape(ring.r, w0, ring.maxItem, NITEMS_POSTED_H2D);
    if physaddr == 0 {
      RewindSucc(w0, ring.maxItem);
      ring.RewindWrite(1);
      return;
    }
    ok, slot := true, g.value.start;
  }

  /**
   * The part of dhd_prot_txdata up to the batching count: reserve a
   * pktid, reserve one slot on the flow ring, map the payload and save
   * it under the pktid.  A failure undoes what was done before it.
   * physaddr is what DMA_MAP returned (0 is a failed mapping).
   */
  method TxDescriptor(m: PktidMap, ring: MsgRing, pkt: Pkt, frameLen: nat, freshR: nat, physaddr: nat)
    returns (ok: bool, key: nat, slot: nat)
    requires m.Valid() && ring.PendAccounted()
    requires frameLen < U32
    modifies m, ring`w, ring`r, ring`pendItemsCount, ring`startSlot
    ensures m.Valid() && ring.Writable()
    ensures m.items == old(m.items)
    ensures ok <==>
      && old(m.avail) > 0 && physaddr != 0
      && AllocGrant(old(ring.r), freshR, old(ring.w), ring.maxItem, NITEMS_POSTED_H2D).Some?
    ensures ring.r == if old(m.avail) > 0
      then AllocR(old(ring.r), freshR, old(ring.w), ring.maxItem, NITEMS_POSTED_H2D) else old(ring.r)
    ensures ok ==>
      && key == old(m.free[0]) && slot == old(ring.w)
      && ring.w == (slot + 1) % ring.maxItem
      && m.avail == old(m.avail) - 1 && m.free == old(m.free[1..])
      && m.failures == old(m.failures)
      && m.lockers == old(m.lockers)[key := TxLocker(pkt, frameLen, physaddr)]
      && ring.pendItemsCount == old(ring.pendItemsCount) + 1
      && ring.startSlot == (if old(ring.pendItemsCount) == 0 then Some(slot) else old(ring.startSlot))
    ensures !ok ==>
      && ring.w == old(ring.w)
      && ring.pendItemsCount == old(ring.pendItemsCount) && ring.startSlot == old(ring.startSlot)
      && m.avail == old(m.avail)
    ensures !ok && old(m.avail) == 0 ==>
      && m.failures == old(m.failures) + 1
      && m.free == old(m.free) && m.lockers == old(m.lockers)
    ensures !ok && old(m.avail) > 0 ==>
      && m.failures == old(m.failures)
      && m.free == old(m.free[1..]) + [old(m.free[0])]
      && m.lockers == old(m.lockers)[old(m.free[0]) := Opened(old(m.lockers[m.free[0]]))]
  {
    ok, slot := false, 0;
    key := m.Reserve(pkt, DataTx);
    if key == PKTID_INVALID {
      return;
    }
    ok, slot := TxPlace(m, ring, key, pkt, frameLen, freshR, physaddr);
  }

  /**
   * dhd_prot_txdata once the pktid key is reserved for pkt: take a slot,
   * then either save the mapping under key and count the slot into the
   * pending batch, or give key back.
   */
  method TxPlace(m: PktidMap, ring: MsgRing, key: nat, pkt: Pkt, frameLen: nat, freshR: nat, physaddr: nat)
    returns (ok: bool, slot: nat)
    requires m.Valid() && ring.PendAccounted() && frameLen < U32
    requires 1 <= key <= m.MapItems() && key < |m.lockers| && m.lockers[key].inuse
    modifies m, ring`w, ring`r, ring`pendItemsCount, ring`startSlot
    ensures m.Valid() && ring.Writable()
    ensures m.items == old(m.items) && m.failures == old(m.failures)
    ensures ok <==> physaddr != 0 && AllocGrant(old(ring.r), freshR, old(ring.w), ring.maxItem, NITEMS_POSTED_H2D).Some?
    ensures ring.r == AllocR(old(ring.r), freshR, old(ring.w), ring.maxItem, NITEMS_POSTED_H2D)
    ensures ok ==>
      && slot == old(ring.w) && ring.w == (slot + 1) % ring.maxItem
      && m.avail == old(m.avail) && m.free == old(m.free)
      && m.lockers == old(m.lockers)[key := old(m.lockers[key]).(dma := DMA_TX, bufType := DataTx,
                        physaddr := physaddr, len := TxPayloadLen(frameLen) % U16)]
      && ring.pendItemsCount == old(ring.pendItemsCount) + 1
      && ring.startSlot == (if old(ring.pendItemsCount) == 0 then Some(slot) else old(ring.startSlot))
    ensures !ok ==>
      && ring.w == old(ring.w)
      && ring.pendItemsCount == old(ring.pendItemsCount) && ring.startSlot == old(ring.startSlot)
      && m.avail == old(m.avail) + 1 && m.free == old(m.free) + [key]
      && m.lockers == old(m.lockers)[key := Opened(old(m.lockers[key]))]
  {
    ok, slot := TxSlot(ring, freshR, physaddr);
    if !ok {
      ReleaseReserved(m, key);
      return;
    }
    m.Save(key, physaddr, TxPayloadLen(frameLen), DMA_TX, DataTx);
    ring.PendOne(slot);
  }

  // ---------------------------------------------------------------------
  // Ioctl values
  // ---------------------------------------------------------------------

  type Byte = b: nat | b < 256

  /** The iovar names dhd_prot_ioctl and dhdmsgbuf_query_ioctl compare against, in ASCII. */
  const BCMERRORSTR: seq<Byte> := [98, 99, 109, 101, 114, 114, 111, 114, 115, 116, 114]  // "bcmerrorstr"
  const BCMERROR: seq<Byte> := [98, 99, 109, 101, 114, 114, 111, 114]                    // "bcmerror"
  const WME_DP: seq<Byte> := [119, 109, 101, 95, 100, 112]                              // "wme_dp"

  /** The C string at the start of a buffer: the bytes before the first NUL. */
  function CStr(b: seq<Byte>): (c: seq<Byte>)
    ensures |c| <= |b| && c == b[..|c|]
    ensures forall i :: 0 <= i < |c| ==> c[i] != 0
    ensures |c| < |b| ==> b[|c|] == 0
  {
    if b == [] || b[0] == 0 then [] else [b[0]] + CStr(b[1..])
  }

  /** A byte of a buffer; bytes past its end read as 0. */
  function ByteAt(b: seq<Byte>, i: nat): Byte
  {
    if i < |b| then b[i] else 0
  }

  /** The ioctl request message dhd_fillup_ioct_reqst_ptrbased writes. */
  datatype IoctlReq = IoctlReq(cmd: nat, ifidx: int, requestId: nat, outputBufLen: nat,
                               inputBufLen: nat, transId: nat)

  /** What dhd_bus_rxctl hands back for an ioctl: its return and the completion message. */
  datatype IoctlResp = IoctlResp(retlen: int, status: int, respLen: nat, pktid: nat)

  /**
   * The outcomes of the foreign calls one ioctl makes: the control ring's
   * fresh read index, the buffers and read indices for re-posting
   * response buffers, and the dongle's answer.
   */
  datatype IoctlEnv = IoctlEnv(freshR: nat, postBufs: nat -> Option<RxBuf>, postFreshR: nat -> nat,
                               resp: IoctlResp)

  /** The two iovars dhdmsgbuf_query_ioctl answers from the host's cache. */
  datatype LocalAnswer = ErrorStr(copylen: nat) | ErrorCode(code: int)

  /** What dhdmsgbuf_query_ioctl does with a WLC_GET_VAR buffer before asking the dongle. */
  datatype QueryRoute = BadArg | Local(answer: LocalAnswer) | ToDongle

  /**
   * The host-side screening of dhdmsgbuf_query_ioctl: an empty length or
   * an empty iovar name is a bad argument, and "bcmerrorstr" and
   * "bcmerror" are answered from dongleError when len covers the name.
   */
  function QueryRouteOf(cmd: nat, buf: Option<seq<Byte>>, len: nat, dongleError: int): (q: QueryRoute)
    ensures cmd != WLC_GET_VAR || buf.None? ==> q == ToDongle
    ensures q == BadArg <==> cmd == WLC_GET_VAR && buf.Some? && (len == 0 || ByteAt(buf.value, 0) == 0)
    ensures q.Local? ==> (cmd == WLC_GET_VAR && buf.Some? && len > 0 &&
      (CStr(buf.value) == BCMERRORSTR || CStr(buf.value) == BCMERROR))
  {
    if cmd == WLC_GET_VAR && buf.Some? then
      if len == 0 || ByteAt(buf.value, 0) == 0 then BadArg
      else if len >= |BCMERRORSTR| && CStr(buf.value) == BCMERRORSTR then Local(ErrorStr(Min(len, BCME_STRLEN)))
      else if len >= |BCMERROR| && CStr(buf.value) == BCMERROR then Local(ErrorCode(dongleError))
      else ToDongle
    else ToDongle
  }

  /**
   * The result of dhdmsgbuf_cmplt: -1 when the bus is down, or when no
   * response buffer was posted before the call (hadBuf) and none could
   * be posted in it; otherwise the bus's return when it is not positive,
   * and the completion status when it is.
   */
  function CmpltRet(busDown: bool, hadBuf: bool, posted: nat, resp: IoctlResp): int
  {
    if busDown || (!hadBuf && posted == 0) then -1
    else if resp.retlen <= 0 then resp.retlen
    else resp.status
  }

  /**
   * Whether the set or query half of dhd_prot_ioctl asks the dongle: a set
   * unless the bus is down or a hang was sent, a query when its iovar is
   * not screened on the host.
   */
  predicate DongleBound(isSet: bool, busDown: bool, hangSent: bool, route: QueryRoute)
  {
    if isSet then !busDown && !hangSent else route == ToDongle
  }

  /**
   * The result of the set or query half of dhd_prot_ioctl: -EIO for a set
   * the bus cannot take, the host's answer for a screened query, -1 when
   * no control-ring slot was granted (sent is false), else what
   * dhdmsgbuf_cmplt returns.
   */
  function IssueRet(isSet: bool, busDown: bool, hangSent: bool, route: QueryRoute, sent: bool,
                    hadBuf: bool, posted: nat, resp: IoctlResp): int
  {
    if isSet && (busDown || hangSent) then -EIO
    else if !isSet && route == BadArg then BCME_BADARG
    else if !isSet && route.Local? then 0
    else if !sent then -1
    else CmpltRet(busDown, hadBuf, posted, resp)
  }

  /**
   * A request sent to the dongle with a response buffer in place reports
   * the dongle's answer: the bus's return when it is not positive, else
   * the completion status.  The ioctl then succeeds exactly when the bus
   * returned 0 or the dongle's status is non-negative.
   */
  lemma DongleAnswerReported(isSet: bool, hangSent: bool, route: QueryRoute, hadBuf: bool, posted: nat,
                             resp: IoctlResp)
    requires DongleBound(isSet, false, hangSent, route) && (hadBuf || posted > 0)
    ensures var inner := IssueRet(isSet, false, hangSent, route, true, hadBuf, posted, resp);
      && inner == (if resp.retlen <= 0 then resp.retlen else resp.status)
      && (Normalised(inner) == 0 <==> resp.retlen == 0 || (resp.retlen > 0 && resp.status >= 0))
  {
  }

  /** dhd_prot_ioctl's normalisation: any non-negative result is 0. */
  function Normalised(ret: int): (n: int)
    ensures n <= 0
    ensures n == 0 <==> ret >= 0
    ensures ret < 0 ==> n == ret
  {
    if ret >= 0 then 0 else ret
  }

  /** The wme_dp value a successful WLC_SET_VAR "wme_dp" installs: the low byte of the int after the name. */
  function WmeDp(buf: seq<Byte>, len: int): (v: nat)
    ensures v < 256
    ensures len < 11 ==> v == 0
  {
    if len >= 11 then ByteAt(buf, 7) else 0
  }

  class H2dProt {
    /** prot->pktid_map_handle */
    const pktids: PktidMap
    /** prot->h2dring_rxp_subn */
    const rxp: MsgRing
    /** prot->h2dring_ctrl_subn */
    const ctrl: MsgRing
    /** RX data buffers the dongle holds (uint16). */
    var rxbufpost: nat
    /** What the dongle accepts (uint16). */
    var maxRxbufpost: nat
    var maxEventbufpost: nat
    var maxIoctlrespbufpost: nat
    var curEventBufsPosted: nat
    var curIoctlrespBufsPosted: nat
    /** TX packets handed to the dongle and not yet completed (uint16). */
    var activeTxCount: nat
    /** Doorbell batching threshold (uint16). */
    var txpThreshold: nat
    var txMetadataOffset: nat
    /** An ioctl is in flight. */
    var pending: bool
    var lastcmd: nat
    /** uint16 transaction id of the next ioctl request. */
    var ioctlTransId: nat
    /** dhd->dongle_error */
    var dongleError: int
    /** dhd->wme_dp */
    var wmeDp: nat

    ghost predicate Valid()
      reads this, pktids, rxp, ctrl
    {
      && pktids.Valid() && rxp.Writable() && ctrl.Writable() && rxp != ctrl
      && rxbufpost <= maxRxbufpost < U16
      && curEventBufsPosted <= maxEventbufpost < U16
      && curIoctlrespBufsPosted <= maxIoctlrespbufpost < U16
      && activeTxCount < U16 && txpThreshold < U16 && ioctlTransId < U16
    }

    /**
     * The zeroed structure of dhd_prot_attach with the settings of
     * dhd_prot_init: the dongle's MAX_HOST_RXBUFS (0 when the shared
     * structure predates it) and the fixed control-path limits.  The posts
     * that end dhd_prot_init are InitialPosts.
     */
    constructor Init(pktids: PktidMap, rxp: MsgRing, ctrl: MsgRing, dongleMaxRx: nat)
      requires pktids.Valid() && rxp.Writable() && ctrl.Writable() && rxp != ctrl
      requires dongleMaxRx < U16
      ensures Valid()
      ensures this.pktids == pktids && this.rxp == rxp && this.ctrl == ctrl
      ensures maxRxbufpost == if dongleMaxRx == 0 then DEFAULT_RX_BUFFERS_TO_POST else dongleMaxRx
      ensures maxEventbufpost == MAX_EVENTBUF_POST && maxIoctlrespbufpost == MAX_IOCTLRESPBUF_POST
      ensures txpThreshold == TXP_FLUSH_MAX_ITEMS_FLUSH_CNT && ioctlTransId == 1
      ensures rxbufpost == 0 && curEventBufsPosted == 0 && curIoctlrespBufsPosted == 0
      ensures activeTxCount == 0 && !pending && txMetadataOffset == 0
    {
      this.pktids, this.rxp, this.ctrl := pktids, rxp, ctrl;
      maxRxbufpost := if dongleMaxRx == 0 then DEFAULT_RX_BUFFERS_TO_POST else dongleMaxRx;
      maxEventbufpost, maxIoctlrespbufpost := MAX_EVENTBUF_POST, MAX_IOCTLRESPBUF_POST;
      rxbufpost, curEventBufsPosted, curIoctlrespBufsPosted := 0, 0, 0;
      activeTxCount, txpThreshold, txMetadataOffset := 0, TXP_FLUSH_MAX_ITEMS_FLUSH_CNT, 0;
      pending, lastcmd, ioctlTransId, dongleError, wmeDp := false, 0, 1, 0, 0;
    }

    /**
     * One burst of dhd_msgbuf_rxbuf_post: post fill buffers and count the
     * ones the dongle now holds.
     */
    method RxBurst(fill: nat, freshR: nat, bufs: seq<RxBuf>) returns (last: int)
      requires Valid() && 1 <= fill <= RX_BUF_BURST && rxbufpost + fill <= maxRxbufpost
      modifies this`rxbufpost, pktids, rxp`w, rxp`r, rxp`published
      ensures Valid()
      ensures last <= fill
      ensures rxbufpost == old(rxbufpost) + (if last > 0 then last else 0)
      ensures rxp.published == if last > 0 then rxp.w else old(rxp.published)
      ensures pktids.avail + (rxbufpost - old(rxbufpost)) == old(pktids.avail)
      ensures rxp.w == (old(rxp.w) + (rxbufpost - old(rxbufpost))) % rxp.maxItem
    {
      last := ProtRxbufpost(pktids, rxp, fill, freshR, bufs);
      if last > 0 {
        rxbufpost := (rxbufpost + last) % U16;
      } else {
        ModUnique(old(rxp.w), rxp.maxItem, 0, old(rxp.w));
      }
    }

    /**
     * dhd_msgbuf_rxbuf_post: top the RX-post ring up towards maxRxbufpost in
     * bursts of at most RX_BUF_BURST.  The int16 gap makes a gap of 0x8000
     * or more look negative, and the uint16 counter starting at 64 allows
     * at most 63 bursts.  Burst k uses freshR(k) and bufs(k); bursts is the
     * number of bursts made and last the last burst's result.
     */
    method RxbufPost(freshR: nat -> nat, bufs: nat -> seq<RxBuf>) returns (bursts: nat, last: int)
      requires Valid()
      modifies this`rxbufpost, pktids, rxp`w, rxp`r, rxp`published
      ensures Valid()
      ensures bursts < RXBUFPOST_TRIES
      ensures old(rxbufpost) <= rxbufpost
      ensures rxp.published == if rxbufpost == old(rxbufpost) then old(rxp.published) else rxp.w
      ensures pktids.avail + (rxbufpost - old(rxbufpost)) == old(pktids.avail)
      ensures rxp.w == (old(rxp.w) + (rxbufpost - old(rxbufpost))) % rxp.maxItem
      ensures Int16(maxRxbufpost - old(rxbufpost)) <= 0 ==> bursts == 0 && rxbufpost == old(rxbufpost)
      ensures bursts > 0 ==> rxbufpost == maxRxbufpost || last <= 0 || bursts == RXBUFPOST_TRIES - 1
    {
      ghost var r0, w0, a0 := rxbufpost, rxp.w, pktids.avail;
      var fill := Int16(maxRxbufpost - rxbufpost);
      ghost var gap0 := fill;
      bursts, last := 0, 0;
      ModUnique(w0, rxp.maxItem, 0, w0);
      while fill > 0
        invariant Valid()
        invariant bursts < RXBUFPOST_TRIES
        invariant r0 <= rxbufpost && pktids.avail + (rxbufpost - r0) == a0
        invariant rxp.published == if rxbufpost == r0 then old(rxp.published) else rxp.w
        invariant rxp.w == (w0 + (rxbufpost - r0)) % rxp.maxItem
        invariant bursts == 0 ==> rxbufpost == r0 && fill == gap0
        invariant bursts > 0 ==> gap0 > 0
        invariant fill > 0 ==> fill == maxRxbufpost - rxbufpost
        invariant bursts > 0 && fill <= 0 ==> rxbufpost == maxRxbufpost || last <= 0
        decreases RXBUFPOST_TRIES - bursts
      {
        if bursts == RXBUFPOST_TRIES - 1 {
          break;
        }
        ghost var rb := rxbufpost;
        last := RxBurst(Min(fill, RX_BUF_BURST), freshR(bursts), bufs(bursts));
        ModAdd(w0 + (rb - r0), rxbufpost - rb, rxp.maxItem);
        bursts := bursts + 1;
        if last > 0 && rxbufpost < maxRxbufpost {
          // The gap only shrinks after the first burst, so its int16 value is the gap itself.
          fill := maxRxbufpost - rxbufpost;
        } else {
          fill := 0;
        }
      }
    }

    /**
     * dhd_prot_rxbufpost_ctrl: post one ioctl-response or event buffer on
     * the control submission ring.  buf is the packet PKTGET and DMA_MAP
     * produced (None when PKTGET failed, physaddr 0 when the mapping
     * failed) and freshR the dongle's read index for the ring retry.  When
     * no pktid is left the slot already reserved is handed back.
     */
    method RxbufpostCtrl(eventBuf: bool, busDown: bool, buf: Option<RxBuf>, freshR: nat) returns (ret: int)
      requires Valid()
      modifies pktids, ctrl`w, ctrl`r, ctrl`published
      ensures Valid()
      ensures pktids.items == old(pktids.items)
      ensures ret == 1 || ret == -1
      ensures ctrl.published == if ret == 1 then ctrl.w else old(ctrl.published)
      ensures ret == 1 <==>
        && !busDown && Mapped(buf)
        && AllocGrant(old(ctrl.r), freshR, old(ctrl.w), ctrl.maxItem, NITEMS_POSTED_H2D).Some?
        && old(pktids.avail) > 0
      ensures ctrl.r == if !busDown && Mapped(buf)
        then AllocR(old(ctrl.r), freshR, old(ctrl.w), ctrl.maxItem, NITEMS_POSTED_H2D) else old(ctrl.r)
      ensures ret == 1 ==>
        && ctrl.w == (old(ctrl.w) + 1) % ctrl.maxItem
        && pktids.avail == old(pktids.avail) - 1 && pktids.free == old(pktids.free[1..])
        && pktids.lockers == old(pktids.lockers)[old(pktids.free[0]) := CtrlLocker(buf.value, eventBuf)]
        && pktids.failures == old(pktids.failures)
      ensures ret == -1 ==>
        && ctrl.w == old(ctrl.w)
        && pktids.avail == old(pktids.avail) && pktids.free == old(pktids.free)
        && pktids.lockers == old(pktids.lockers)
        && pktids.failures == old(pktids.failures) +
           (if !busDown && Mapped(buf)
              && AllocGrant(old(ctrl.r), freshR, old(ctrl.w), ctrl.maxItem, NITEMS_POSTED_H2D).Some?
            then 1 else 0)
    {
      if busDown || !Mapped(buf) {
        return -1;
      }
      ghost var w0 := ctrl.w;
      var g := ctrl.AllocRingSpace(NITEMS_POSTED_H2D, freshR);
      if g.None? {
        return -1;
      }
      AllocGrantAt(old(ctrl.r), freshR, w0, ctrl.maxItem, NITEMS_POSTED_H2D);
      assert g == RingSpace(ctrl.r, w0, ctrl.maxItem, NITEMS_POSTED_H2D);
      GrantShape(ctrl.r, w0, ctrl.maxItem, NITEMS_POSTED_H2D);
      var b := buf.value;
      var key := pktids.Alloc(b.pkt, b.physaddr, b.len, DMA_RX, CtrlBufType(eventBuf));
      if key == PKTID_INVALID {
        RewindAfterGrant(ctrl.r, w0, ctrl.maxItem, NITEMS_POSTED_H2D, 1);
        ctrl.RewindWrite(1);
        ret := -1;
      } else {
        ctrl.WriteComplete();
        ret := 1;
      }
    }

    /**
     * dhd_msgbuf_rxbuf_post_ctrlpath: post control-path buffers one at a
     * time until maxToPost are posted or one attempt fails.  Attempt k uses
     * bufs(k) and freshR(k).  posted is the uint16 the source returns and
     * tried the full count.
     */
    method PostCtrlpath(eventBuf: bool, busDown: bool, maxToPost: nat, bufs: nat -> Option<RxBuf>, freshR: nat -> nat)
      returns (posted: nat, ghost tried: nat)
      requires Valid()
      modifies pktids, ctrl`w, ctrl`r, ctrl`published
      ensures Valid()
      ensures pktids.items == old(pktids.items)
      ensures busDown ==> tried == 0
      ensures tried <= maxToPost && posted == tried % U16
      ensures ctrl.published == if tried == 0 then old(ctrl.published) else ctrl.w
      ensures pktids.avail + tried == old(pktids.avail)
      ensures ctrl.w == (old(ctrl.w) + tried) % ctrl.maxItem
      ensures !busDown && tried < maxToPost ==>
        !Mapped(bufs(tried)) || pktids.avail == 0 ||
        RingSpace(ctrl.r, ctrl.w, ctrl.maxItem, NITEMS_POSTED_H2D).None?
    {
      ghost var w0, a0 := ctrl.w, pktids.avail;
      var i: nat := 0;
      ModUnique(w0, ctrl.maxItem, 0, w0);
      if !busDown {
        while i < maxToPost
          invariant Valid() && pktids.items == old(pktids.items)
          invariant i <= maxToPost && pktids.avail + i == a0
          invariant ctrl.w == (w0 + i) % ctrl.maxItem
          invariant ctrl.published == if i == 0 then old(ctrl.published) else ctrl.w
          decreases maxToPost - i
        {
          ghost var rb, wb := ctrl.r, ctrl.w;
          var ret := RxbufpostCtrl(eventBuf, busDown, bufs(i), freshR(i));
          if ret < 0 {
            AllocGrantAt(rb, freshR(i), wb, ctrl.maxItem, NITEMS_POSTED_H2D);
            break;
          }
          ModAdd(w0 + i, 1, ctrl.maxItem);
          i := i + 1;
        }
      }
      posted, tried := i % U16, i;
    }

    /**
     * dhd_msgbuf_rxbuf_post_ioctlresp_bufs: top the ioctl-response pool up
     * to its limit.
     */
    method PostIoctlrespBufs(busDown: bool, bufs: nat -> Option<RxBuf>, freshR: nat -> nat) returns (retcnt: nat)
      requires Valid()
      modifies this`curIoctlrespBufsPosted, pktids, ctrl`w, ctrl`r, ctrl`published
      ensures Valid()
      ensures busDown ==> retcnt == 0
      ensures curIoctlrespBufsPosted == old(curIoctlrespBufsPosted) + retcnt
      ensures curIoctlrespBufsPosted <= maxIoctlrespbufpost
      ensures pktids.avail + retcnt == old(pktids.avail)
      ensures ctrl.w == (old(ctrl.w) + retcnt) % ctrl.maxItem
      ensures ctrl.published == if retcnt == 0 then old(ctrl.published) else ctrl.w
    {
      if busDown {
        ModUnique(ctrl.w, ctrl.maxItem, 0, ctrl.w);
        return 0;
      }
      ghost var tried;
      retcnt, tried := PostCtrlpath(false, busDown, maxIoctlrespbufpost - curIoctlrespBufsPosted, bufs, freshR);
      assert pktids.Valid() && rxp.Writable() && ctrl.Writable();
      curIoctlrespBufsPosted := (curIoctlrespBufsPosted + retcnt) % U16;
    }

    /** dhd_msgbuf_rxbuf_post_event_bufs: top the event pool up to its limit. */
    method PostEventBufs(busDown: bool, bufs: nat -> Option<RxBuf>, freshR: nat -> nat) returns (retcnt: nat)
      requires Valid()
      modifies this`curEventBufsPosted, pktids, ctrl`w, ctrl`r, ctrl`published
      ensures Valid()
      ensures busDown ==> retcnt == 0
      ensures curEventBufsPosted == old(curEventBufsPosted) + retcnt
      ensures curEventBufsPosted <= maxEventbufpost
      ensures pktids.avail + retcnt == old(pktids.avail)
      ensures ctrl.w == (old(ctrl.w) + retcnt) % ctrl.maxItem
      ensures ctrl.published == if retcnt == 0 then old(ctrl.published) else ctrl.w
    {
      if busDown {
        ModUnique(ctrl.w, ctrl.maxItem, 0, ctrl.w);
        return 0;
      }
      ghost var tried;
      retcnt, tried := PostCtrlpath(true, busDown, maxEventbufpost - curEventBufsPosted, bufs, freshR);
      assert pktids.Valid() && rxp.Writable() && ctrl.Writable();
      curEventBufsPosted := (curEventBufsPosted + retcnt) % U16;
    }

    /**
     * The end of dhd_prot_init: top up the RX-post ring, then post the
     * ioctl-response buffers; the result is the number of those posted.
     * RX burst k uses rxFreshR(k) and rxBufs(k).
     */
    method InitialPosts(busDown: bool, rxFreshR: nat -> nat, rxBufs: nat -> seq<RxBuf>,
                        bufs: nat -> Option<RxBuf>, freshR: nat -> nat) returns (ret: int)
      requires Valid()
      modifies this`rxbufpost, this`curIoctlrespBufsPosted, pktids, rxp`w, rxp`r, rxp`published,
               ctrl`w, ctrl`r, ctrl`published
      ensures Valid()
      ensures busDown ==> ret == 0
      ensures ret >= 0 && curIoctlrespBufsPosted == old(curIoctlrespBufsPosted) + ret
      ensures curIoctlrespBufsPosted <= maxIoctlrespbufpost
      ensures old(rxbufpost) <= rxbufpost
      ensures pktids.avail + (rxbufpost - old(rxbufpost)) + ret == old(pktids.avail)
      ensures rxp.w == (old(rxp.w) + (rxbufpost - old(rxbufpost))) % rxp.maxItem
      ensures ctrl.w == (old(ctrl.w) + ret) % ctrl.maxItem
      ensures Int16(maxRxbufpost - old(rxbufpost)) <= 0 ==> rxbufpost == old(rxbufpost)
    {
      var bursts, last := RxbufPost(rxFreshR, rxBufs);
      var retcnt := PostIoctlrespBufs(busDown, bufs, freshR);
      ret := retcnt;
    }

    // -------------------------------------------------------------------
    // TX data path
    // -------------------------------------------------------------------



    /**
     * dhd_prot_txdata, as written: post pkt on ring (its flow ring).  With
     * a TX metadata offset and enough headroom the metadata area is mapped
     * too (metaPhysaddr, 0 when that mapping fails).  The batch is flushed
     * when it reaches txpThreshold or the descriptor took the ring's last
     * slot.  The metadata failure path rolls the write index back but keeps
     * the descriptor counted in the pending batch.
     */
    method TxData(ring: MsgRing, haveTable: bool, pkt: Pkt, frameLen: nat, freshR: nat,
                  physaddr: nat, headroom: nat, metaPhysaddr: nat) returns (ret: int, flushed: bool)
      requires Valid() && ring.PendAccounted() && ring != rxp && ring != ctrl
      requires frameLen < U32
      modifies this`activeTxCount, pktids, ring`w, ring`r, ring`published, ring`pendItemsCount, ring`startSlot
      ensures Valid() && ring.Writable()
      ensures ret == BCME_OK || ret == BCME_NORESOURCE
      ensures ret == BCME_OK <==>
        && haveTable && old(pktids.avail) > 0 && physaddr != 0
        && AllocGrant(old(ring.r), freshR, old(ring.w), ring.maxItem, NITEMS_POSTED_H2D).Some?
        && !MetaMapFails(headroom, metaPhysaddr)
      ensures ret == BCME_OK ==>
        && ring.PendAccounted()
        && ring.w == (old(ring.w) + 1) % ring.maxItem
        && pktids.avail == old(pktids.avail) - 1
        && pktids.lockers == old(pktids.lockers)[old(pktids.free[0]) := TxLocker(pkt, frameLen, physaddr)]
        && activeTxCount == (old(activeTxCount) + 1) % U16
        && (flushed <==> old(ring.pendItemsCount) + 1 == txpThreshold || old(ring.w) == ring.maxItem - 1)
        && ring.published == (if flushed then ring.w else old(ring.published))
      ensures ret == BCME_NORESOURCE ==>
        && !flushed && ring.w == old(ring.w) && ring.published == old(ring.published)
        && activeTxCount == old(activeTxCount) && pktids.avail == old(pktids.avail)
      // The finding: a failed metadata mapping leaves the batch count one too high.
      ensures (&& ret == BCME_NORESOURCE && old(pktids.avail) > 0 && physaddr != 0 && haveTable
               && AllocGrant(old(ring.r), freshR, old(ring.w), ring.maxItem, NITEMS_POSTED_H2D).Some?) ==>
        ring.pendItemsCount == old(ring.pendItemsCount) + 1 && !ring.PendAccounted()
    {
      flushed := false;
      if !haveTable {
        return BCME_NORESOURCE, false;
      }
      var ok, key, slot := TxDescriptor(pktids, ring, pkt, frameLen, freshR, physaddr);
      if !ok {
        return BCME_NORESOURCE, false;
      }
      if MetaMapFails(headroom, metaPhysaddr) {
        TxRollback(pktids, ring, key, slot);
        return BCME_NORESOURCE, false;
      }
      flushed := TxFinish(ring, slot);
      ret := BCME_OK;
    }

    /**
     * dhd_prot_txdata with the metadata failure path also taking the
     * descriptor back out of the pending batch: the batch accounting then
     * holds after every call.
     */
    method TxDataCorrected(ring: MsgRing, haveTable: bool, pkt: Pkt, frameLen: nat, freshR: nat,
                           physaddr: nat, headroom: nat, metaPhysaddr: nat) returns (ret: int, flushed: bool)
      requires Valid() && ring.PendAccounted() && ring != rxp && ring != ctrl
      requires frameLen < U32
      modifies this`activeTxCount, pktids, ring`w, ring`r, ring`published, ring`pendItemsCount, ring`startSlot
      ensures Valid() && ring.PendAccounted()
      ensures ret == BCME_OK || ret == BCME_NORESOURCE
      ensures ret == BCME_OK <==>
        && haveTable && old(pktids.avail) > 0 && physaddr != 0
        && AllocGrant(old(ring.r), freshR, old(ring.w), ring.maxItem, NITEMS_POSTED_H2D).Some?
        && !MetaMapFails(headroom, metaPhysaddr)
      ensures ret == BCME_OK ==>
        && ring.w == (old(ring.w) + 1) % ring.maxItem
        && pktids.avail == old(pktids.avail) - 1
        && pktids.lockers == old(pktids.lockers)[old(pktids.free[0]) := TxLocker(pkt, frameLen, physaddr)]
        && activeTxCount == (old(activeTxCount) + 1) % U16
        && (flushed <==> old(ring.pendItemsCount) + 1 == txpThreshold || old(ring.w) == ring.maxItem - 1)
        && ring.published == (if flushed then ring.w else old(ring.published))
      ensures ret == BCME_NORESOURCE ==>
        && !flushed && ring.w == old(ring.w) && ring.published == old(ring.published)
        && ring.pendItemsCount == old(ring.pendItemsCount) && ring.startSlot == old(ring.startSlot)
        && activeTxCount == old(activeTxCount) && pktids.avail == old(pktids.avail)
    {
      flushed := false;
      if !haveTable {
        return BCME_NORESOURCE, false;
      }
      var ok, key, slot := TxDescriptor(pktids, ring, pkt, frameLen, freshR, physaddr);
      if !ok {
        return BCME_NORESOURCE, false;
      }
      if MetaMapFails(headroom, metaPhysaddr) {
        TxRollback(pktids, ring, key, slot);
        ring.UnpendOne();
        return BCME_NORESOURCE, false;
      }
      flushed := TxFinish(ring, slot);
      ret := BCME_OK;
    }

    /** A metadata area is wanted, fits the headroom, and its DMA_MAP returned 0. */
    predicate MetaMapFails(headroom: nat, metaPhysaddr: nat)
      reads this
    {
      txMetadataOffset != 0 && headroom >= txMetadataOffset && metaPhysaddr == 0
    }

    /**
     * The end of a successful dhd_prot_txdata: flush the batch when it is
     * full or the descriptor took the last slot, then count the packet.
     */
    method TxFinish(ring: MsgRing, slot: nat) returns (flushed: bool)
      requires Valid() && ring.Writable() && ring != rxp && ring != ctrl
      requires slot < ring.maxItem && ring.w == (slot + 1) % ring.maxItem
      requires 0 < ring.pendItemsCount
      requires ring.startSlot.Some? && ring.startSlot.value + ring.pendItemsCount == slot + 1
      modifies this`activeTxCount, ring`published, ring`pendItemsCount, ring`startSlot
      ensures Valid() && ring.PendAccounted()
      ensures flushed <==> old(ring.pendItemsCount) == txpThreshold || slot == ring.maxItem - 1
      ensures ring.published == if flushed then ring.w else old(ring.published)
      ensures activeTxCount == (old(activeTxCount) + 1) % U16
    {
      flushed := false;
      if ring.pendItemsCount == txpThreshold || slot == ring.maxItem - 1 {
        flushed := ring.TxFlush();
      } else {
        ModUnique(slot + 1, ring.maxItem, 0, slot + 1);
      }
      activeTxCount := (activeTxCount + 1) % U16;
    }

    /**
     * dhd_prot_txdata_write_flush: announce the ring's pending batch.  No
     * flow ring table means nothing happens.
     */
    method TxdataWriteFlush(ring: MsgRing, haveTable: bool) returns (flushed: bool)
      requires ring.PendAccounted()
      modifies ring`published, ring`pendItemsCount, ring`startSlot
      ensures ring.PendAccounted()
      ensures flushed <==> haveTable && old(ring.pendItemsCount) != 0
      ensures ring.pendItemsCount == if haveTable then 0 else old(ring.pendItemsCount)
      ensures ring.published == if flushed then ring.w else old(ring.published)
    {
      flushed := false;
      if haveTable {
        flushed := ring.TxFlush();
      }
    }

    /**
     * dhd_prot_txstatus_process: a TX completion for pktid.  The in-flight
     * count is decremented only when it is non-zero, and the packet comes
     * back only when pktid names an in-use TX locker.
     */
    method TxstatusProcess(pktid: nat) returns (pkt: Option<Pkt>)
      requires Valid()
      modifies this`activeTxCount, pktids
      ensures Valid()
      ensures activeTxCount == if old(activeTxCount) > 0 then old(activeTxCount) - 1 else 0
      ensures FreeAccepts(old(pktids.lockers), pktid, DataTx) ==>
        pkt == old(pktids.lockers[pktid].pkt) && pktids.avail == old(pktids.avail) + 1 &&
        pktids.free == old(pktids.free) + [pktid]
      ensures !FreeAccepts(old(pktids.lockers), pktid, DataTx) ==>
        pkt == None && pktids.lockers == old(pktids.lockers) && pktids.free == old(pktids.free)
    {
      if activeTxCount > 0 {
        activeTxCount := activeTxCount - 1;
      }
      var physaddr, len;
      pkt, physaddr, len := pktids.Free(pktid, DataTx);
    }

    /**
     * dhd_prot_return_rxbuf: the dongle handed rxcnt RX buffers back.  The
     * posted count drops (to 0 at most) and the ring is refilled once it is
     * RXBUFPOST_THRESHOLD or more below the limit.
     */
    method ReturnRxbuf(rxcnt: nat, freshR: nat -> nat, bufs: nat -> seq<RxBuf>) returns (refilled: bool)
      requires Valid() && rxcnt < U16
      modifies this`rxbufpost, pktids, rxp`w, rxp`r, rxp`published
      ensures Valid()
      ensures refilled <==> RefillDue(old(rxbufpost), rxcnt, maxRxbufpost)
      ensures !refilled ==> rxbufpost == Returned(old(rxbufpost), rxcnt) && rxp.w == old(rxp.w)
      ensures refilled ==> Returned(old(rxbufpost), rxcnt) <= rxbufpost <= maxRxbufpost
    {
      rxbufpost := Returned(rxbufpost, rxcnt);
      refilled := rxbufpost as int <= maxRxbufpost as int - RXBUFPOST_THRESHOLD as int;
      if refilled {
        var _, _ := RxbufPost(freshR, bufs);
      }
    }

    // -------------------------------------------------------------------
    // Ioctl
    // -------------------------------------------------------------------

    /**
     * dhd_fillup_ioct_reqst_ptrbased: one request message on the control
     * submission ring.  The input length is capped at MSGBUF_MAX_MSG_SIZE,
     * the output length is len, and each request takes the next uint16
     * transaction id.
     */
    method FillupIoctReqst(len: nat, cmd: nat, ifidx: int, freshR: nat) returns (ret: int, req: Option<IoctlReq>)
      requires Valid() && len < U16
      modifies this`ioctlTransId, ctrl`w, ctrl`r, ctrl`published
      ensures Valid()
      ensures ctrl.r == AllocR(old(ctrl.r), freshR, old(ctrl.w), ctrl.maxItem, NITEMS_POSTED_H2D)
      ensures ret == 0 || ret == -1
      ensures ret == 0 <==> AllocGrant(old(ctrl.r), freshR, old(ctrl.w), ctrl.maxItem, NITEMS_POSTED_H2D).Some?
      ensures ret == 0 ==>
        && req == Some(IoctlReq(cmd, ifidx, IOCTL_REQ_PKTID, len, Min(len, MSGBUF_MAX_MSG_SIZE), old(ioctlTransId)))
        && ioctlTransId == (old(ioctlTransId) + 1) % U16
        && ctrl.w == (old(ctrl.w) + 1) % ctrl.maxItem && ctrl.published == ctrl.w
      ensures ret == -1 ==>
        req == None && ioctlTransId == old(ioctlTransId) &&
        ctrl.w == old(ctrl.w) && ctrl.published == old(ctrl.published)
    {
      ghost var w0 := ctrl.w;
      var rqstlen := Min(len, MSGBUF_MAX_MSG_SIZE);
      var g := ctrl.AllocRingSpace(NITEMS_POSTED_H2D, freshR);
      if g.None? {
        return -1, None;
      }
      AllocGrantAt(old(ctrl.r), freshR, w0, ctrl.maxItem, NITEMS_POSTED_H2D);
      assert g == RingSpace(ctrl.r, w0, ctrl.maxItem, NITEMS_POSTED_H2D);
      GrantShape(ctrl.r, w0, ctrl.maxItem, NITEMS_POSTED_H2D);
      req := Some(IoctlReq(cmd, ifidx, IOCTL_REQ_PKTID, len, rqstlen, ioctlTransId));
      ioctlTransId := (ioctlTransId + 1) % U16;
      ctrl.WriteComplete();
      ret := 0;
    }

    /**
     * The response buffer of dhdmsgbuf_cmplt: with a non-empty response
     * the buffer is fetched for copying (dhd_prot_packet_get), otherwise
     * it is released (dhd_prot_packet_free).  Either way the pktid returns
     * to the map when it names an in-use ioctl-response locker.
     */
    method IoctlRespBuf(pktid: nat, respLen: nat) returns (pkt: Option<Pkt>)
      requires Valid()
      modifies pktids
      ensures Valid()
      ensures FreeAccepts(old(pktids.lockers), pktid, IoctlRx) ==>
        && pktids.avail == old(pktids.avail) + 1 && pktids.free == old(pktids.free) + [pktid]
        && pktids.lockers == old(pktids.lockers)[pktid := Opened(old(pktids.lockers[pktid]))]
        && pkt == (if respLen != 0 then old(pktids.lockers[pktid].pkt) else None)
      ensures !FreeAccepts(old(pktids.lockers), pktid, IoctlRx) ==>
        && pkt == None && pktids.lockers == old(pktids.lockers)
        && pktids.free == old(pktids.free) && pktids.avail == old(pktids.avail)
    {
      var got, physaddr, plen := pktids.Free(pktid, IoctlRx);
      pkt := if respLen != 0 then got else None;
    }

    /**
     * dhdmsgbuf_cmplt: one response buffer is taken into use (or none was
     * posted), the pool is topped up again, and the dongle's answer is
     * read.  With no buffer before and none re-posted the call fails; a
     * non-positive bus return is passed on; otherwise the completion
     * status is the result.
     */
    method Cmplt(busDown: bool, env: IoctlEnv) returns (ret: int, pkt: Option<Pkt>, posted: nat)
      requires Valid()
      modifies this`curIoctlrespBufsPosted, pktids, ctrl`w, ctrl`r, ctrl`published
      ensures Valid()
      ensures busDown ==> ret == -1 && pkt == None && posted == 0 && curIoctlrespBufsPosted == old(curIoctlrespBufsPosted)
      ensures !busDown ==>
        curIoctlrespBufsPosted == (if old(curIoctlrespBufsPosted) > 0 then old(curIoctlrespBufsPosted) - 1 else 0) + posted
      ensures !busDown && old(curIoctlrespBufsPosted) == 0 && posted == 0 ==> ret == -1 && pkt == None
      ensures !busDown && (old(curIoctlrespBufsPosted) > 0 || posted > 0) ==>
        ret == (if env.resp.retlen <= 0 then env.resp.retlen else env.resp.status)
      ensures pkt.Some? ==> !busDown && env.resp.retlen > 0 && env.resp.respLen != 0
      ensures ret == CmpltRet(busDown, old(curIoctlrespBufsPosted) > 0, posted, env.resp)
    {
      pkt, posted := None, 0;
      if busDown {
        return -1, None, 0;
      }
      var zeroPosted := curIoctlrespBufsPosted == 0;
      if !zeroPosted {
        curIoctlrespBufsPosted := curIoctlrespBufsPosted - 1;
      }
      posted := PostIoctlrespBufs(false, env.postBufs, env.postFreshR);
      if zeroPosted && posted == 0 {
        return -1, None, posted;
      }
      if env.resp.retlen <= 0 {
        return env.resp.retlen, None, posted;
      }
      pkt := IoctlRespBuf(env.resp.pktid, env.resp.respLen);
      ret := env.resp.status;
    }

    /**
     * dhdmsgbuf_query_ioctl: screen the two cached iovars, otherwise send
     * the request (with the uint16 length) and wait for its completion.
     */
    method QueryIoctl(busDown: bool, cmd: nat, ifidx: int, buf: Option<seq<Byte>>, len: nat, env: IoctlEnv)
      returns (ret: int, route: QueryRoute, req: Option<IoctlReq>, posted: nat)
      requires Valid() && len < U32
      modifies this`ioctlTransId, this`curIoctlrespBufsPosted, pktids, ctrl`w, ctrl`r, ctrl`published
      ensures Valid()
      ensures route == QueryRouteOf(cmd, buf, len, dongleError)
      ensures route == BadArg ==> ret == BCME_BADARG && req == None
      ensures route.Local? ==> ret == 0 && req == None && ioctlTransId == old(ioctlTransId)
      ensures route == ToDongle ==>
        && (req.Some? <==> AllocGrant(old(ctrl.r), env.freshR, old(ctrl.w), ctrl.maxItem, NITEMS_POSTED_H2D).Some?)
        && (req.None? ==> ret == -1 && ioctlTransId == old(ioctlTransId))
        && (req.Some? ==> req.value.transId == old(ioctlTransId) &&
                          req.value.inputBufLen == Min(len % U16, MSGBUF_MAX_MSG_SIZE))
      ensures req.Some? ==> ret == CmpltRet(busDown, old(curIoctlrespBufsPosted) > 0, posted, env.resp)
      ensures req.None? ==> posted == 0 && curIoctlrespBufsPosted == old(curIoctlrespBufsPosted)
    {
      req, posted := None, 0;
      route := QueryRouteOf(cmd, buf, len, dongleError);
      if route == BadArg {
        return BCME_BADARG, route, None, 0;
      }
      if route.Local? {
        return 0, route, None, 0;
      }
      ret, req := FillupIoctReqst(len % U16, cmd, ifidx, env.freshR);
      if ret < 0 {
        return;
      }
      var pkt;
      ret, pkt, posted := Cmplt(busDown, env);
    }

    /**
     * dhd_msgbuf_set_ioctl: refuse when the bus is down or a hang was
     * reported, otherwise send the request and wait for its completion.
     */
    method SetIoctl(busDown: bool, hangSent: bool, cmd: nat, ifidx: int, len: nat, env: IoctlEnv)
      returns (ret: int, req: Option<IoctlReq>, posted: nat)
      requires Valid() && len < U32
      modifies this`ioctlTransId, this`curIoctlrespBufsPosted, pktids, ctrl`w, ctrl`r, ctrl`published
      ensures Valid()
      ensures busDown || hangSent ==> ret == -EIO && req == None && ioctlTransId == old(ioctlTransId)
      ensures !busDown && !hangSent ==>
        (req.Some? <==> AllocGrant(old(ctrl.r), env.freshR, old(ctrl.w), ctrl.maxItem, NITEMS_POSTED_H2D).Some?)
      ensures !busDown && !hangSent && req.None? ==> ret == -1 && ioctlTransId == old(ioctlTransId)
      ensures req.Some? ==>
        !busDown && !hangSent && req.value.transId == old(ioctlTransId) &&
        req.value.inputBufLen == Min(len % U16, MSGBUF_MAX_MSG_SIZE)
      ensures req.Some? ==> ret == CmpltRet(busDown, old(curIoctlrespBufsPosted) > 0, posted, env.resp)
      ensures req.None? ==> posted == 0 && curIoctlrespBufsPosted == old(curIoctlrespBufsPosted)
    {
      req, posted := None, 0;
      if busDown || hangSent {
        return -EIO, None, 0;
      }
      ret, req := FillupIoctReqst(len % U16, cmd, ifidx, env.freshR);
      if ret < 0 {
        return;
      }
      var pkt;
      ret, pkt, posted := Cmplt(busDown, env);
    }

    /** The set or query half of dhd_prot_ioctl, with the length as the uint it is passed as. */
    method IssueIoctl(busDown: bool, hangSent: bool, cmd: nat, isSet: bool, ifidx: int,
                      buf: Option<seq<Byte>>, ulen: nat, env: IoctlEnv) returns (ret: int, sent: bool, posted: nat)
      requires Valid() && ulen < U32
      modifies this`ioctlTransId, this`curIoctlrespBufsPosted, pktids, ctrl`w, ctrl`r, ctrl`published
      ensures Valid()
      ensures isSet && (busDown || hangSent) ==> ret == -EIO
      ensures !isSet && QueryRouteOf(cmd, buf, ulen, dongleError) == BadArg ==> ret == BCME_BADARG
      ensures !isSet && QueryRouteOf(cmd, buf, ulen, dongleError).Local? ==> ret == 0
      ensures sent <==> DongleBound(isSet, busDown, hangSent, QueryRouteOf(cmd, buf, ulen, dongleError))
                        && AllocGrant(old(ctrl.r), env.freshR, old(ctrl.w), ctrl.maxItem, NITEMS_POSTED_H2D).Some?
      ensures ret == IssueRet(isSet, busDown, hangSent, QueryRouteOf(cmd, buf, ulen, dongleError), sent,
                              old(curIoctlrespBufsPosted) > 0, posted, env.resp)
      ensures !sent ==> posted == 0 && curIoctlrespBufsPosted == old(curIoctlrespBufsPosted)
    {
      var req;
      if isSet {
        ret, req, posted := SetIoctl(busDown, hangSent, cmd, ifidx, ulen, env);
      } else {
        var route;
        ret, route, req, posted := QueryIoctl(busDown, cmd, ifidx, buf, ulen, env);
      }
      sent := req.Some?;
    }

    /**
     * The conditions under which dhd_prot_ioctl returns -1 without issuing
     * the ioctl.  pmControlled is a build with CUSTOMER_HW4 and
     * CONFIG_CONTROL_PM whose g_pm_control is set: WLC_SET_PM is then ignored.
     */
    predicate IoctlRefused(busDown: bool, hangSent: bool, suspended: bool, pmControlled: bool, cmd: nat, len: int)
      reads this
    {
      busDown || hangSent || suspended || (pmControlled && cmd == WLC_SET_PM)
      || len > WLC_IOCTL_MAXLEN as int || pending
    }

    /**
     * The part of dhd_prot_ioctl that runs under ioctl_mutex with pending
     * set: issue the set or query, keep a positive query result in
     * ioc->used, normalise the result, record a dongle error and
     * intercept a successful "wme_dp" set.  inner is the result before
     * normalisation, sent and posted say whether the request went to the
     * dongle and how many response buffers were re-posted.
     */
    method IoctlLocked(busDown: bool, hangSent: bool, cmd: nat, isSet: bool, ifidx: int,
                       buf: Option<seq<Byte>>, len: int, used0: int, env: IoctlEnv)
      returns (ret: int, inner: int, sent: bool, posted: nat, used: int)
      requires Valid() && -0x8000_0000 <= len < 0x8000_0000
      modifies this`dongleError, this`wmeDp, this`ioctlTransId,
               this`curIoctlrespBufsPosted, pktids, ctrl`w, ctrl`r, ctrl`published
      ensures Valid()
      ensures ret == Normalised(inner)
      ensures sent <==> DongleBound(isSet, busDown, hangSent, QueryRouteOf(cmd, buf, len % U32, old(dongleError)))
                        && AllocGrant(old(ctrl.r), env.freshR, old(ctrl.w), ctrl.maxItem, NITEMS_POSTED_H2D).Some?
      ensures inner == IssueRet(isSet, busDown, hangSent, QueryRouteOf(cmd, buf, len % U32, old(dongleError)), sent,
                                old(curIoctlrespBufsPosted) > 0, posted, env.resp)
      ensures used == if !isSet && inner > 0 then inner else used0
      ensures dongleError == if inner < 0 then inner else old(dongleError)
      ensures wmeDp == if ret == 0 && cmd == WLC_SET_VAR && buf.Some? && CStr(buf.value) == WME_DP
                       then WmeDp(buf.value, len) else old(wmeDp)
    {
      inner, sent, posted := IssueIoctl(busDown, hangSent, cmd, isSet, ifidx, buf, len % U32, env);
      used := used0;
      if !isSet && inner > 0 {
        used := inner;
      }
      ret := inner;
      if ret >= 0 {
        ret := 0;
      } else {
        dongleError := ret;
      }
      if ret == 0 && cmd == WLC_SET_VAR && buf.Some? && CStr(buf.value) == WME_DP {
        wmeDp := WmeDp(buf.value, len);
      }
    }

    /**
     * dhd_prot_ioctl: refuse when the bus is down, suspended or has sent a
     * hang, when a controlled WLC_SET_PM is ignored, when len exceeds
     * WLC_IOCTL_MAXLEN or when an ioctl is pending; otherwise record the
     * command and run IoctlLocked with pending set.  used is ioc->used.
     */
    method ProtIoctl(busDown: bool, hangSent: bool, suspended: bool, pmControlled: bool, cmd: nat, isSet: bool,
                     ifidx: int, buf: Option<seq<Byte>>, len: int, used0: int, env: IoctlEnv)
      returns (ret: int, inner: int, sent: bool, posted: nat, used: int)
      requires Valid() && -0x8000_0000 <= len < 0x8000_0000
      modifies this`pending, this`lastcmd, this`dongleError, this`wmeDp, this`ioctlTransId,
               this`curIoctlrespBufsPosted, pktids, ctrl`w, ctrl`r, ctrl`published
      ensures Valid()
      ensures ret <= 0 && pending == old(pending)
      ensures old(IoctlRefused(busDown, hangSent, suspended, pmControlled, cmd, len)) ==>
        && ret == -1 && !sent && used == used0 && lastcmd == old(lastcmd) && dongleError == old(dongleError)
        && wmeDp == old(wmeDp) && ioctlTransId == old(ioctlTransId)
        && curIoctlrespBufsPosted == old(curIoctlrespBufsPosted)
      ensures !old(IoctlRefused(busDown, hangSent, suspended, pmControlled, cmd, len)) ==>
        && lastcmd == cmd && ret == Normalised(inner)
        && (sent <==> DongleBound(isSet, busDown, hangSent, QueryRouteOf(cmd, buf, len % U32, old(dongleError)))
                      && AllocGrant(old(ctrl.r), env.freshR, old(ctrl.w), ctrl.maxItem, NITEMS_POSTED_H2D).Some?)
        && inner == IssueRet(isSet, busDown, hangSent, QueryRouteOf(cmd, buf, len % U32, old(dongleError)), sent,
                             old(curIoctlrespBufsPosted) > 0, posted, env.resp)
        && used == (if !isSet && inner > 0 then inner else used0)
        && dongleError == (if inner < 0 then inner else old(dongleError))
        && wmeDp == (if ret == 0 && cmd == WLC_SET_VAR && buf.Some? && CStr(buf.value) == WME_DP
                     then WmeDp(buf.value, len) else old(wmeDp))
    {
      ret, inner, sent, posted, used := -1, -1, false, 0, used0;
      if busDown || hangSent || suspended || (pmControlled && cmd == WLC_SET_PM)
         || len > WLC_IOCTL_MAXLEN as int || pending {
        return;
      }
      pending := true;
      lastcmd := cmd;
      ret, inner, sent, posted, used := IoctlLocked(busDown, hangSent, cmd, isSet, ifidx, buf, len, used0, env);
      pending := false;
    }

    /**
     * dhd_prot_clear: every ring's indices are zeroed, the counters and the
     * ioctl state are reset, and the pktid map is cleared.
     */
    method ProtClear(txp: MsgRing, txCpln: MsgRing, rxCpln: MsgRing, ctrlCpln: MsgRing, dma: DmaIndexBuffers)
      requires Valid() && txp.Valid() && txCpln.Valid() && rxCpln.Valid() && ctrlCpln.Valid()
      modifies dma, pktids, rxp`w, rxp`r, ctrl`w, ctrl`r, txp`w, txp`r
      modifies txCpln`w, txCpln`r, rxCpln`w, rxCpln`r, ctrlCpln`w, ctrlCpln`r
      modifies this`txMetadataOffset, this`rxbufpost, this`curEventBufsPosted, this`curIoctlrespBufsPosted,
               this`activeTxCount, this`pending, this`lastcmd, this`ioctlTransId
      ensures Valid()
      ensures rxp.w == 0 && rxp.r == 0 && ctrl.w == 0 && ctrl.r == 0 && txp.w == 0 && txp.r == 0
      ensures txCpln.w == 0 && txCpln.r == 0 && rxCpln.w == 0 && rxCpln.r == 0
      ensures ctrlCpln.w == 0 && ctrlCpln.r == 0
      ensures txMetadataOffset == 0 && rxbufpost == 0 && curEventBufsPosted == 0 && curIoctlrespBufsPosted == 0
      ensures activeTxCount == 0 && !pending && lastcmd == 0 && ioctlTransId == 1
      ensures pktids.avail == pktids.items && pktids.failures == 0 && pktids.InUse() == []
      ensures |dma.h2dWrite| == old(|dma.h2dWrite|) && |dma.h2dRead| == old(|dma.h2dRead|)
      ensures |dma.d2hWrite| == old(|dma.d2hWrite|) && |dma.d2hRead| == old(|dma.d2hRead|)
      ensures forall i :: 0 <= i < |dma.h2dWrite| ==> dma.h2dWrite[i] == 0
      ensures forall i :: 0 <= i < |dma.h2dRead| ==> dma.h2dRead[i] == 0
      ensures forall i :: 0 <= i < |dma.d2hWrite| ==> dma.d2hWrite[i] == 0
      ensures forall i :: 0 <= i < |dma.d2hRead| ==> dma.d2hRead[i] == 0
    {
      dma.ZeroAll();
      ClearRings(txp, rxp, ctrl, txCpln, rxCpln, ctrlCpln);
      txMetadataOffset := 0;
      rxbufpost, curEventBufsPosted, curIoctlrespBufsPosted := 0, 0, 0;
      activeTxCount := 0;
      pending, lastcmd, ioctlTransId := false, 0, 1;
      ClearMap(pktids);
    }
  }
}
