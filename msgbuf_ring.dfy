/**
 * Index arithmetic of the msgbuf descriptor rings.  A host-to-dongle (H2D)
 * ring is written by the host (write index w) and read by the dongle, which
 * reports its read index r; a dongle-to-host (D2H) ring is the other way
 * round.  A ring has max_item slots of len_items bytes.
 *
 * The index macros live in a header that is not part of this model; they
 * are taken to be the contiguous-space macros
 *   CHECK_WRITE_SPACE(r, w, d) = r > w ? r - w - 1 : (r == 0 || w == 0) ? d - w - 1 : d - w
 *   READ_AVAIL_SPACE(w, r, d)  = w >= r ? w - r : d - r
 */
module MsgbufRing {
  import opened Wrappers

  /** BCMPCIE_H2D_COMMON_MSGRINGS: host-to-dongle common rings (ids 0, 1). */
  const H2D_COMMON_MSGRINGS: nat := 2
  /** BCMPCIE_COMMON_MSGRINGS: all common rings; flow rings start at this id. */
  const COMMON_MSGRINGS: nat := 5
  /** DMA_ALIGN_LEN */
  const DMA_ALIGN_LEN: nat := 4

  function Min(a: nat, b: nat): nat { if a <= b then a else b }

  /**
   * MODX(x, n) = x & (n - 1): for the power-of-two n it is used with, the
   * mask keeps exactly the remainder of x by n, which is how it is written here.
   */
  function Modx(x: nat, n: nat): (m: nat)
    requires n > 0
    ensures m < n
  {
    x % n
  }

  /** align(x, n): x rounded up to a multiple of n. */
  function Align(x: nat, n: nat): nat
    requires n > 0
  {
    if Modx(x, n) != 0 then x - Modx(x, n) + n else x - Modx(x, n)
  }

  /** Aligning to DMA_ALIGN_LEN gives the least multiple of 4 not below x. */
  lemma AlignToDma(x: nat)
    ensures Modx(Align(x, DMA_ALIGN_LEN), DMA_ALIGN_LEN) == 0
    ensures x <= Align(x, DMA_ALIGN_LEN) < x + DMA_ALIGN_LEN
    ensures Modx(x, DMA_ALIGN_LEN) == 0 <==> Align(x, DMA_ALIGN_LEN) == x
  {
  }

  // ---------------------------------------------------------------------
  // Producer side (H2D rings)
  // ---------------------------------------------------------------------

  /** CHECK_WRITE_SPACE: slots writable from w without passing r or the end. */
  function CheckWriteSpace(r: nat, w: nat, d: nat): (n: nat)
    requires w < d
    ensures r > w ==> w + n + 1 == r
    ensures r <= w ==> w + n < d || (r != 0 && w + n == d)
  {
    if r > w then r - w - 1
    else if r == 0 || w == 0 then d - w - 1
    else d - w
  }

  /** Slots the consumer has not yet read, counted circularly (one kept empty). */
  function FreeSlots(r: nat, w: nat, d: nat): nat
    requires r < d && w < d
  {
    if r > w then r - w - 1 else d - w + r - 1
  }

  /** A reservation: count slots from start; the write index becomes newW. */
  datatype Grant = Grant(start: nat, count: nat, newW: nat)

  /** prot_get_ring_space on index values: None is the NULL return. */
  function RingSpace(r: nat, w: nat, d: nat, nitems: nat): (g: Option<Grant>)
    requires w < d
    ensures g.Some? ==>
      && g.value.start == w && g.value.count <= nitems && w + g.value.count <= d
      && g.value.newW == (w + g.value.count) % d
    ensures r < d ==> (g.None? <==> CheckWriteSpace(r, w, d) == 0)
  {
    var avail := CheckWriteSpace(r, w, d);
    if avail == 0 then None
    else
      var alloced := Min(nitems, avail);
      if w + alloced == d then Some(Grant(w, alloced, 0))
      else if w + alloced < d then Some(Grant(w, alloced, w + alloced))
      else None
  }

  /**
   * With the dongle's read index in range, a reservation fails exactly when
   * the ring is full.  Otherwise it grants min(nitems, space) contiguous
   * slots from w that the dongle has not yet read, and the new write index
   * is (w + count) mod d: it wraps to 0 exactly on reaching the end and never
   * lands on r.
   */
  lemma {:induction false} RingSpaceSound(r: nat, w: nat, d: nat, nitems: nat)
    requires r < d && w < d && 1 <= nitems
    ensures RingSpace(r, w, d, nitems).None? <==> FreeSlots(r, w, d) == 0
    ensures RingSpace(r, w, d, nitems).Some? ==>
      var g := RingSpace(r, w, d, nitems).value;
      && g.start == w
      && g.count == Min(nitems, CheckWriteSpace(r, w, d))
      && 1 <= g.count <= nitems
      && g.count <= FreeSlots(r, w, d)
      && w + g.count <= d
      && g.newW == (w + g.count) % d
      && g.newW < d
      && (g.newW == 0 <==> w + g.count == d)
      && g.newW != r
  {
    var avail := CheckWriteSpace(r, w, d);
    if avail != 0 {
      var a := Min(nitems, avail);
      assert w + a <= d;
      if w + a == d {
        assert (w + a) % d == 0;
      } else {
        assert (w + a) % d == w + a;
      }
    }
  }

  /** The grant of dhd_alloc_ring_space: one retry with the refreshed read index. */
  function AllocGrant(r: nat, freshR: nat, w: nat, d: nat, nitems: nat): Option<Grant>
    requires w < d
  {
    if RingSpace(r, w, d, nitems).Some? then RingSpace(r, w, d, nitems)
    else RingSpace(freshR, w, d, nitems)
  }

  /** The cached read index after dhd_alloc_ring_space. */
  function AllocR(r: nat, freshR: nat, w: nat, d: nat, nitems: nat): nat
    requires w < d
  {
    if RingSpace(r, w, d, nitems).Some? then r else freshR
  }

  /** A grant is made against the read index the ring keeps afterwards. */
  lemma AllocGrantAt(r: nat, freshR: nat, w: nat, d: nat, nitems: nat)
    requires w < d
    ensures AllocGrant(r, freshR, w, d, nitems) == RingSpace(AllocR(r, freshR, w, d, nitems), w, d, nitems)
  {
  }

  /**
   * The retry is taken exactly when the cached read index shows a full ring,
   * and the reservation fails only when the refreshed index shows one too.
   */
  lemma {:induction false} AllocRetriesOnce(r: nat, freshR: nat, w: nat, d: nat, nitems: nat)
    requires r < d && freshR < d && w < d && 1 <= nitems
    ensures AllocR(r, freshR, w, d, nitems) == (if FreeSlots(r, w, d) == 0 then freshR else r)
    ensures AllocGrant(r, freshR, w, d, nitems).None? <==>
            FreeSlots(r, w, d) == 0 && FreeSlots(freshR, w, d) == 0
  {
    RingSpaceSound(r, w, d, nitems);
    RingSpaceSound(freshR, w, d, nitems);
  }

  /** The rollback of the write index by k slots, as the posting paths write it. */
  function Rewind(w: nat, k: nat, d: nat): nat
    requires k <= d
  {
    if w < k then d - k else w - k
  }

  /**
   * Whatever the cached read index, a grant starts at w, fits before the
   * end of the ring and moves the write index to (w + count) mod d.
   */
  lemma {:induction false} GrantShape(r: nat, w: nat, d: nat, nitems: nat)
    requires w < d
    ensures RingSpace(r, w, d, nitems).Some? ==>
      var g := RingSpace(r, w, d, nitems).value;
      && g.start == w && g.count <= nitems && w + g.count <= d
      && (1 <= nitems ==> 1 <= g.count)
      && g.newW == (w + g.count) % d && g.newW < d
  {
    var g := RingSpace(r, w, d, nitems);
    if g.Some? {
      if w + g.value.count == d {
        assert (w + g.value.count) % d == 0;
      } else {
        assert (w + g.value.count) % d == w + g.value.count;
      }
    }
  }

  /**
   * Rewinding by 1 <= k <= count right after a grant of count slots from w0
   * leaves the write index just past the count - k slots actually used.
   */
  lemma {:induction false} RewindAfterGrant(r: nat, w0: nat, d: nat, nitems: nat, k: nat)
    requires w0 < d
    requires RingSpace(r, w0, d, nitems).Some?
    requires 1 <= k <= RingSpace(r, w0, d, nitems).value.count
    ensures Rewind(RingSpace(r, w0, d, nitems).value.newW, k, d) ==
            w0 + RingSpace(r, w0, d, nitems).value.count - k
    ensures Rewind(RingSpace(r, w0, d, nitems).value.newW, k, d) < d
  {
    GrantShape(r, w0, d, nitems);
  }

  // ---------------------------------------------------------------------
  // Consumer side (D2H rings)
  // ---------------------------------------------------------------------

  /** READ_AVAIL_SPACE: slots readable from r without passing w or the end. */
  function ReadAvailSpace(w: nat, r: nat, d: nat): (n: nat)
    requires r < d
    ensures n == 0 <==> w == r
    ensures w >= r ==> r + n == w
    ensures w < r ==> r + n == d
  {
    if w >= r then w - r else d - r
  }

  lemma MulMono(a: nat, b: nat, c: nat)
    requires a <= b
    ensures a * c <= b * c
  {
  }

  lemma Distrib(a: int, b: int, c: int)
    ensures a * c - b * c == (a - b) * c
  {
  }

  /** Dividing a byte count made of whole slots by the slot size gives the slots. */
  lemma DivMul(q: nat, n: nat)
    requires 0 < n
    ensures (q * n) / n == q
  {
    var x := q * n;
    var d := x / n;
    var m := x % n;
    assert x == d * n + m;
    Distrib(q, d, n);
    if q > d {
      MulMono(1, q - d, n);
      assert false;
    } else if q < d {
      MulMono(1, d - q, n);
      Distrib(d, q, n);
      assert false;
    }
  }

  /** Equal whole-slot byte counts are equal slot counts. */
  lemma MulCancel(a: nat, b: nat, n: nat)
    requires 0 < n && a * n == b * n
    ensures a == b
  {
    DivMul(a, n);
    DivMul(b, n);
  }

  /** A batch of `items` messages from `start`, `bytes` long; r becomes newR. */
  datatype Batch = Batch(start: nat, items: nat, bytes: nat, newR: nat)

  /** prot_get_src_addr on index values: None is the NULL return. */
  function SrcAddr(w: nat, r: nat, d: nat, lenItems: nat): (b: Option<Batch>)
    requires r < d
    ensures b.Some? ==> b.value.start == r && 1 <= b.value.items <= d && b.value.bytes < 0x10000
  {
    var avail := ReadAvailSpace(w, r, d);
    if avail == 0 then None
    else if avail > d then None
    else Some(Batch(r, avail, (avail * lenItems) % 0x10000, Advance(r, avail, d)))
  }

  /**
   * A D2H read returns nothing when w == r or when the dongle's index is so
   * far off that more than d slots would be readable.  Otherwise it takes
   * the contiguous run from r up to w (or up to the end of the ring when w
   * is behind r), the new read index is (r + items) mod d, and the byte
   * length is items x len_items.
   */
  lemma {:induction false} SrcAddrSound(w: nat, r: nat, d: nat, lenItems: nat)
    requires r < d && d * lenItems < 0x10000
    ensures SrcAddr(w, r, d, lenItems).None? <==> (w == r || (w > r && w - r > d))
    ensures SrcAddr(w, r, d, lenItems).Some? ==>
      var b := SrcAddr(w, r, d, lenItems).value;
      && b.start == r
      && 1 <= b.items <= d
      && b.newR == Advance(r, b.items, d)
      && b.newR < d
      && b.bytes == b.items * lenItems
      && (w <= d ==> r + b.items <= d && b.newR == (r + b.items) % d)
      && (w < d ==> b.items == (if w >= r then w - r else d - r))
      && (w < d && w >= r ==> b.newR == w)
  {
    var avail := ReadAvailSpace(w, r, d);
    if avail != 0 && avail <= d {
      MulMono(avail, d, lenItems);
      if w <= d && r + avail < d {
        assert (r + avail) % d == r + avail;
      }
    }
  }

  /**
   * The desync guard only refuses more than d readable slots: a dongle write
   * index in (d, r + d] passes it and yields a batch that runs past the end
   * of the ring, whose host buffer holds d slots.
   */
  lemma SrcAddrOverrun()
    ensures SrcAddr(300, 100, 256, 4).Some?
    ensures SrcAddr(300, 100, 256, 4).value.start + SrcAddr(300, 100, 256, 4).value.items > 256
  {
  }

  /**
   * Two reads against an unchanged in-range dongle index w consume exactly
   * the (w - r) mod d messages that were pending.
   */
  lemma {:induction false} SrcAddrDrains(w: nat, r: nat, d: nat, lenItems: nat)
    requires r < d && w < d && d * lenItems < 0x10000 && w != r
    ensures var b := SrcAddr(w, r, d, lenItems).value;
      && (b.newR == w || SrcAddr(w, b.newR, d, lenItems).Some?)
      && (b.newR != w ==>
            b.items + SrcAddr(w, b.newR, d, lenItems).value.items == d - r + w &&
            SrcAddr(w, b.newR, d, lenItems).value.newR == w)
  {
    SrcAddrSound(w, r, d, lenItems);
    var b := SrcAddr(w, r, d, lenItems).value;
    if b.newR != w {
      SrcAddrSound(w, b.newR, d, lenItems);
    }
  }

  /** One prot_early_upd_rxcpln_read_idx step of the early read index. */
  function EarlyStep(early: nat, r: nat, d: nat): nat
  {
    if early == r then early
    else if early + 1 >= d then 0
    else early + 1
  }

  /** k early steps, one per processed message. */
  function EarlySteps(early: nat, r: nat, d: nat, k: nat): nat
  {
    if k == 0 then early else EarlyStep(EarlySteps(early, r, d, k - 1), r, d)
  }

  /** The index one past slot i of a d-slot ring, wrapping as the source does. */
  function Advance(i: nat, n: nat, d: nat): nat
  {
    if i + n >= d then 0 else i + n
  }

  /**
   * Starting from the read index stored before a batch of `items` messages,
   * the early index has advanced by k after k <= items messages, equals the
   * batch's new read index after the last one, and never runs past it.
   */
  lemma {:induction false} EarlyStepsTrack(r0: nat, d: nat, items: nat, k: nat)
    requires r0 < d && 1 <= items && r0 + items <= d && Advance(r0, items, d) != r0
    ensures k <= items ==> EarlySteps(r0, Advance(r0, items, d), d, k) == Advance(r0, k, d)
    ensures k >= items ==> EarlySteps(r0, Advance(r0, items, d), d, k) == Advance(r0, items, d)
    decreases k
  {
    if k > 0 {
      EarlyStepsTrack(r0, d, items, k - 1);
      var prev := EarlySteps(r0, Advance(r0, items, d), d, k - 1);
      if k <= items {
        assert prev == r0 + k - 1;
        assert prev != Advance(r0, items, d);
      }
    }
  }

  /**
   * When every message of an in-range batch is processed, the early read
   * index, stored as r before the read, ends exactly at the batch's new
   * read index: the dongle then sees every consumed slot released.
   */
  lemma {:induction false} EarlyReachesNewR(w: nat, r: nat, d: nat, lenItems: nat)
    requires r < d && w < d && d * lenItems < 0x10000 && w != r
    ensures SrcAddr(w, r, d, lenItems).Some?
    ensures var b := SrcAddr(w, r, d, lenItems).value;
      b.newR != r && EarlySteps(r, b.newR, d, b.items) == b.newR
  {
    SrcAddrSound(w, r, d, lenItems);
    var b := SrcAddr(w, r, d, lenItems).value;
    EarlyStepsTrack(r, d, b.items, b.items);
  }

  // ---------------------------------------------------------------------
  // The ring object
  // ---------------------------------------------------------------------

  class MsgRing {
    /** Ring id in the order of the PCIe shared-memory layout. */
    const idx: nat
    /** ringmem->max_item */
    const maxItem: nat
    /** ringmem->len_items */
    const lenItems: nat
    /** ringstate->w_offset */
    var w: nat
    /** ringstate->r_offset */
    var r: nat
    var inited: bool
    /** TX doorbell batching: descriptors written but not yet announced. */
    var pendItemsCount: nat
    /** TX doorbell batching: slot of the first unannounced descriptor. */
    var startSlot: Option<nat>
    /** D2H sync sequence number (32 bits). */
    var seqnum: nat
    /** The write index last announced to the dongle by prot_ring_write_complete. */
    var published: nat

    /** The ring's byte size fits the 16-bit size the attach computes. */
    ghost predicate Valid()
      reads this
    {
      0 < maxItem && 0 < lenItems && maxItem * lenItems < 0x10000
    }

    /** The host-owned write index of an H2D ring is in range. */
    ghost predicate Writable()
      reads this
    {
      Valid() && w < maxItem
    }

    /** The host-owned read index of a D2H ring is in range. */
    ghost predicate Readable()
      reads this
    {
      Valid() && r < maxItem
    }

    /**
     * TX doorbell batching: the descriptors written since the last flush
     * are exactly the slots from startSlot up to the write index.  Because
     * a descriptor in the last slot forces a flush, the pending run never
     * wraps round the ring.
     */
    ghost predicate PendAccounted()
      reads this
    {
      && Writable()
      && (pendItemsCount == 0 <==> startSlot == None)
      && (startSlot.Some? ==> startSlot.value + pendItemsCount == w)
    }

    /** prot_ring_attach: a zeroed ring state. */
    constructor Attach(maxItem: nat, lenItem: nat, ringid: nat)
      requires 0 < maxItem && 0 < lenItem && maxItem * lenItem < 0x10000
      ensures Writable() && Readable()
      ensures this.idx == ringid && this.maxItem == maxItem && this.lenItems == lenItem
      ensures w == 0 && r == 0 && !inited && pendItemsCount == 0 && startSlot == None && seqnum == 0
      ensures published == 0 && PendAccounted()
    {
      idx, this.maxItem, lenItems := ringid, maxItem, lenItem;
      w, r, inited, pendItemsCount, startSlot, seqnum, published := 0, 0, false, 0, None, 0, 0;
    }

    /** dhd_ring_init: the ring is announced to the dongle. */
    method Init()
      modifies this`inited
      ensures inited
    {
      inited := true;
    }

    /** dhd_prot_ring_detach */
    method Detach()
      modifies this`inited
      ensures !inited
    {
      inited := false;
    }

    /** prot_get_ring_space */
    method GetRingSpace(nitems: nat) returns (g: Option<Grant>)
      requires Writable()
      modifies this`w
      ensures Writable()
      ensures g == RingSpace(r, old(w), maxItem, nitems)
      ensures w == if g.Some? then g.value.newW else old(w)
    {
      var avail := CheckWriteSpace(r, w, maxItem);
      if avail == 0 {
        return None;
      }
      var alloced := Min(nitems, avail);
      var start := w;
      if w + alloced == maxItem {
        w := 0;
      } else if w + alloced < maxItem {
        w := w + alloced;
      } else {
        return None;
      }
      g := Some(Grant(start, alloced, w));
    }

    /**
     * dhd_alloc_ring_space: on failure the cached read index is refreshed
     * from the dongle (freshR) and the reservation is tried exactly once more.
     */
    method AllocRingSpace(nitems: nat, freshR: nat) returns (g: Option<Grant>)
      requires Writable()
      modifies this`w, this`r
      ensures Writable()
      ensures g == AllocGrant(old(r), freshR, old(w), maxItem, nitems)
      ensures r == AllocR(old(r), freshR, old(w), maxItem, nitems)
      ensures w == if g.Some? then g.value.newW else old(w)
    {
      g := GetRingSpace(nitems);
      if g.None? {
        r := freshR;
        g := GetRingSpace(nitems);
      }
    }

    /**
     * prot_ring_write_complete: the current write index is made visible to
     * the dongle (TCM or the DMA'd index array) and the doorbell is rung.
     */
    method WriteComplete()
      modifies this`published
      ensures published == w
    {
      published := w;
    }

    /**
     * dhd_prot_txdata_write_flush on the ring the packet went to: announce
     * the pending descriptors, if there are any, and restart the batch.
     */
    method TxFlush() returns (flushed: bool)
      modifies this`published, this`pendItemsCount, this`startSlot
      ensures flushed <==> old(pendItemsCount) != 0
      ensures pendItemsCount == 0 && startSlot == (if flushed then None else old(startSlot))
      ensures published == if flushed then w else old(published)
    {
      flushed := pendItemsCount != 0;
      if flushed {
        WriteComplete();
        pendItemsCount, startSlot := 0, None;
      }
    }

    /**
     * The TXP_FLUSH_NITEMS bookkeeping of dhd_prot_txdata: the first
     * descriptor of a batch records its slot, every descriptor counts.
     */
    method PendOne(slot: nat)
      requires Valid() && pendItemsCount < maxItem
      modifies this`pendItemsCount, this`startSlot
      ensures startSlot == if old(pendItemsCount) == 0 then Some(slot) else old(startSlot)
      ensures pendItemsCount == old(pendItemsCount) + 1
    {
      if pendItemsCount == 0 {
        startSlot := Some(slot);
      }
      MulMono(1, lenItems, maxItem);
      pendItemsCount := (pendItemsCount + 1) % 0x10000;
    }

    /** Take the last descriptor back out of the pending batch. */
    method UnpendOne()
      requires 0 < pendItemsCount
      modifies this`pendItemsCount, this`startSlot
      ensures pendItemsCount == old(pendItemsCount) - 1
      ensures startSlot == if pendItemsCount == 0 then None else old(startSlot)
    {
      pendItemsCount := pendItemsCount - 1;
      if pendItemsCount == 0 {
        startSlot := None;
      }
    }

    /** The write-index rollback of a failed post. */
    method RewindWrite(k: nat)
      requires Writable() && k <= maxItem
      modifies this`w
      ensures w == Rewind(old(w), k, maxItem)
      ensures 1 <= k ==> Writable()
    {
      if w < k {
        w := maxItem - k;
      } else {
        w := w - k;
      }
    }

    /**
     * prot_get_src_addr: dongleW is the write index just read from the
     * dongle (from the DMA index array or from shared memory).
     */
    method GetSrcAddr(dongleW: nat) returns (b: Option<Batch>)
      requires Readable()
      modifies this`w, this`r
      ensures Readable()
      ensures w == dongleW
      ensures b == SrcAddr(dongleW, old(r), maxItem, lenItems)
      ensures r == if b.Some? then b.value.newR else old(r)
    {
      w := dongleW;
      var avail := ReadAvailSpace(w, r, maxItem);
      if avail == 0 {
        return None;
      }
      if avail > maxItem {
        return None;
      }
      var start := r;
      if r + avail >= maxItem {
        r := 0;
      } else {
        r := r + avail;
      }
      b := Some(Batch(start, avail, (avail * lenItems) % 0x10000, r));
    }

    /** dhd_prot_ring_clear: the ring state is zeroed. */
    method Clear()
      requires Valid()
      modifies this`w, this`r
      ensures Writable() && Readable()
      ensures w == 0 && r == 0
    {
      w, r := 0, 0;
    }
  }

  // ---------------------------------------------------------------------
  // DMA'd index arrays
  // ---------------------------------------------------------------------

  /** The index array a dhd_set/get_dmaed_index call addresses. */
  datatype IndexType = H2dWriteIndx | H2dReadIndx | D2hWriteIndx | D2hReadIndx | OtherIndx(code: nat)

  /** Slot of an H2D ring: common rings first, flow rings right after them. */
  function H2dOffset(ringid: nat): nat
  {
    if ringid >= COMMON_MSGRINGS then ringid - COMMON_MSGRINGS + H2D_COMMON_MSGRINGS
    else ringid
  }

  /** Slot of a D2H ring, computed in 16 bits as the source does. */
  function D2hOffset(ringid: nat): nat
  {
    (ringid + 0x10000 - H2D_COMMON_MSGRINGS) % 0x10000
  }

  /** H2D ring ids (the two common ones and the flow rings). */
  predicate IsH2dRing(ringid: nat) { ringid < H2D_COMMON_MSGRINGS || COMMON_MSGRINGS <= ringid }

  /** D2H ring ids (the three completion rings). */
  predicate IsD2hRing(ringid: nat) { H2D_COMMON_MSGRINGS <= ringid < COMMON_MSGRINGS }

  /**
   * Distinct rings of one direction own distinct slots, so publishing one
   * ring's index cannot overwrite another's; the H2D slots are 0, 1 for
   * the common rings and 2, 3, ... for flow rings, the D2H slots 0, 1, 2.
   */
  lemma {:induction false} OffsetsSeparate(a: nat, b: nat)
    requires a != b
    ensures IsH2dRing(a) && IsH2dRing(b) ==> H2dOffset(a) != H2dOffset(b)
    ensures IsD2hRing(a) && IsD2hRing(b) ==> D2hOffset(a) != D2hOffset(b)
    ensures IsH2dRing(a) ==> (H2dOffset(a) < H2D_COMMON_MSGRINGS <==> a < H2D_COMMON_MSGRINGS)
    ensures IsD2hRing(a) ==> D2hOffset(a) < COMMON_MSGRINGS - H2D_COMMON_MSGRINGS
  {
    if IsD2hRing(a) && IsD2hRing(b) {
      assert D2hOffset(a) == a - H2D_COMMON_MSGRINGS;
      assert D2hOffset(b) == b - H2D_COMMON_MSGRINGS;
    }
    if IsD2hRing(a) {
      assert D2hOffset(a) == a - H2D_COMMON_MSGRINGS;
    }
  }

  /** The four index arrays, one 32-bit word per ring holding a 16-bit index. */
  class DmaIndexBuffers {
    var h2dWrite: seq<nat>
    var h2dRead: seq<nat>
    var d2hWrite: seq<nat>
    var d2hRead: seq<nat>

    /** The slot a type and ring id address, where that slot exists. */
    predicate Addressable(t: IndexType, ringid: nat)
      reads this
    {
      match t
      case H2dWriteIndx => H2dOffset(ringid) < |h2dWrite|
      case H2dReadIndx => H2dOffset(ringid) < |h2dRead|
      case D2hWriteIndx => D2hOffset(ringid) < |d2hWrite|
      case D2hReadIndx => D2hOffset(ringid) < |d2hRead|
      case OtherIndx(_) => true
    }

    constructor (nH2d: nat, nD2h: nat)
      ensures |h2dWrite| == nH2d && |h2dRead| == nH2d && |d2hWrite| == nD2h && |d2hRead| == nD2h
      ensures forall i :: 0 <= i < nH2d ==> h2dWrite[i] == 0 && h2dRead[i] == 0
      ensures forall i :: 0 <= i < nD2h ==> d2hWrite[i] == 0 && d2hRead[i] == 0
    {
      h2dWrite := seq(nH2d, _ => 0);
      h2dRead := seq(nH2d, _ => 0);
      d2hWrite := seq(nD2h, _ => 0);
      d2hRead := seq(nD2h, _ => 0);
    }

    /**
     * dhd_set_dmaed_index: only the H2D write and the D2H read arrays are
     * written by the host; any other type is refused and nothing changes.
     */
    method SetDmaedIndex(t: IndexType, ringid: nat, newIndex: nat)
      requires newIndex < 0x10000 && Addressable(t, ringid)
      modifies this
      ensures h2dRead == old(h2dRead) && d2hWrite == old(d2hWrite)
      ensures h2dWrite == if t == H2dWriteIndx then old(h2dWrite)[H2dOffset(ringid) := newIndex]
                          else old(h2dWrite)
      ensures d2hRead == if t == D2hReadIndx then old(d2hRead)[D2hOffset(ringid) := newIndex]
                         else old(d2hRead)
    {
      match t {
        case H2dWriteIndx =>
          h2dWrite := h2dWrite[H2dOffset(ringid) := newIndex];
        case D2hReadIndx =>
          d2hRead := d2hRead[D2hOffset(ringid) := newIndex];
        case _ =>
      }
    }

    /** dhd_get_dmaed_index: the low 16 bits of the ring's word; 0 for other types. */
    function GetDmaedIndex(t: IndexType, ringid: nat): (data: nat)
      requires Addressable(t, ringid)
      reads this
      ensures data < 0x10000
      ensures t.OtherIndx? ==> data == 0
    {
      match t
      case H2dWriteIndx => h2dWrite[H2dOffset(ringid)] % 0x10000
      case H2dReadIndx => h2dRead[H2dOffset(ringid)] % 0x10000
      case D2hWriteIndx => d2hWrite[D2hOffset(ringid)] % 0x10000
      case D2hReadIndx => d2hRead[D2hOffset(ringid)] % 0x10000
      case OtherIndx(_) => 0
    }

    /** dhd_prot_clear zeroes every index array. */
    method ZeroAll()
      modifies this
      ensures |h2dWrite| == old(|h2dWrite|) && |h2dRead| == old(|h2dRead|)
      ensures |d2hWrite| == old(|d2hWrite|) && |d2hRead| == old(|d2hRead|)
      ensures forall i :: 0 <= i < |h2dWrite| ==> h2dWrite[i] == 0
      ensures forall i :: 0 <= i < |h2dRead| ==> h2dRead[i] == 0
      ensures forall i :: 0 <= i < |d2hWrite| ==> d2hWrite[i] == 0
      ensures forall i :: 0 <= i < |d2hRead| ==> d2hRead[i] == 0
    {
      h2dWrite := seq(|h2dWrite|, _ => 0);
      h2dRead := seq(|h2dRead|, _ => 0);
      d2hWrite := seq(|d2hWrite|, _ => 0);
      d2hRead := seq(|d2hRead|, _ => 0);
    }
  }

  /**
   * An index the host publishes for one ring reads back unchanged, and the
   * slots of every other ring of the same direction keep their values.
   */
  lemma PublishReadsBack(buf: seq<nat>, a: nat, b: nat, v: nat, h2d: bool)
    requires v < 0x10000 && a != b
    requires h2d ==> IsH2dRing(a) && IsH2dRing(b) && H2dOffset(a) < |buf| && H2dOffset(b) < |buf|
    requires !h2d ==> IsD2hRing(a) && IsD2hRing(b) && D2hOffset(a) < |buf| && D2hOffset(b) < |buf|
    ensures h2d ==> buf[H2dOffset(a) := v][H2dOffset(a)] % 0x10000 == v &&
                    buf[H2dOffset(a) := v][H2dOffset(b)] == buf[H2dOffset(b)]
    ensures !h2d ==> buf[D2hOffset(a) := v][D2hOffset(a)] % 0x10000 == v &&
                     buf[D2hOffset(a) := v][D2hOffset(b)] == buf[D2hOffset(b)]
  {
    OffsetsSeparate(a, b);
  }
}
