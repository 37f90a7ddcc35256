/**
 * The packet-id map of the msgbuf protocol: a pool of numbered lockers that
 * stand in for host packet pointers while a buffer is owned by the dongle.
 * Audit is off, so the free pool is a FIFO list of 4 x items lockers, and
 * `avail` counts the logical capacity `items`.  Locker 0 is the invalid id
 * and is never handed out.
 */
module MsgbufPktid {
  import opened Wrappers

  /** DHD_PKTIDMAP_FIFO: the free list holds this many lockers per item. */
  const FIFO_FACTOR: nat := 4
  /** MAX_PKTID_ITEMS */
  const MAX_PKTID_ITEMS: nat := 8192
  /** DHD_PKTID_INVALID */
  const PKTID_INVALID: nat := 0

  /** The colour of a buffer; NoCheck is accepted by free only. */
  datatype BufType = DataTx | DataRx | IoctlRx | EventRx | NoCheck

  /** An opaque native packet pointer. */
  type Pkt = nat

  datatype Locker = Locker(inuse: bool, dma: nat, bufType: BufType, len: nat,
                           pkt: Option<Pkt>, physaddr: nat)

  /** The state a locker is left in when it is opened (by free or by clear). */
  function Opened(l: Locker): (o: Locker)
    ensures !o.inuse && o.pkt == None && o.len == 0
    ensures o.dma == l.dma && o.bufType == l.bufType && o.physaddr == l.physaddr
  {
    l.(inuse := false, pkt := None, len := 0)
  }

  /** Keys in [lo, hi) whose locker is in use, in increasing order. */
  function InUseKeys(ls: seq<Locker>, lo: nat, hi: nat): (ks: seq<nat>)
    requires hi <= |ls|
    ensures |ks| <= (if lo <= hi then hi - lo else 0)
    decreases hi
  {
    if hi <= lo then []
    else InUseKeys(ls, lo, hi - 1) + (if ls[hi - 1].inuse then [hi - 1] else [])
  }

  /** InUseKeys lists exactly the in-use keys of [lo, hi), ascending. */
  lemma {:induction false} InUseKeysMembers(ls: seq<Locker>, lo: nat, hi: nat)
    requires hi <= |ls|
    ensures forall i :: 0 <= i < |InUseKeys(ls, lo, hi)| ==>
              lo <= InUseKeys(ls, lo, hi)[i] < hi && ls[InUseKeys(ls, lo, hi)[i]].inuse
    ensures forall k :: lo <= k < hi && ls[k].inuse ==> k in InUseKeys(ls, lo, hi)
    ensures forall i, j :: 0 <= i < j < |InUseKeys(ls, lo, hi)| ==>
              InUseKeys(ls, lo, hi)[i] < InUseKeys(ls, lo, hi)[j]
    decreases hi
  {
    if hi > lo {
      InUseKeysMembers(ls, lo, hi - 1);
    }
  }

  /** Flipping one locker from free to in use adds exactly one in-use key. */
  lemma {:induction false} InUseKeysTake(ls: seq<Locker>, lo: nat, hi: nat, k: nat, l: Locker)
    requires hi <= |ls| && k < |ls| && !ls[k].inuse && l.inuse
    ensures |InUseKeys(ls[k := l], lo, hi)| ==
            |InUseKeys(ls, lo, hi)| + (if lo <= k < hi then 1 else 0)
    decreases hi
  {
    if hi > lo {
      InUseKeysTake(ls, lo, hi - 1, k, l);
    }
  }

  /** Flipping one locker from in use to free removes exactly one in-use key. */
  lemma {:induction false} InUseKeysGive(ls: seq<Locker>, lo: nat, hi: nat, k: nat, l: Locker)
    requires hi <= |ls| && k < |ls| && ls[k].inuse && !l.inuse
    ensures |InUseKeys(ls[k := l], lo, hi)| + (if lo <= k < hi then 1 else 0) ==
            |InUseKeys(ls, lo, hi)|
    decreases hi
  {
    if hi > lo {
      InUseKeysGive(ls, lo, hi - 1, k, l);
    }
  }

  /** A locker rewrite that keeps every in-use flag keeps the in-use keys. */
  lemma {:induction false} InUseKeysSameFlags(ls: seq<Locker>, ms: seq<Locker>, lo: nat, hi: nat)
    requires hi <= |ls| == |ms|
    requires forall k :: lo <= k < hi ==> ls[k].inuse == ms[k].inuse
    ensures InUseKeys(ls, lo, hi) == InUseKeys(ms, lo, hi)
    decreases hi
  {
    if hi > lo {
      InUseKeysSameFlags(ls, ms, lo, hi - 1);
    }
  }

  /** No locker in [lo, hi) is in use exactly when the in-use list is empty. */
  lemma {:induction false} InUseKeysNone(ls: seq<Locker>, lo: nat, hi: nat)
    requires hi <= |ls|
    requires forall k :: lo <= k < hi ==> !ls[k].inuse
    ensures InUseKeys(ls, lo, hi) == []
    decreases hi
  {
    if hi > lo {
      InUseKeysNone(ls, lo, hi - 1);
    }
  }

  class PktidMap {
    /** Total logical items; the free list holds 4 x items lockers. */
    var items: nat
    /** Logical pktids still available. */
    var avail: nat
    /** Count of refused reservations. */
    var failures: nat
    /** lockers[0 .. 4 x items], indexed by numbered key. */
    var lockers: seq<Locker>
    /** list_free: keys handed out from the head and returned at the tail. */
    var free: seq<nat>

    /** DHD_PKIDMAP_ITEMS(items) */
    function MapItems(): (n: nat)
      reads this
      ensures n == FIFO_FACTOR * items
    {
      FIFO_FACTOR * items
    }

    /** Keys other than 0 currently held by the dongle. */
    ghost function InUse(): (ks: seq<nat>)
      reads this
      requires |lockers| == MapItems() + 1
    {
      InUseKeys(lockers, 1, MapItems() + 1)
    }

    ghost predicate Valid()
      reads this
    {
      MapInv(items, avail, lockers, free)
    }

    /** dhd_pktid_map_init: every locker 1..4 x items free, in key order. */
    constructor Init(numItems: nat)
      requires 1 <= numItems <= MAX_PKTID_ITEMS
      ensures Valid()
      ensures items == numItems && avail == numItems && failures == 0
      ensures |free| == FIFO_FACTOR * numItems
      ensures forall i :: 0 <= i < |free| ==> free[i] == i + 1
      ensures forall k :: 1 <= k < |lockers| ==> !lockers[k].inuse && lockers[k].pkt == None
      ensures InUse() == []
    {
      items := numItems;
      avail := numItems;
      failures := 0;
      var n := FIFO_FACTOR * numItems;
      var ls: seq<Locker> := [];
      var fl: seq<nat> := [];
      var nkey := 0;
      while nkey <= n
        invariant 0 <= nkey <= n + 1
        invariant |ls| == nkey && |fl| == nkey
        invariant forall i :: 0 <= i < nkey ==> fl[i] == i && !ls[i].inuse && ls[i].pkt == None
      {
        ls := ls + [Locker(false, 0, DataTx, 0, None, 0)];
        fl := fl + [nkey];
        nkey := nkey + 1;
      }
      // reserve key 0: it moves from the free list to the in-use list
      lockers := ls[PKTID_INVALID := ls[PKTID_INVALID].(inuse := true)];
      free := fl[1..];
      new;
      InUseKeysNone(lockers, 1, MapItems() + 1);
    }

    /** dhd_pktid_map_avail_cnt */
    method AvailCnt() returns (n: nat)
      requires Valid()
      ensures n == avail
      ensures n + |InUse()| == items
    {
      n := avail;
    }

    /** __dhd_pktid_map_reserve: pop the head of the free list. */
    method Reserve(pkt: Pkt, bufType: BufType) returns (nkey: nat)
      requires Valid()
      modifies this
      ensures Valid()
      ensures items == old(items)
      ensures old(avail) == 0 ==>
        nkey == PKTID_INVALID && failures == old(failures) + 1 &&
        lockers == old(lockers) && free == old(free) && avail == old(avail)
      ensures old(avail) > 0 ==>
        nkey == old(free[0]) && 1 <= nkey <= MapItems() &&
        free == old(free[1..]) && avail == old(avail) - 1 && failures == old(failures) &&
        lockers == old(lockers)[nkey := old(lockers[nkey]).(inuse := true, pkt := Some(pkt), len := 0)]
    {
      if avail == 0 {
        failures := failures + 1;
        return PKTID_INVALID;
      }
      ReserveKeepsInv(items, avail, lockers, free, pkt);
      nkey := free[0];
      free := free[1..];
      // the source's second refusal (avail > items or a key beyond the map)
      // cannot be taken while the map is valid
      assert avail <= items && nkey <= MapItems();
      avail := avail - 1;
      lockers := lockers[nkey := lockers[nkey].(inuse := true, pkt := Some(pkt), len := 0)];
    }

    /** __dhd_pktid_map_save: fill in the metadata of a reserved locker. */
    method Save(nkey: nat, physaddr: nat, len: nat, dma: nat, bufType: BufType)
      requires Valid()
      modifies this
      ensures Valid()
      ensures items == old(items) && avail == old(avail) && failures == old(failures) && free == old(free)
      ensures nkey == PKTID_INVALID || nkey > MapItems() ==> lockers == old(lockers)
      ensures 1 <= nkey <= MapItems() ==>
        lockers == old(lockers)[nkey := old(lockers[nkey]).(dma := dma, bufType := bufType,
                                         physaddr := physaddr, len := len % 0x10000)]
    {
      if nkey == PKTID_INVALID || nkey > MapItems() {
        return;
      }
      var l := lockers[nkey].(dma := dma, bufType := bufType, physaddr := physaddr, len := len % 0x10000);
      SaveKeepsInv(items, avail, lockers, free, nkey, l);
      lockers := lockers[nkey := l];
    }

    /** dhd_pktid_map_alloc: reserve, then save when a key was granted. */
    method Alloc(pkt: Pkt, physaddr: nat, len: nat, dma: nat, bufType: BufType) returns (nkey: nat)
      requires Valid()
      modifies this
      ensures Valid()
      ensures items == old(items)
      ensures old(avail) == 0 ==>
        nkey == PKTID_INVALID && failures == old(failures) + 1 &&
        lockers == old(lockers) && free == old(free) && avail == old(avail)
      ensures old(avail) > 0 ==>
        nkey == old(free[0]) && 1 <= nkey <= MapItems() &&
        free == old(free[1..]) && avail == old(avail) - 1 && failures == old(failures) &&
        lockers == old(lockers)[nkey := Locker(true, dma, bufType, len % 0x10000, Some(pkt), physaddr)]
    {
      nkey := Reserve(pkt, bufType);
      if nkey != PKTID_INVALID {
        Save(nkey, physaddr, len, dma, bufType);
      }
    }

    /**
     * dhd_pktid_map_free: give a locker back and return what it held.  An
     * invalid key, a locker not in use or a colour mismatch returns None and
     * changes nothing.
     */
    method Free(nkey: nat, bufType: BufType) returns (pkt: Option<Pkt>, physaddr: nat, len: nat)
      requires Valid()
      modifies this
      ensures Valid()
      ensures items == old(items) && failures == old(failures)
      ensures !FreeAccepts(old(lockers), nkey, bufType) ==>
        pkt == None && lockers == old(lockers) && free == old(free) && avail == old(avail)
      ensures FreeAccepts(old(lockers), nkey, bufType) ==>
        pkt == old(lockers[nkey].pkt) && physaddr == old(lockers[nkey].physaddr) &&
        len == old(lockers[nkey].len) &&
        avail == old(avail) + 1 && free == old(free) + [nkey] &&
        lockers == old(lockers)[nkey := Opened(old(lockers[nkey]))]
    {
      if nkey == PKTID_INVALID || nkey > MapItems() {
        return None, 0, 0;
      }
      var l := lockers[nkey];
      if !l.inuse {
        return None, 0, 0;
      }
      if bufType != NoCheck && l.bufType != bufType {
        return None, 0, 0;
      }
      FreeKeepsInv(items, avail, lockers, free, nkey);
      avail := avail + 1;
      free := free + [nkey];
      lockers := lockers[nkey := Opened(l)];
      pkt, physaddr, len := l.pkt, l.physaddr, l.len;
    }

    /**
     * dhd_pktid_map_clear: force-open every in-use locker 1..4 x items, in
     * key order, onto the tail of the free list.
     */
    method Clear()
      requires Valid()
      modifies this
      ensures Valid()
      ensures items == old(items) && avail == items && failures == 0
      ensures free == old(free) + old(InUse())
      ensures lockers[PKTID_INVALID] == old(lockers[PKTID_INVALID])
      ensures forall k :: 1 <= k < |lockers| ==> lockers[k] == Opened(old(lockers[k]))
      ensures InUse() == []
    {
      failures := 0;
      var ls, fl := OpenInUse(lockers, free);
      ClearKeepsInv(items, avail, lockers, free, ls);
      lockers, free, avail := ls, fl, items;
    }
  }


  /** The map invariant, on the map's fields as values. */
  ghost predicate MapInv(items: nat, avail: nat, ls: seq<Locker>, fl: seq<nat>)
  {
    && 1 <= items <= MAX_PKTID_ITEMS
    && |ls| == FIFO_FACTOR * items + 1
    && ls[PKTID_INVALID].inuse
    && (forall i :: 0 <= i < |fl| ==> 1 <= fl[i] < |ls|)
    && (forall i, j :: 0 <= i < j < |fl| ==> fl[i] != fl[j])
    && (forall k :: 1 <= k < |ls| ==> (ls[k].inuse <==> k !in fl))
    && |fl| + |InUseKeys(ls, 1, |ls|)| == FIFO_FACTOR * items
    && |fl| == avail + (FIFO_FACTOR - 1) * items
  }

  lemma ReserveKeepsInv(items: nat, avail: nat, ls: seq<Locker>, fl: seq<nat>, pkt: Pkt)
    requires MapInv(items, avail, ls, fl) && avail > 0
    ensures |fl| > 0 && 1 <= fl[0] < |ls| && !ls[fl[0]].inuse && avail <= items
    ensures MapInv(items, avail - 1, ls[fl[0] := ls[fl[0]].(inuse := true, pkt := Some(pkt), len := 0)], fl[1..])
  {
    var k := fl[0];
    var ms := ls[k := ls[k].(inuse := true, pkt := Some(pkt), len := 0)];
    InUseKeysTake(ls, 1, |ls|, k, ms[k]);
    assert forall i :: 0 <= i < |fl[1..]| ==> fl[1..][i] != k;
  }

  lemma SaveKeepsInv(items: nat, avail: nat, ls: seq<Locker>, fl: seq<nat>, k: nat, l: Locker)
    requires MapInv(items, avail, ls, fl) && 1 <= k < |ls| && l.inuse == ls[k].inuse
    ensures MapInv(items, avail, ls[k := l], fl)
  {
    InUseKeysSameFlags(ls, ls[k := l], 1, |ls|);
  }

  lemma FreeKeepsInv(items: nat, avail: nat, ls: seq<Locker>, fl: seq<nat>, k: nat)
    requires MapInv(items, avail, ls, fl) && 1 <= k < |ls| && ls[k].inuse
    ensures MapInv(items, avail + 1, ls[k := Opened(ls[k])], fl + [k])
  {
    InUseKeysGive(ls, 1, |ls|, k, Opened(ls[k]));
  }


  /**
   * The key loop of dhd_pktid_map_clear, on values: open every locker from
   * key 1 on, appending the keys found in use to the free list in key order.
   */
  method OpenInUse(ls: seq<Locker>, fl: seq<nat>) returns (ms: seq<Locker>, gl: seq<nat>)
    requires |ls| > 0
    ensures |ms| == |ls| && ms[0] == ls[0]
    ensures forall k :: 1 <= k < |ls| ==> ms[k] == Opened(ls[k])
    ensures gl == fl + InUseKeys(ls, 1, |ls|)
  {
    ms, gl := ls, fl;
    var nkey := 1;
    while nkey < |ls|
      invariant 1 <= nkey <= |ls|
      invariant |ms| == |ls| && ms[0] == ls[0]
      invariant forall k :: 1 <= k < nkey ==> ms[k] == Opened(ls[k])
      invariant forall k :: nkey <= k < |ls| ==> ms[k] == ls[k]
      invariant gl == fl + InUseKeys(ls, 1, nkey)
    {
      if ms[nkey].inuse {
        gl := gl + [nkey];
      }
      ms := ms[nkey := Opened(ms[nkey])];
      nkey := nkey + 1;
    }
  }

  lemma ClearKeepsInv(items: nat, avail: nat, ls: seq<Locker>, fl: seq<nat>, ms: seq<Locker>)
    requires MapInv(items, avail, ls, fl)
    requires |ms| == |ls| && ms[0] == ls[0]
    requires forall k :: 1 <= k < |ls| ==> ms[k] == Opened(ls[k])
    ensures InUseKeys(ms, 1, |ms|) == []
    ensures MapInv(items, items, ms, fl + InUseKeys(ls, 1, |ls|))
  {
    InUseKeysNone(ms, 1, |ms|);
    InUseKeysMembers(ls, 1, |ls|);
    var added := InUseKeys(ls, 1, |ls|);
    var fl' := fl + added;
    forall i, j | 0 <= i < j < |fl'| ensures fl'[i] != fl'[j] {
      if i < |fl| <= j {
        assert ls[fl'[j]].inuse;
      }
    }
    forall k | 1 <= k < |ms| ensures !ms[k].inuse && k in fl' {
      if ls[k].inuse {
        assert k in added;
      } else {
        assert k in fl;
      }
    }
  }

  /** The three refusals of free, negated. */
  predicate FreeAccepts(ls: seq<Locker>, nkey: nat, bufType: BufType)
  {
    && 1 <= nkey < |ls|
    && ls[nkey].inuse
    && (bufType == NoCheck || ls[nkey].bufType == bufType)
  }

  /** A valid map never has more available ids than items; in-use plus avail is items. */
  lemma AvailPlusInUse(m: PktidMap)
    requires m.Valid()
    ensures m.avail + |m.InUse()| == m.items
    ensures m.avail <= m.items
    ensures PKTID_INVALID !in m.free
  {
  }
}
