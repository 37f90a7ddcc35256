/**
 * Device-to-host side of the msgbuf protocol: the DMA-completion sync
 * strategies that decide when a completion slot may be read, the
 * message-type dispatch table, and the loops that drain the TX and RX
 * completion rings.
 *
 * A message is its 32-bit little-endian words.  Because the dongle may
 * still be writing the slot while the host polls it, the host's view of a
 * message is a function of the attempt number: view(a) is what attempt a
 * sees.  Batches and messages within a batch are numbered the same way.
 */
module MsgbufD2h {
  import opened Wrappers
  import opened MsgbufRing

  const SYNC_WAIT_TRIES: nat := 512
  const SYNC_NUM_OF_STEPS: nat := 3
  /** Attempts of one sync over all its steps. */
  const SYNC_ATTEMPTS: nat := 1536
  const EPOCH_MODULO: nat := 253
  const EPOCH_INIT_VAL: nat := 254
  const U32: nat := 0x1_0000_0000
  /** Entries of the dispatch table. */
  const PROT_FUNCS: nat := 22
  /** Ring ids of the three D2H completion rings. */
  const D2H_MSGRING_CONTROL_COMPLETE: nat := 2
  const D2H_MSGRING_TX_COMPLETE: nat := 3
  const D2H_MSGRING_RX_COMPLETE: nat := 4

  type Word = bv32
  type Msg = seq<Word>
  type MsgView = nat -> Msg

  function Max(a: nat, b: nat): nat { if a >= b then a else b }

  // ---------------------------------------------------------------------
  // Message fields
  // ---------------------------------------------------------------------

  /** Word 0 of the common header (msg_type, if_id, flags, epoch). */
  function HeaderWord(m: Msg): Word { if |m| > 0 then m[0] else 0 }

  /** cmn_msg_hdr_t.msg_type, the low byte of word 0. */
  function MsgType(m: Msg): (t: nat)
    ensures t < 256
  {
    (HeaderWord(m) & 0xFF) as nat
  }

  /** cmn_msg_hdr_t.epoch, the high byte of word 0. */
  function Epoch(m: Msg): (e: nat)
    ensures e < 256
  {
    ((HeaderWord(m) >> 24) & 0xFF) as nat
  }

  /** The last word of the message, where the dongle puts the sequence number. */
  function Marker(m: Msg): Word { if |m| > 0 then m[|m| - 1] else 0 }

  /** bcm_compute_xor32 over all words of the message. */
  function Xor32(ws: seq<Word>): Word
  {
    if |ws| == 0 then 0 else Xor32(ws[..|ws| - 1]) ^ ws[|ws| - 1]
  }

  /**
   * The dongle seals a work item by appending the XOR of its words; the
   * checksum the host computes over the sealed item is then 0.
   */
  lemma XorSealed(ws: seq<Word>)
    ensures Xor32(ws + [Xor32(ws)]) == 0
  {
    assert (ws + [Xor32(ws)])[..|ws|] == ws;
  }

  // ---------------------------------------------------------------------
  // Sync strategies
  // ---------------------------------------------------------------------

  datatype SyncMode = SeqnumSync | XorcsumSync | NoSync

  /**
   * dhd_prot_d2h_sync_init's choice from the two mode bits the dongle
   * advertises: SEQNUM wins over XORCSUM, and neither means no sync.
   */
  function SelectMode(seqnumFlag: bool, xorcsumFlag: bool): (m: SyncMode)
    ensures m.SeqnumSync? <==> seqnumFlag
    ensures m.XorcsumSync? <==> !seqnumFlag && xorcsumFlag
    ensures m.NoSync? <==> !seqnumFlag && !xorcsumFlag
  {
    if seqnumFlag then SeqnumSync
    else if xorcsumFlag then XorcsumSync
    else NoSync
  }

  /** Has the DMA of this message landed, as the mode tells? */
  predicate Completed(mode: SyncMode, m: Msg, seqnum: nat)
  {
    match mode
    case SeqnumSync => Marker(m) as nat == seqnum % 253
    case XorcsumSync => Xor32(m) == 0 && Epoch(m) == seqnum % 253
    case NoSync => true
  }

  /** The first attempt from a on that sees the message completed. */
  function FirstCompleted(mode: SyncMode, view: MsgView, seqnum: nat, a: nat): (b: Option<nat>)
    ensures b.Some? ==> a <= b.value < SYNC_ATTEMPTS && Completed(mode, view(b.value), seqnum)
    decreases SYNC_ATTEMPTS - a
  {
    if a >= SYNC_ATTEMPTS then None
    else if Completed(mode, view(a), seqnum) then Some(a)
    else FirstCompleted(mode, view, seqnum, a + 1)
  }

  /**
   * FirstCompleted finds the earliest completed attempt of the bounded
   * retry, and finds none exactly when no attempt sees the message complete.
   */
  lemma {:induction false} FirstCompletedSound(mode: SyncMode, view: MsgView, seqnum: nat, a: nat)
    ensures FirstCompleted(mode, view, seqnum, a).Some? ==>
      var b := FirstCompleted(mode, view, seqnum, a).value;
      && a <= b < SYNC_ATTEMPTS
      && Completed(mode, view(b), seqnum)
      && forall c :: a <= c < b ==> !Completed(mode, view(c), seqnum)
    ensures FirstCompleted(mode, view, seqnum, a).None? ==>
      forall c :: a <= c < SYNC_ATTEMPTS ==> !Completed(mode, view(c), seqnum)
    decreases SYNC_ATTEMPTS - a
  {
    if a < SYNC_ATTEMPTS && !Completed(mode, view(a), seqnum) {
      FirstCompletedSound(mode, view, seqnum, a + 1);
    }
  }

  /** Attempts that do not see the message complete are skipped over. */
  lemma {:induction false} FirstCompletedSkips(mode: SyncMode, view: MsgView, seqnum: nat, a0: nat, a: nat)
    requires a0 <= a
    requires forall c :: a0 <= c < a ==> !Completed(mode, view(c), seqnum)
    ensures FirstCompleted(mode, view, seqnum, a0) == FirstCompleted(mode, view, seqnum, a)
    decreases a - a0
  {
    if a0 < a {
      FirstCompletedSkips(mode, view, seqnum, a0 + 1, a);
    }
  }

  /** The type the sync callback hands to the dispatcher. */
  function SyncedType(mode: SyncMode, view: MsgView, seqnum: nat): nat
  {
    if mode.NoSync? then MsgType(view(0))
    else match FirstCompleted(mode, view, seqnum, 0)
      case Some(a) => MsgType(view(a))
      case None => 0
  }

  /**
   * The wait statistics after one sync: the retry count recorded is one
   * below the index of the completing attempt, all 1536 attempts count as
   * 1535 for the maximum, and a livelock adds nothing to the total.
   */
  function Retries(a: nat): nat { if a == 0 then 0 else a - 1 }

  function WaitStats(found: Option<nat>, waitMax: nat, waitTot: nat): (nat, nat)
  {
    match found
    case Some(a) => (Max(waitMax, Retries(a)), waitTot + Retries(a))
    case None => (Max(waitMax, Retries(SYNC_ATTEMPTS)), waitTot)
  }

  /** The ring's expected sequence number after one sync. */
  function NextSeqnum(mode: SyncMode, seqnum: nat): nat
  {
    if mode.NoSync? then seqnum else (seqnum + 1) % 0x1_0000_0000
  }

  /** The ring's expected sequence number after i syncs. */
  function SeqAfter(mode: SyncMode, seqnum: nat, i: nat): nat
  {
    if i == 0 then seqnum else NextSeqnum(mode, SeqAfter(mode, seqnum, i - 1))
  }

  /** Adding one commutes with reduction modulo 2^32. */
  lemma ModSucc(x: nat)
    ensures (x % 0x1_0000_0000 + 1) % 0x1_0000_0000 == (x + 1) % 0x1_0000_0000
  {
    var q, m := x / 0x1_0000_0000, x % 0x1_0000_0000;
    assert x == q * 0x1_0000_0000 + m;
    if m + 1 == 0x1_0000_0000 {
      assert x + 1 == (q + 1) * 0x1_0000_0000;
    } else {
      assert x + 1 == q * 0x1_0000_0000 + (m + 1);
    }
  }

  /** Sequence numbers wrap at 32 bits: i syncs add i modulo 2^32. */
  lemma {:induction false} SeqAfterWraps(mode: SyncMode, seqnum: nat, i: nat)
    requires seqnum < U32
    ensures SeqAfter(mode, seqnum, i) == if mode.NoSync? then seqnum else (seqnum + i) % U32
  {
    if i > 0 {
      SeqAfterWraps(mode, seqnum, i - 1);
      if !mode.NoSync? {
        ModSucc(seqnum + i - 1);
      }
    } else if !mode.NoSync? {
      assert seqnum % U32 == seqnum;
    }
  }

  /**
   * A message that some attempt sees complete is delivered with the type
   * read at an attempt no later than that one; a message that never
   * completes is delivered as type 0, whose handler is the no-op.
   */
  lemma {:induction false} SyncDelivers(mode: SyncMode, view: MsgView, seqnum: nat, a: nat)
    requires !mode.NoSync? && a < SYNC_ATTEMPTS && Completed(mode, view(a), seqnum)
    ensures FirstCompleted(mode, view, seqnum, 0).Some?
    ensures FirstCompleted(mode, view, seqnum, 0).value <= a
    ensures SyncedType(mode, view, seqnum) == MsgType(view(FirstCompleted(mode, view, seqnum, 0).value))
  {
    FirstCompletedSound(mode, view, seqnum, 0);
  }

  lemma {:induction false} LivelockIsNoop(mode: SyncMode, view: MsgView, seqnum: nat)
    requires !mode.NoSync?
    requires forall c :: 0 <= c < SYNC_ATTEMPTS ==> !Completed(mode, view(c), seqnum)
    ensures SyncedType(mode, view, seqnum) == 0
    ensures TABLE_LOOKUP[SyncedType(mode, view, seqnum)] == Some(Noop)
  {
    FirstCompletedSound(mode, view, seqnum, 0);
  }

  /**
   * A dongle that stamps message i of a stream with the ring's sequence
   * number plus i in the last word, and whose DMA has landed on the first
   * poll, has every message delivered with its true type.
   */
  lemma {:induction false} StampedStreamDelivered(views: nat -> MsgView, seqnum: nat, i: nat)
    requires Marker(views(i)(0)) as nat == SeqAfter(SeqnumSync, seqnum, i) % EPOCH_MODULO
    ensures SyncedType(SeqnumSync, views(i), SeqAfter(SeqnumSync, seqnum, i)) == MsgType(views(i)(0))
  {
    assert Completed(SeqnumSync, views(i)(0), SeqAfter(SeqnumSync, seqnum, i));
  }

  /**
   * The stepped retry of dhd_prot_d2h_sync_seqnum and _xorcsum: 3 steps of
   * 512 polls, stopping at the first poll that sees the message complete,
   * and raising the recorded maximum retry count as the polls fail.
   */
  method PollForCompletion(mode: SyncMode, view: MsgView, s: nat, waitMax0: nat)
    returns (t: nat, found: Option<nat>, waitMax: nat)
    ensures found == FirstCompleted(mode, view, s, 0)
    ensures found.Some? ==> t == MsgType(view(found.value)) && Completed(mode, view(found.value), s)
    ensures found.None? ==> t == 0
    ensures waitMax == WaitStats(found, waitMax0, 0).0
  {
    var totalTries := 0;
    waitMax := waitMax0;
    var step := 1;
    var base := 0;
    while step <= SYNC_NUM_OF_STEPS
      invariant 1 <= step <= SYNC_NUM_OF_STEPS + 1
      invariant base == (step - 1) * 512
      invariant forall c :: 0 <= c < base ==> !Completed(mode, view(c), s)
      invariant totalTries == Retries(base)
      invariant waitMax == Max(waitMax0, totalTries)
    {
      var tries := 0;
      while tries < SYNC_WAIT_TRIES
        invariant 0 <= tries <= SYNC_WAIT_TRIES
        invariant forall c :: 0 <= c < base + tries ==> !Completed(mode, view(c), s)
        invariant totalTries == Retries(base + tries)
        invariant waitMax == Max(waitMax0, totalTries)
      {
        var m := view(base + tries);
        if Completed(mode, m, s) {
          FirstCompletedSkips(mode, view, s, 0, base + tries);
          assert FirstCompleted(mode, view, s, base + tries) == Some(base + tries);
          return MsgType(m), Some(base + tries), waitMax;
        }
        totalTries := base + tries;
        if totalTries > waitMax {
          waitMax := totalTries;
        }
        tries := tries + 1;
      }
      step := step + 1;
      base := base + SYNC_WAIT_TRIES;
    }
    FirstCompletedSkips(mode, view, s, 0, SYNC_ATTEMPTS);
    assert FirstCompleted(mode, view, s, SYNC_ATTEMPTS) == None;
    return 0, None, waitMax;
  }

  // ---------------------------------------------------------------------
  // Dispatch table
  // ---------------------------------------------------------------------

  datatype Handler =
    | Noop | GenStatus | RingStatus | FlowCreateCmplt | FlowDeleteCmplt
    | FlowFlushCmplt | IoctlAck | IoctlCmplt | WlEvent | TxStatus | RxCmplt
    | DmaxferCmplt

  /** table_lookup: the handler per message type; None is a NULL slot. */
  const TABLE_LOOKUP: seq<Option<Handler>> := [
    Some(Noop), Some(GenStatus), Some(RingStatus), None,
    Some(FlowCreateCmplt), None, Some(FlowDeleteCmplt), None,
    Some(FlowFlushCmplt), None, Some(IoctlAck), None,
    Some(IoctlCmplt), None, Some(WlEvent), None,
    Some(TxStatus), None, Some(RxCmplt), None,
    Some(DmaxferCmplt), None]

  /**
   * The handlers a message of type t runs: one for a filled slot of the
   * table, none for a NULL slot or a type past its end.
   */
  function HandlersOf(t: nat): (hs: seq<Handler>)
    ensures |hs| <= 1
    ensures |hs| == 1 <==> t < PROT_FUNCS && (t < 3 || t % 2 == 0)
  {
    if t < PROT_FUNCS && TABLE_LOOKUP[t].Some? then [TABLE_LOOKUP[t].value] else []
  }

  /** The handlers run, in order, by messages 0 .. n-1 of a batch of the given types. */
  function HandlerTrace(types: nat -> nat, n: nat): (trace: seq<Handler>)
    ensures |trace| <= n
  {
    if n == 0 then [] else HandlerTrace(types, n - 1) + HandlersOf(types(n - 1))
  }

  /**
   * What dhd_process_msgtype did with one batch: whether it ended without
   * error, how many messages it synced, how many it looked up in the table
   * (ran the handler of), and how many it passed over.
   */
  datatype Dispatched = Dispatched(ok: bool, synced: nat, handled: nat, consumed: nat)

  /**
   * The type every message of a batch syncs to: message k of the batch is
   * synced after k increments of the ring's sequence number.
   */
  function SyncedTypes(mode: SyncMode, views: nat -> MsgView, seqnum: nat): nat -> nat
  {
    k => SyncedType(mode, views(k), SeqAfter(mode, seqnum, k))
  }

  lemma SyncedTypesAt(mode: SyncMode, views: nat -> MsgView, seqnum: nat)
    ensures forall i {:trigger views(i)} ::
      SyncedTypes(mode, views, seqnum)(i) == SyncedType(mode, views(i), SeqAfter(mode, seqnum, i))
  {
  }

  /**
   * dhd_process_msgtype on a batch of pktlen bytes of msglen-byte messages,
   * k messages into it, message i syncing to types(i): each message is
   * dispatched unless its type is outside the table; a short tail is an
   * error after its handler ran.  The result counts, from the start of the
   * batch, the messages synced, looked up in the table and passed over.
   */
  function Dispatch(types: nat -> nat, k: nat, pktlen: nat, msglen: nat, hang: bool): (d: Dispatched)
    requires msglen > 0
    ensures k <= d.consumed <= d.synced <= d.consumed + 1
    decreases pktlen
  {
    if pktlen == 0 then Dispatched(true, k, k, k)
    else if hang then Dispatched(false, k, k, k)
    else if types(k) >= PROT_FUNCS then Dispatched(false, k + 1, k, k)
    else if pktlen < msglen then Dispatched(false, k + 1, k + 1, k)
    else Dispatch(types, k + 1, pktlen - msglen, msglen, hang)
  }

  /**
   * Each message of a batch is synced before it is looked up and looked up
   * before it is passed over, and at most one message is synced and not
   * passed over; a batch that dispatches without error was consumed
   * exactly, in whole messages, each one synced and handled.
   */
  lemma {:induction false} DispatchOkIsWhole(types: nat -> nat, k: nat, pktlen: nat, msglen: nat, hang: bool)
    requires msglen > 0
    ensures var d := Dispatch(types, k, pktlen, msglen, hang);
      && k <= d.consumed <= d.handled <= d.synced <= d.consumed + 1
      && (d.ok ==> pktlen == (d.consumed - k) * msglen && d.synced == d.consumed && d.handled == d.consumed)
    decreases pktlen
  {
    if pktlen > 0 && !hang && types(k) < PROT_FUNCS && pktlen >= msglen {
      DispatchOkIsWhole(types, k + 1, pktlen - msglen, msglen, hang);
      var d := Dispatch(types, k + 1, pktlen - msglen, msglen, hang);
      Distrib(d.consumed - k, 1, msglen);
    }
  }

  /** DispatchOkIsWhole for a whole batch, counted from its first message. */
  lemma DispatchOkIsWholeAtStart(types: nat -> nat, pktlen: nat, msglen: nat, hang: bool)
    requires msglen > 0
    ensures var d := Dispatch(types, 0, pktlen, msglen, hang);
      d.ok ==> pktlen == d.consumed * msglen && d.consumed == d.synced
  {
    DispatchOkIsWhole(types, 0, pktlen, msglen, hang);
  }

  /**
   * Conversely, m whole messages whose types are all in the table dispatch
   * without error, each one synced, handled and consumed.
   */
  lemma {:induction false} DispatchWhole(types: nat -> nat, k: nat, m: nat, msglen: nat)
    requires msglen > 0
    requires forall i :: k <= i < k + m ==> types(i) < PROT_FUNCS
    ensures Dispatch(types, k, m * msglen, msglen, false) == Dispatched(true, k + m, k + m, k + m)
    decreases m
  {
    if m > 0 {
      Distrib(m, 1, msglen);
      DispatchWhole(types, k + 1, m - 1, msglen);
    }
  }

  /** A message whose type is outside the table stops the batch at once, unhandled. */
  lemma BadTypeStops(types: nat -> nat, k: nat, pktlen: nat, msglen: nat)
    requires msglen > 0 && pktlen > 0 && types(k) >= PROT_FUNCS
    ensures Dispatch(types, k, pktlen, msglen, false) == Dispatched(false, k + 1, k, k)
  {
  }

  /** What one sync reads and writes: the ring's sequence number and the wait statistics. */
  datatype SyncState = SyncState(seqnum: nat, waitMax: nat, waitTot: nat)

  /**
   * One call of the installed d2h_sync_cb on the values it works on: the
   * retrying modes bump the sequence number once whatever the outcome and
   * account the retries; no-sync mode reads the type and changes nothing.
   */
  method SyncMessage(mode: SyncMode, view: MsgView, st: SyncState) returns (t: nat, st2: SyncState)
    ensures t == SyncedType(mode, view, st.seqnum)
    ensures st2.seqnum == NextSeqnum(mode, st.seqnum)
    ensures (st2.waitMax, st2.waitTot) == if mode.NoSync? then (st.waitMax, st.waitTot)
      else WaitStats(FirstCompleted(mode, view, st.seqnum, 0), st.waitMax, st.waitTot)
  {
    if mode.NoSync? {
      return MsgType(view(0)), st;
    }
    var found: Option<nat>;
    var wm: nat;
    t, found, wm := PollForCompletion(mode, view, st.seqnum, st.waitMax);
    var wt := if found.Some? then st.waitTot + Retries(found.value) else st.waitTot;
    assert (wm, wt) == WaitStats(found, st.waitMax, st.waitTot);
    st2 := SyncState((st.seqnum + 1) % 0x1_0000_0000, wm, wt);
  }

  /**
   * The sync of message k of a batch whose message i syncs to types(i):
   * it yields types(k) and moves the sequence number on to where message
   * k + 1 expects it.
   */
  method SyncAt(mode: SyncMode, views: nat -> MsgView, ghost types: nat -> nat, seqnum0: nat,
                k: nat, st: SyncState) returns (t: nat, st2: SyncState)
    requires forall i {:trigger views(i)} :: types(i) == SyncedType(mode, views(i), SeqAfter(mode, seqnum0, i))
    requires st.seqnum == SeqAfter(mode, seqnum0, k)
    ensures t == types(k)
    ensures st2.seqnum == SeqAfter(mode, seqnum0, k + 1)
    ensures st2.waitMax >= st.waitMax && st2.waitTot >= st.waitTot
  {
    t, st2 := SyncMessage(mode, views(k), st);
  }

  /**
   * The loop of dhd_process_msgtype on values: sync and dispatch each
   * message of a batch of len bytes; on the RX completion ring (rx) each
   * message passed over also moves the early read index one step towards
   * r, and `published` is the last value of it handed to the dongle.
   */
  method DispatchBatch(mode: SyncMode, views: nat -> MsgView, ghost types: nat -> nat, st0: SyncState,
                       len: nat, msglen: nat, hang: bool, rx: bool, early0: nat, r: nat, d: nat)
    returns (ok: bool, trace: seq<Handler>, st: SyncState, early: nat, published: Option<nat>)
    requires msglen > 0
    requires forall i {:trigger views(i)} :: types(i) == SyncedType(mode, views(i), SeqAfter(mode, st0.seqnum, i))
    ensures var dd := Dispatch(types, 0, len, msglen, hang);
      && ok == dd.ok && trace == HandlerTrace(types, dd.handled)
      && st.seqnum == SeqAfter(mode, st0.seqnum, dd.synced)
      && early == (if rx then EarlySteps(early0, r, d, dd.consumed) else early0)
      && published == (if rx && dd.consumed > 0 && early0 != r then Some(early) else None)
    ensures st.waitMax >= st0.waitMax && st.waitTot >= st0.waitTot
  {
    ghost var d0 := Dispatch(types, 0, len, msglen, hang);
    var pktlen: nat := len;
    var k := 0;
    ghost var synced: nat, handled: nat, consumed: nat := 0, 0, 0;
    ok, trace, st, early, published := true, [], st0, early0, None;
    while pktlen > 0 && ok
      invariant ok ==> synced == k && handled == k && consumed == k
      invariant ok ==> d0 == Dispatch(types, k, pktlen, msglen, hang)
      invariant !ok ==> d0 == Dispatched(false, synced, handled, consumed)
      invariant st.seqnum == SeqAfter(mode, st0.seqnum, synced)
      invariant trace == HandlerTrace(types, handled)
      invariant early == (if rx then EarlySteps(early0, r, d, consumed) else early0)
      invariant early0 == r ==> early == early0
      invariant published == (if rx && consumed > 0 && early0 != r then Some(early) else None)
      invariant st.waitMax >= st0.waitMax && st.waitTot >= st0.waitTot
      decreases pktlen, ok
    {
      if hang {
        ok := false;
        break;
      }
      var t;
      t, st := SyncAt(mode, views, types, st0.seqnum, k, st);
      synced := k + 1;
      if t >= PROT_FUNCS {
        ok := false;
        break;
      }
      trace := trace + HandlersOf(t);
      handled := k + 1;
      if pktlen < msglen {
        ok := false;
        break;
      }
      pktlen := pktlen - msglen;
      if rx && early != r {
        early := if early + 1 >= d then 0 else early + 1;
        published := Some(early);
      }
      consumed := k + 1;
      k := k + 1;
    }
  }

  /**
   * When every message's type has a filled slot of table_lookup, message i
   * runs exactly the handler in the slot of its type, in order.
   */
  lemma {:induction false} HandlerTraceExact(types: nat -> nat, n: nat)
    requires forall i :: 0 <= i < n ==> types(i) < PROT_FUNCS && TABLE_LOOKUP[types(i)].Some?
    ensures |HandlerTrace(types, n)| == n
    ensures forall i :: 0 <= i < n ==> HandlerTrace(types, n)[i] == TABLE_LOOKUP[types(i)].value
    decreases n
  {
    if n > 0 {
      HandlerTraceExact(types, n - 1);
      assert HandlerTrace(types, n) == HandlerTrace(types, n - 1) + [TABLE_LOOKUP[types(n - 1)].value];
    }
  }

  // ---------------------------------------------------------------------
  // The D2H half of the protocol state
  // ---------------------------------------------------------------------

  class D2hProt {
    /** Which d2h_sync_cb is installed. */
    var mode: SyncMode
    /** d2h_sync_wait_max: the largest retry count seen. */
    var waitMax: nat
    /** d2h_sync_wait_tot: retries summed over all synced messages. */
    var waitTot: nat
    /** rx_cpln_early_upd_idx */
    var earlyUpdIdx: nat
    /** The read index last published to the dongle, per D2H ring id. */
    var publishedR: map<nat, nat>

    constructor ()
      ensures mode == NoSync && waitMax == 0 && waitTot == 0 && earlyUpdIdx == 0
      ensures publishedR == map[]
    {
      mode, waitMax, waitTot, earlyUpdIdx, publishedR := NoSync, 0, 0, 0, map[];
    }

    /**
     * dhd_prot_d2h_sync_init: zero the statistics, start the three
     * completion rings at the initial epoch, and install the callback.
     */
    method SyncInit(txCpln: MsgRing, rxCpln: MsgRing, ctrlCpln: MsgRing,
                    seqnumFlag: bool, xorcsumFlag: bool)
      modifies this`mode, this`waitMax, this`waitTot, txCpln`seqnum, rxCpln`seqnum, ctrlCpln`seqnum
      ensures waitMax == 0 && waitTot == 0
      ensures txCpln.seqnum == EPOCH_INIT_VAL && rxCpln.seqnum == EPOCH_INIT_VAL
      ensures ctrlCpln.seqnum == EPOCH_INIT_VAL
      ensures mode == SelectMode(seqnumFlag, xorcsumFlag)
    {
      waitMax, waitTot := 0, 0;
      txCpln.seqnum := EPOCH_INIT_VAL;
      rxCpln.seqnum := EPOCH_INIT_VAL;
      ctrlCpln.seqnum := EPOCH_INIT_VAL;
      mode := SelectMode(seqnumFlag, xorcsumFlag);
    }

    /**
     * d2h_sync_cb on one message: dhd_prot_d2h_sync_seqnum and
     * dhd_prot_d2h_sync_xorcsum poll up to 3 x 512 times, bump the ring's
     * sequence number once whatever happens, and yield the message type on
     * completion or 0 on livelock; dhd_prot_d2h_sync_none reads the type.
     */
    method Sync(ring: MsgRing, view: MsgView) returns (t: nat)
      modifies this`waitMax, this`waitTot, ring`seqnum
      ensures t == SyncedType(mode, view, old(ring.seqnum))
      ensures ring.seqnum == NextSeqnum(mode, old(ring.seqnum))
      ensures (waitMax, waitTot) == if mode.NoSync? then (old(waitMax), old(waitTot))
        else WaitStats(FirstCompleted(mode, view, old(ring.seqnum), 0), old(waitMax), old(waitTot))
    {
      var st;
      t, st := SyncMessage(mode, view, SyncState(ring.seqnum, waitMax, waitTot));
      ring.seqnum, waitMax, waitTot := st.seqnum, st.waitMax, st.waitTot;
    }

    /**
     * dhd_process_msgtype: sync and dispatch every message of a batch of
     * len bytes; after each message of the RX completion ring the early
     * read index advances one slot and is published to the dongle.  The
     * ghost `types` names the type message i of the batch syncs to.
     */
    method ProcessMsgtype(ring: MsgRing, len: nat, views: nat -> MsgView, ghost types: nat -> nat, hang: bool)
      returns (ok: bool, trace: seq<Handler>)
      requires ring.Readable()
      requires forall i {:trigger views(i)} :: types(i) == SyncedType(mode, views(i), SeqAfter(mode, ring.seqnum, i))
      modifies this`waitMax, this`waitTot, this`earlyUpdIdx, this`publishedR, ring`seqnum
      ensures var d := Dispatch(types, 0, len, ring.lenItems, hang);
        && ok == d.ok && trace == HandlerTrace(types, d.handled)
        && ring.seqnum == SeqAfter(mode, old(ring.seqnum), d.synced)
        && earlyUpdIdx == (if ring.idx == D2H_MSGRING_RX_COMPLETE
                           then EarlySteps(old(earlyUpdIdx), ring.r, ring.maxItem, d.consumed)
                           else old(earlyUpdIdx))
        && publishedR == (if ring.idx == D2H_MSGRING_RX_COMPLETE && d.consumed > 0 && old(earlyUpdIdx) != ring.r
                          then old(publishedR)[ring.idx := earlyUpdIdx]
                          else old(publishedR))
      ensures waitMax >= old(waitMax) && waitTot >= old(waitTot)
    {
      var st, early, published;
      ok, trace, st, early, published := DispatchBatch(mode, views, types, SyncState(ring.seqnum, waitMax, waitTot),
        len, ring.lenItems, hang, ring.idx == D2H_MSGRING_RX_COMPLETE, earlyUpdIdx, ring.r, ring.maxItem);
      ring.seqnum, waitMax, waitTot, earlyUpdIdx := st.seqnum, st.waitMax, st.waitTot, early;
      if published.Some? {
        publishedR := publishedR[ring.idx := published.value];
      }
    }

    /** prot_store_rxcpln_read_idx */
    method StoreRxcplnReadIdx(ring: MsgRing)
      modifies this`earlyUpdIdx
      ensures earlyUpdIdx == ring.r
    {
      earlyUpdIdx := ring.r;
    }

    /**
     * prot_early_upd_rxcpln_read_idx: unless it has caught up with the read
     * index, move the early index one slot on, wrapping at the ring's end,
     * and publish it.
     */
    method EarlyUpd(ring: MsgRing)
      requires ring.Readable()
      modifies this`earlyUpdIdx, this`publishedR
      ensures earlyUpdIdx == EarlyStep(old(earlyUpdIdx), ring.r, ring.maxItem)
      ensures earlyUpdIdx < ring.maxItem || earlyUpdIdx == old(earlyUpdIdx)
      ensures publishedR == if old(earlyUpdIdx) == ring.r then old(publishedR)
                            else old(publishedR)[ring.idx := earlyUpdIdx]
    {
      if earlyUpdIdx == ring.r {
        return;
      }
      earlyUpdIdx := earlyUpdIdx + 1;
      if earlyUpdIdx >= ring.maxItem {
        earlyUpdIdx := 0;
      }
      publishedR := publishedR[ring.idx := earlyUpdIdx];
    }

    /** prot_upd_read_idx: publish the ring's own read index. */
    method UpdReadIdx(ring: MsgRing)
      modifies this`publishedR
      ensures publishedR == old(publishedR)[ring.idx := ring.r]
    {
      publishedR := publishedR[ring.idx := ring.r];
    }

    /**
     * One pass of the RX completion loop after the hang check: store the
     * read index, take the readable run of slots at the dongle's write
     * index dongleW, dispatch it, and publish the read index if dispatch
     * failed.  A clean dispatch of an in-range batch has already released
     * every slot through the early read index.
     */
    method RxBatch(ring: MsgRing, dongleW: nat, views: nat -> MsgView) returns (got: bool, len: nat)
      requires ring.Readable() && ring.idx == D2H_MSGRING_RX_COMPLETE
      modifies this`waitMax, this`waitTot, this`earlyUpdIdx, this`publishedR, ring`seqnum, ring`w, ring`r
      ensures ring.Readable()
      ensures !got <==> SrcAddr(dongleW, old(ring.r), ring.maxItem, ring.lenItems).None?
      ensures ring.w == dongleW
      ensures !got ==> ring.r == old(ring.r) && SrcAddr(ring.w, ring.r, ring.maxItem, ring.lenItems).None?
      ensures !got ==> publishedR == old(publishedR)
      ensures got ==> len / ring.lenItems >= 1
      ensures got && dongleW < ring.maxItem ==> ring.idx in publishedR && publishedR[ring.idx] == ring.r
    {
      StoreRxcplnReadIdx(ring);
      var r0 := ring.r;
      var b := ring.GetSrcAddr(dongleW);
      if b.None? {
        return false, 0;
      }
      SrcAddrSound(dongleW, r0, ring.maxItem, ring.lenItems);
      ghost var types := SyncedTypes(mode, views, ring.seqnum);
      SyncedTypesAt(mode, views, ring.seqnum);
      var ok, trace := ProcessMsgtype(ring, b.value.bytes, views, types, false);
      if !ok {
        UpdReadIdx(ring);
      } else if dongleW < ring.maxItem {
        DispatchOkIsWholeAtStart(types, b.value.bytes, ring.lenItems, false);
        ghost var d := Dispatch(types, 0, b.value.bytes, ring.lenItems, false);
        MulCancel(d.consumed, b.value.items, ring.lenItems);
        EarlyReachesNewR(dongleW, r0, ring.maxItem, ring.lenItems);
      }
      DivMul(b.value.items, ring.lenItems);
      got, len := true, b.value.bytes;
    }

    /**
     * dhd_prot_process_msgbuf_rxcpl: drain the RX completion ring batch by
     * batch until a hang was sent, the ring has nothing readable, or at
     * least `bound` items were taken (n counts them, batches counts the
     * batches).  Batch j sees the dongle's write index dongleW(j), and
     * message i of it through views(j)(i).
     */
    method ProcessRxCpl(ring: MsgRing, bound: nat, hang: bool, dongleW: nat -> nat, views: nat -> nat -> MsgView)
      returns (more: bool, batches: nat, n: nat)
      requires ring.Readable() && ring.idx == D2H_MSGRING_RX_COMPLETE
      modifies this`waitMax, this`waitTot, this`earlyUpdIdx, this`publishedR, ring`seqnum, ring`w, ring`r
      ensures ring.Readable()
      ensures hang ==> !more && batches == 0 && ring.r == old(ring.r)
      ensures more ==> !hang && batches > 0 && n >= bound
      ensures !more && !hang ==> SrcAddr(ring.w, ring.r, ring.maxItem, ring.lenItems).None?
      ensures batches > 0 && dongleW(batches - 1) < ring.maxItem ==>
        ring.idx in publishedR && publishedR[ring.idx] == ring.r
    {
      more, batches, n := true, 0, 0;
      while true
        invariant ring.Readable()
        invariant n <= bound && (batches == 0 ==> n == 0 && ring.r == old(ring.r))
        invariant batches > 0 ==> !hang
        invariant batches > 0 && dongleW(batches - 1) < ring.maxItem ==>
          ring.idx in publishedR && publishedR[ring.idx] == ring.r
        decreases bound - n
      {
        if hang {
          more := false;
          break;
        }
        var got, len := RxBatch(ring, dongleW(batches), views(batches));
        if !got {
          more := false;
          break;
        }
        n := n + len / ring.lenItems;
        batches := batches + 1;
        if n >= bound {
          break;
        }
      }
    }

    /**
     * One pass of the TX completion loop after the hang check: take the
     * readable run of slots, dispatch it, and publish the read index.
     */
    method TxBatch(ring: MsgRing, dongleW: nat, views: nat -> MsgView) returns (got: bool, len: nat)
      requires ring.Readable()
      modifies this`waitMax, this`waitTot, this`earlyUpdIdx, this`publishedR, ring`seqnum, ring`w, ring`r
      ensures ring.Readable()
      ensures !got <==> SrcAddr(dongleW, old(ring.r), ring.maxItem, ring.lenItems).None?
      ensures ring.w == dongleW
      ensures !got ==> ring.r == old(ring.r) && SrcAddr(ring.w, ring.r, ring.maxItem, ring.lenItems).None?
      ensures !got ==> publishedR == old(publishedR)
      ensures got ==> len / ring.lenItems >= 1
      ensures got ==> ring.idx in publishedR && publishedR[ring.idx] == ring.r
    {
      var r0 := ring.r;
      var b := ring.GetSrcAddr(dongleW);
      if b.None? {
        return false, 0;
      }
      SrcAddrSound(dongleW, r0, ring.maxItem, ring.lenItems);
      ghost var types := SyncedTypes(mode, views, ring.seqnum);
      SyncedTypesAt(mode, views, ring.seqnum);
      var ok, trace := ProcessMsgtype(ring, b.value.bytes, views, types, false);
      UpdReadIdx(ring);
      DivMul(b.value.items, ring.lenItems);
      got, len := true, b.value.bytes;
    }

    /**
     * dhd_prot_process_msgbuf_txcpl: the same drain of the TX completion
     * ring, publishing the read index to the dongle after every batch.
     */
    method ProcessTxCpl(ring: MsgRing, bound: nat, hang: bool, dongleW: nat -> nat, views: nat -> nat -> MsgView)
      returns (more: bool, batches: nat, n: nat)
      requires ring.Readable() && ring.idx == D2H_MSGRING_TX_COMPLETE
      modifies this`waitMax, this`waitTot, this`earlyUpdIdx, this`publishedR, ring`seqnum, ring`w, ring`r
      ensures ring.Readable()
      ensures hang ==> !more && batches == 0 && ring.r == old(ring.r)
      ensures more ==> !hang && batches > 0 && n >= bound
      ensures !more && !hang ==> SrcAddr(ring.w, ring.r, ring.maxItem, ring.lenItems).None?
      ensures batches > 0 ==> ring.idx in publishedR && publishedR[ring.idx] == ring.r
    {
      more, batches, n := true, 0, 0;
      while true
        invariant ring.Readable()
        invariant n <= bound && (batches == 0 ==> n == 0 && ring.r == old(ring.r))
        invariant batches > 0 ==> !hang
        invariant batches > 0 ==> ring.idx in publishedR && publishedR[ring.idx] == ring.r
        decreases bound - n
      {
        if hang {
          more := false;
          break;
        }
        var got, len := TxBatch(ring, dongleW(batches), views(batches));
        if !got {
          more := false;
          break;
        }
        n := n + len / ring.lenItems;
        batches := batches + 1;
        if n >= bound {
          break;
        }
      }
    }
  }
}
