/**
 * The io device side of SIPC5: the rx queue a misc device keeps, the
 * per-id queues that hold the frames of a multi-format message until its
 * last frame arrives, the modem and SIM state the device reports, the
 * poll mask, the op table an io device is given, and the entry point a
 * link device hands received buffers to.
 *
 * Buffers are values; a queue is a sequence of buffers, head first.
 */
module Sipc5Iodev {
  import opened Wrappers
  import opened Sipc5Frame
  import opened Sipc5Multifmt
  import opened Sipc5Rx

  type Skb = seq<Byte>

  // ---------------------------------------------------------------------
  // The bounded rx queue
  // ---------------------------------------------------------------------

  /** max_t(int, rxq_max, iod->rxq_max): the module-wide bound or the device's own. */
  function QueueBound(global: int, own: int): (b: int)
    ensures b >= global && b >= own && (b == global || b == own)
  {
    if global >= own then global else own
  }

  /**
   * The rx queue after sipc_recv_skb_miscdev appended skb: when the bound
   * is nonzero and below the queue length, the head (the oldest buffer) is
   * dropped first.  The int bound is compared with the __u32 queue length,
   * so a negative bound is taken modulo 2^32.
   */
  function Enqueue(q: seq<Skb>, qlen: int, skb: Skb): (q': seq<Skb>)
    ensures 1 <= |q'| && |q| <= |q'| <= |q| + 1 && q'[|q'| - 1] == skb
    ensures q' == (q + [skb])[|q| + 1 - |q'|..]
    ensures |q'| == |q| <==> qlen != 0 && qlen % U32 < |q|
  {
    if qlen != 0 && qlen % U32 < |q| then q[1..] + [skb]
    else q + [skb]
  }

  /** With a positive bound the queue never grows past bound + 1 buffers. */
  lemma EnqueueBounded(q: seq<Skb>, qlen: int, skb: Skb)
    requires 0 < qlen < U32 && |q| <= qlen + 1
    ensures |Enqueue(q, qlen, skb)| <= qlen + 1
  {
  }

  /**
   * A negative 32-bit bound reads as at least 2^31 in the unsigned
   * comparison, so a queue shorter than that is never trimmed.
   */
  lemma EnqueueNegative(q: seq<Skb>, qlen: int, skb: Skb)
    requires -0x8000_0000 <= qlen < 0 && |q| < 0x8000_0000
    ensures Enqueue(q, qlen, skb) == q + [skb]
  {
    assert qlen % U32 == qlen + U32;
  }

  // ---------------------------------------------------------------------
  // Multi-format receive
  // ---------------------------------------------------------------------

  /** sipc5h->ext.ctl & 0x7F: the id of a CTRL frame (always below SIPC_MULTIFMT_ID_MAX + 1). */
  function FrameId(skb: Skb): (id: nat)
    ensures id <= SIPC_MULTIFMT_ID_MAX
  {
    ByteAt(skb, 4) % 128
  }

  /** The rx queue and the per-id queues. */
  datatype Queues = Queues(rx: seq<Skb>, multi: seq<seq<Skb>>)

  /**
   * sipc5_recv_skb_miscdev_multifmt on an opened device: a CTRL frame joins
   * the queue of its id, and a frame without MOREBIT then releases that
   * whole queue, in order, to the tail of the rx queue; any other frame
   * goes straight to the rx queue.
   */
  function RecvMultifmtQueues(qs: Queues, skb: Skb): (r: Queues)
    requires |qs.multi| == SIPC_MULTIFMT_ID_MAX + 1
    ensures |r.multi| == |qs.multi| && qs.rx <= r.rx
    ensures forall j :: 0 <= j < |qs.multi| && j != FrameId(skb) ==> r.multi[j] == qs.multi[j]
    ensures !HasBit(ByteAt(skb, 0), SIPC5_HDR_CTRL) ==> r == Queues(qs.rx + [skb], qs.multi)
  {
    if HasBit(ByteAt(skb, 0), SIPC5_HDR_CTRL) then
      var id := FrameId(skb);
      var held := qs.multi[id] + [skb];
      if ByteAt(skb, 4) < SIPC_MULTIFMT_MOREBIT then Queues(qs.rx + held, qs.multi[id := []])
      else Queues(qs.rx, qs.multi[id := held])
    else Queues(qs.rx + [skb], qs.multi)
  }

  /** Several frames received one after the other. */
  function RecvMultifmtAll(qs: Queues, skbs: seq<Skb>): (r: Queues)
    requires |qs.multi| == SIPC_MULTIFMT_ID_MAX + 1
    ensures |r.multi| == |qs.multi|
    decreases |skbs|
  {
    if skbs == [] then qs else RecvMultifmtAll(RecvMultifmtQueues(qs, skbs[0]), skbs[1..])
  }

  /** Frame i of msg is a CTRL frame of message id, with MOREBIT on all frames but the last. */
  predicate MessageFrame(msg: seq<Skb>, i: nat, id: nat)
    requires i < |msg|
  {
    && HasBit(ByteAt(msg[i], 0), SIPC5_HDR_CTRL)
    && FrameId(msg[i]) == id
    && (ByteAt(msg[i], 4) >= SIPC_MULTIFMT_MOREBIT <==> i < |msg| - 1)
  }

  /**
   * The frames of one message, received in order after held on the queue
   * of its id, come out on the rx queue in order behind held, and leave
   * the queue of the id empty and every other queue as it was.
   */
  lemma {:induction false} MessageReleased(qs: Queues, id: nat, msg: seq<Skb>)
    requires |qs.multi| == SIPC_MULTIFMT_ID_MAX + 1 && id < |qs.multi| && msg != []
    requires forall i :: 0 <= i < |msg| ==> MessageFrame(msg, i, id)
    ensures RecvMultifmtAll(qs, msg) == Queues(qs.rx + qs.multi[id] + msg, qs.multi[id := []])
    decreases |msg|
  {
    assert MessageFrame(msg, 0, id);
    var m := msg[0];
    var held := qs.multi[id] + [m];
    if |msg| == 1 {
      assert RecvMultifmtQueues(qs, m) == Queues(qs.rx + held, qs.multi[id := []]);
      assert msg[1..] == [];
      assert qs.rx + qs.multi[id] + msg == qs.rx + held;
    } else {
      var qs1 := Queues(qs.rx, qs.multi[id := held]);
      assert RecvMultifmtQueues(qs, m) == qs1;
      forall i | 0 <= i < |msg[1..]|
        ensures MessageFrame(msg[1..], i, id)
      {
        assert MessageFrame(msg, i + 1, id);
      }
      MessageReleased(qs1, id, msg[1..]);
      assert qs1.multi[id] == held;
      assert qs1.multi[id := []] == qs.multi[id := []];
      assert qs.rx + held + msg[1..] == qs.rx + qs.multi[id] + msg;
    }
  }

  // ---------------------------------------------------------------------
  // Modem and SIM state
  // ---------------------------------------------------------------------

  /** enum modem_state, in the order of its declaration (STATE_OFFLINE is 0). */
  datatype ModemState =
    | Offline | CrashReset | CrashExit | Booting | Online | NvRebuilding
    | LoaderDone | SimAttach | SimDetach | CrashWatchdog

  /** The value of a modem_state as the status ioctl returns it. */
  function StateCode(s: ModemState): (c: int)
    ensures 0 <= c <= 9
  {
    match s
    case Offline => 0
    case CrashReset => 1
    case CrashExit => 2
    case Booting => 3
    case Online => 4
    case NvRebuilding => 5
    case LoaderDone => 6
    case SimAttach => 7
    case SimDetach => 8
    case CrashWatchdog => 9
  }

  /** The states the status ioctl reports without consuming a SIM change. */
  predicate Crashed(s: ModemState)
  {
    s == CrashReset || s == CrashExit || s == CrashWatchdog
  }

  /** iod->mc->phone_state and iod->mc->sim_state {online, changed}. */
  datatype Modem = Modem(phone: ModemState, online: bool, changed: bool)

  /**
   * io_dev_sim_state_changed: on an opened device a new SIM state is
   * recorded and flagged as changed; an unopened device or an unchanged
   * state leaves everything alone.
   */
  function SimStateChanged(m: Modem, isOpen: bool, simOnline: bool): (m': Modem)
    ensures m'.phone == m.phone
    ensures m' != m <==> isOpen && m.online != simOnline
    ensures m' != m ==> m'.online == simOnline && m'.changed
  {
    if !isOpen || m.online == simOnline then m
    else m.(online := simOnline, changed := true)
  }

  /** The value the status ioctl returns and the modem state it leaves. */
  datatype StatusReply = StatusReply(ret: int, m: Modem)

  /**
   * The IOCTL_MODEM_STATUS case of misc_ioctl: a crash state is reported
   * as it is; otherwise a pending SIM change is consumed and reported as
   * SIM_ATTACH or SIM_DETACH; otherwise the phone state is reported, and
   * NV_REBUILDING is reported once and then becomes ONLINE.
   */
  function ModemStatus(m: Modem): (r: StatusReply)
    ensures r.m.online == m.online
    ensures r.m.changed <==> m.changed && Crashed(m.phone)
    ensures Crashed(m.phone) || !m.changed ==> r.ret == StateCode(m.phone)
    ensures !Crashed(m.phone) && m.changed ==>
      r.ret == StateCode(if m.online then SimAttach else SimDetach) && r.m.phone == m.phone
    ensures r.m.phone != m.phone <==> !Crashed(m.phone) && !m.changed && m.phone == NvRebuilding
    ensures r.m.phone != m.phone ==> r.m.phone == Online
  {
    if Crashed(m.phone) then StatusReply(StateCode(m.phone), m)
    else if m.changed then
      StatusReply(StateCode(if m.online then SimAttach else SimDetach), m.(changed := false))
    else if m.phone == NvRebuilding then StatusReply(StateCode(m.phone), m.(phone := Online))
    else StatusReply(StateCode(m.phone), m)
  }

  /**
   * A SIM change on an opened device is reported by the next status
   * ioctl outside a crash, exactly once: the one after it reports the
   * phone state again.
   */
  lemma SimChangeReportedOnce(m: Modem, simOnline: bool)
    requires m.online != simOnline && !Crashed(m.phone)
    ensures var r1 := ModemStatus(SimStateChanged(m, true, simOnline));
      && r1.ret == StateCode(if simOnline then SimAttach else SimDetach)
      && ModemStatus(r1.m).ret == StateCode(m.phone)
  {
  }

  /** Reporting the same SIM state twice flags one change. */
  lemma SimStateIdempotent(m: Modem, isOpen: bool, simOnline: bool)
    ensures SimStateChanged(SimStateChanged(m, isOpen, simOnline), isOpen, simOnline)
         == SimStateChanged(m, isOpen, simOnline)
  {
  }

  // ---------------------------------------------------------------------
  // Poll
  // ---------------------------------------------------------------------

  const POLLIN: nat := 0x0001
  const POLLERR: nat := 0x0008
  const POLLHUP: nat := 0x0010
  const POLLRDNORM: nat := 0x0040

  /** The io device formats the model tells apart. */
  datatype Format = IpcFmt | IpcBoot | OtherFormat

  /**
   * The mask misc_poll returns: POLLERR without a device; data to read
   * while booting or online with no SIM change; a hang-up for a fmt or
   * boot device in a crash state, or once the SIM state changed while
   * booting or online; 0 otherwise.
   */
  function Poll(hasIod: bool, phone: ModemState, simChanged: bool, rxEmpty: bool, format: Format): (mask: nat)
    ensures !hasIod ==> mask == POLLERR
    ensures mask == POLLIN + POLLRDNORM <==>
      hasIod && (phone == Booting || phone == Online) && !simChanged && !rxEmpty
    ensures mask == POLLHUP <==>
      && hasIod && (format == IpcFmt || format == IpcBoot)
      && (Crashed(phone) || phone == NvRebuilding || ((phone == Booting || phone == Online) && simChanged))
    ensures mask == 0 || mask == POLLERR || mask == POLLHUP || mask == POLLIN + POLLRDNORM
  {
    if !hasIod then POLLERR
    else
      var wakeup := (phone == Booting || phone == Online) && simChanged;
      if (phone == Booting || phone == Online) && !simChanged then
        (if !rxEmpty then POLLIN + POLLRDNORM else 0)
      else if wakeup || Crashed(phone) || phone == NvRebuilding then
        (if format == IpcFmt || format == IpcBoot then POLLHUP else 0)
      else 0
  }

  // ---------------------------------------------------------------------
  // The op table
  // ---------------------------------------------------------------------

  /** The IODEV_ATTR bits sipc_get_ops looks at. */
  datatype Attr = AttrSipc4 | AttrSipc5 | AttrMultifmt | AttrRxFragment | AttrLegacyRfs | AttrHandover

  /** iod->ops.header_create */
  datatype CreateOp = PlainCreate | MultifmtCreate | LegacyRfsCreate | HandoverCreate

  /** iod->ops.recv_skb_packet */
  datatype PacketOp = MiscdevPacket | NetdevPacket | MultifmtPacket | HandoverPacket

  /**
   * The ops sipc_get_ops fills in; an absent op is None or false.
   * fragment is recv_skb_fragment (the multipacket split), demux is
   * recv_demux.
   */
  datatype Ops = Ops(create: Option<CreateOp>, parse: Option<ParseOp>, cont: ContinueOp, demux: bool,
                     packet: PacketOp, fragment: bool, multifmtLength: bool)

  /** PS_DATA_CH_0 .. PS_DATA_CH_LAST, the packet-data channels. */
  const PS_DATA_CH_0: nat := 10
  const PS_DATA_CH_LAST: nat := 24

  /** The ops and the headroom added to iod->headroom. */
  datatype OpsSetup = OpsSetup(ops: Ops, headroom: nat)

  /**
   * sipc5_get_ops on top of the packet op already chosen: every SIPC5
   * device demultiplexes, creates and parses headers; MULTIFMT,
   * RX_FRAGMENT, LEGACY_RFS and HANDOVER then override in that order.
   */
  function Sipc5GetOps(attrs: set<Attr>, net: bool, id: nat, packet: PacketOp): (r: Ops)
    ensures r.demux && r.create.Some? && r.parse.Some?
    ensures r.fragment <==> AttrRxFragment in attrs
    ensures r.multifmtLength <==> AttrMultifmt in attrs
    ensures AttrLegacyRfs in attrs ==> r.parse == Some(LegacyRfsParseOp) && r.cont == LegacyRfsContinueOp
    ensures AttrLegacyRfs !in attrs && AttrRxFragment in attrs ==>
      r.parse == Some(FragmentParseOp) && r.cont == FragmentContinueOp
    ensures AttrLegacyRfs !in attrs && AttrRxFragment !in attrs ==> r.parse == Some(HdrParseOp)
    ensures AttrLegacyRfs !in attrs && AttrRxFragment !in attrs ==>
      r.cont == (if AttrMultifmt in attrs then MultifmtContinueOp else NoContinueOp)
    ensures AttrHandover in attrs && net && PS_DATA_CH_0 <= id <= PS_DATA_CH_LAST ==>
      r.packet == HandoverPacket && r.create == Some(HandoverCreate)
    ensures !(AttrHandover in attrs && net && PS_DATA_CH_0 <= id <= PS_DATA_CH_LAST) ==>
      r.packet == (if AttrMultifmt in attrs then MultifmtPacket else packet)
  {
    var o := NoOps(packet).(demux := true, create := Some(PlainCreate), parse := Some(HdrParseOp));
    var o := if AttrMultifmt in attrs then
      o.(create := Some(MultifmtCreate), multifmtLength := true, packet := MultifmtPacket, cont := MultifmtContinueOp)
      else o;
    var o := if AttrRxFragment in attrs then
      o.(parse := Some(FragmentParseOp), cont := FragmentContinueOp, fragment := true)
      else o;
    var o := if AttrLegacyRfs in attrs then
      o.(create := Some(LegacyRfsCreate), parse := Some(LegacyRfsParseOp), cont := LegacyRfsContinueOp)
      else o;
    if AttrHandover in attrs && net && PS_DATA_CH_0 <= id <= PS_DATA_CH_LAST then
      o.(create := Some(HandoverCreate), packet := HandoverPacket)
    else o
  }

  /** The ops of a freshly allocated io device: all NULL. */
  function NoOps(packet: PacketOp): Ops
  {
    Ops(None, None, NoContinueOp, false, packet, false, false)
  }

  /**
   * sipc_get_ops: the packet op by device type, then the SIPC4 ops (none
   * are filled in) or the SIPC5 ops, SIPC4 taking precedence.
   */
  function GetOps(attrs: set<Attr>, net: bool, id: nat): (r: OpsSetup)
    ensures AttrSipc4 in attrs || AttrSipc5 !in attrs ==>
      r == OpsSetup(NoOps(if net then NetdevPacket else MiscdevPacket), 0)
    ensures AttrSipc4 !in attrs && AttrSipc5 in attrs ==> r.headroom == SIPC5_HDR_LEN_MAX
    ensures AttrSipc4 !in attrs && AttrSipc5 in attrs && AttrMultifmt in attrs && AttrHandover !in attrs ==>
      r.ops.packet == MultifmtPacket && r.ops.create == Some(if AttrLegacyRfs in attrs then LegacyRfsCreate else MultifmtCreate)
  {
    var packet := if net then NetdevPacket else MiscdevPacket;
    if AttrSipc4 in attrs then OpsSetup(NoOps(packet), 0)
    else if AttrSipc5 in attrs then OpsSetup(Sipc5GetOps(attrs, net, id, packet), SIPC5_HDR_LEN_MAX)
    else OpsSetup(NoOps(packet), 0)
  }

  // ---------------------------------------------------------------------
  // Receive entry from the link device
  // ---------------------------------------------------------------------

  /** Where io_dev_recv_skb_from_link_dev sends a buffer. */
  datatype Route = Invalid | ToFragment | ToDemux | ToPacket

  /**
   * io_dev_recv_skb_from_link_dev: an empty buffer is -EINVAL, and so is a
   * device without recv_skb_packet; otherwise the first op present of
   * recv_skb_fragment, recv_demux and recv_skb_packet takes the buffer.
   */
  function RecvRoute(ops: Option<Ops>, skbLen: nat): (r: Route)
    ensures r == Invalid <==> skbLen == 0 || ops.None?
    ensures r == ToFragment <==> skbLen != 0 && ops.Some? && ops.value.fragment
    ensures r == ToDemux <==> skbLen != 0 && ops.Some? && !ops.value.fragment && ops.value.demux
  {
    if skbLen == 0 then Invalid
    else if ops.None? then Invalid
    else if ops.value.fragment then ToFragment
    else if ops.value.demux then ToDemux
    else ToPacket
  }

  /**
   * A SIPC5 device takes every nonempty buffer: an RX_FRAGMENT device
   * through the multipacket split, any other one through the demux.
   */
  lemma Sipc5Routes(attrs: set<Attr>, net: bool, id: nat, skbLen: nat)
    requires AttrSipc4 !in attrs && AttrSipc5 in attrs && skbLen != 0
    ensures RecvRoute(Some(GetOps(attrs, net, id).ops), skbLen) == if AttrRxFragment in attrs then ToFragment else ToDemux
  {
  }

  // ---------------------------------------------------------------------
  // misc_read
  // ---------------------------------------------------------------------

  const EFAULT: int := 14

  /** Whether copy_to_user fails in round k of a read (faults lists the rounds, false past its end). */
  predicate Fault(faults: seq<bool>, k: nat)
  {
    k < |faults| && faults[k]
  }

  /**
   * The header skbpriv(skb)->sipch points at for header_parse_continue.
   * Only sipc5_hdr_parse_multifmt_continue reads it, and the only parser
   * it is paired with always sets it.
   */
  function SipchOf(p: PostParse): seq<Byte>
  {
    if p.sipch.Some? then p.sipch.value else []
  }

  /**
   * The return value of misc_read, the bytes copied to the user, whether
   * a parser hit the framing panic, and the rx queue and h_post left.
   */
  datatype ReadResult = ReadResult(ret: int, data: seq<Byte>, fatal: bool, rxq: seq<Skb>, post: HeaderData)

  /**
   * misc_read from round k on, with data copied so far: take the head
   * buffer, parse it, copy min(len, count - copied) of it, run the
   * continue op, put back what is left of it at the head, and go on while
   * the status is 1 and there is room.  An empty queue ends the read with
   * what was copied; a parse error ends it with that error (the buffer is
   * freed); a failed copy puts the parsed buffer back and ends it with
   * -EFAULT.
   */
  function ReadLoop(pop: ParseOp, cop: ContinueOp, count: nat, rxq: seq<Skb>, post: HeaderData,
                    data: seq<Byte>, faults: seq<bool>, k: nat): (r: ReadResult)
    requires HeaderValid(post) && |data| <= count < U32
    ensures HeaderValid(r.post)
    ensures |data| <= |r.data| <= count && r.data[..|data|] == data
    ensures r.ret >= 0 ==> r.ret == |r.data|
    ensures r.ret < 0 ==> r.ret == -EFAULT || r.ret == -EBADMSG
    decreases count - |data|, |rxq|
  {
    if rxq == [] then ReadResult(|data|, data, false, rxq, post)
    else
      var p := HeaderParse(pop, post, rxq[0]);
      if p.ret < 0 then ReadResult(p.ret, data, false, rxq[1..], p.st)
      else if Fault(faults, k) then ReadResult(-EFAULT, data, false, [p.skb] + rxq[1..], p.st)
      else
        var len := Min(|p.skb|, count - |data|);
        var data' := data + p.skb[..len];
        var c := ParseContinue(cop, p.st, SipchOf(p), len, p.ret);
        var rest := p.skb[len..];
        var q := if rest != [] then [rest] + rxq[1..] else rxq[1..];
        if c.fatal then ReadResult(|data'|, data', true, q, c.st)
        else if c.status == 1 && count - |data'| > 0 then ReadLoop(pop, cop, count, q, c.st, data', faults, k + 1)
        else ReadResult(|data'|, data', false, q, c.st)
  }

  /**
   * A plain SIPC5 device reads one frame per call: its payload, cut to the
   * room there is, with what did not fit put back at the head.
   */
  lemma ReadOneFrame(count: nat, f: Skb, q: seq<Skb>, post: HeaderData)
    requires HeaderValid(post) && count < U32 && StartValid(f) && HdrLen(f[0]) <= PacketLen(f) == |f|
    ensures var payload := f[HdrLen(f[0])..];
      var n := Min(|payload|, count);
      var r := ReadLoop(HdrParseOp, NoContinueOp, count, [f] + q, post, [], [], 0);
      && r.ret == n && r.data == payload[..n] && r.post == post && !r.fatal
      && r.rxq == (if n < |payload| then [payload[n..]] + q else q)
  {
    assert Trim(f, PacketLen(f)) == f;
    assert ([f] + q)[1..] == q;
  }

  /** A CTRL frame of message id, with MOREBIT exactly when more is set, that needs no trimming. */
  predicate CtrlFrame(f: Skb, id: nat, more: bool)
  {
    && |f| > SIPC5_HDR_LEN_CTRL && StartValid(f)
    && !HasBit(f[0], SIPC5_HDR_EXT) && HasBit(f[0], SIPC5_HDR_CTRL)
    && PacketLen(f) == |f| && FrameId(f) == id && (f[4] >= SIPC_MULTIFMT_MOREBIT <==> more)
  }

  /** The payloads of frames with a CTRL header, laid end to end. */
  function CtrlPayloads(fs: seq<Skb>): (b: seq<Byte>)
  {
    if fs == [] then [] else CtrlPayload(fs[0]) + CtrlPayloads(fs[1..])
  }

  /** What follows a CTRL header. */
  function CtrlPayload(f: Skb): seq<Byte>
  {
    if |f| < SIPC5_HDR_LEN_CTRL then [] else f[SIPC5_HDR_LEN_CTRL..]
  }

  /** fs are the CTRL frames of message id, and only the last one lacks MOREBIT. */
  predicate Message(fs: seq<Skb>, id: nat)
    decreases |fs|
  {
    fs != [] && CtrlFrame(fs[0], id, |fs| > 1) && (|fs| > 1 ==> Message(fs[1..], id))
  }

  /** What sipc5_hdr_parse and its multifmt continue make of one CTRL frame. */
  lemma {:induction false} CtrlFrameParsed(f: Skb, id: nat, more: bool, st: HeaderData, size: nat)
    requires CtrlFrame(f, id, more) && HeaderValid(st) && size < U32
    ensures HeaderParse(HdrParseOp, st, f) == PostParse(0, f[SIPC5_HDR_LEN_CTRL..], Some(f), st)
    ensures ParseContinue(MultifmtContinueOp, st, f, size, 0) == Cont(if more then 1 else 0, false, st)
  {
    assert HdrLen(f[0]) == SIPC5_HDR_LEN_CTRL;
    assert Trim(f, PacketLen(f)) == f;
    assert ByteAt(f, 0) == f[0] && ByteAt(f, 4) == f[4];
  }

  /** One round of a multi-format read on a CTRL frame: its payload is copied whole. */
  lemma {:induction false} ReadCtrlFrame(count: nat, f: Skb, id: nat, more: bool, rest: seq<Skb>, post: HeaderData,
                                         data: seq<Byte>, faults: seq<bool>, k: nat)
    requires HeaderValid(post) && count < U32 && CtrlFrame(f, id, more) && !Fault(faults, k)
    requires |data| + |CtrlPayload(f)| <= count && (more ==> |data| + |CtrlPayload(f)| < count)
    ensures var d := data + CtrlPayload(f);
      ReadLoop(HdrParseOp, MultifmtContinueOp, count, [f] + rest, post, data, faults, k)
      == if more then ReadLoop(HdrParseOp, MultifmtContinueOp, count, rest, post, d, faults, k + 1)
         else ReadResult(|d|, d, false, rest, post)
  {
    var payload := f[SIPC5_HDR_LEN_CTRL..];
    CtrlFrameParsed(f, id, more, post, |payload|);
    assert ([f] + rest)[0] == f && ([f] + rest)[1..] == rest;
    assert payload[..|payload|] == payload && payload[|payload|..] == [];
  }

  /**
   * A multi-format device reads a whole message in one call when the
   * user buffer has room for it: the payloads of its frames, in order,
   * leaving the queue behind the message.
   */
  lemma {:induction false} ReadMessage(count: nat, fs: seq<Skb>, id: nat, q: seq<Skb>, post: HeaderData,
                                       data: seq<Byte>, faults: seq<bool>, k: nat)
    requires HeaderValid(post) && count < U32 && Message(fs, id)
    requires forall j :: k <= j < k + |fs| ==> !Fault(faults, j)
    requires |data| + |CtrlPayloads(fs)| <= count
    ensures ReadLoop(HdrParseOp, MultifmtContinueOp, count, fs + q, post, data, faults, k)
         == ReadResult(|data| + |CtrlPayloads(fs)|, data + CtrlPayloads(fs), false, q, post)
    decreases |fs|
  {
    var f := fs[0];
    MessageSplit(fs, id, q, data);
    assert !Fault(faults, k);
    if |fs| == 1 {
      ReadCtrlFrame(count, f, id, false, q, post, data, faults, k);
    } else {
      ReadCtrlFrame(count, f, id, true, fs[1..] + q, post, data, faults, k);
      ReadMessage(count, fs[1..], id, q, post, data + CtrlPayload(f), faults, k + 1);
    }
  }

  /** A message is its first frame followed by the rest of the message. */
  lemma {:induction false} MessageSplit(fs: seq<Skb>, id: nat, q: seq<Skb>, data: seq<Byte>)
    requires Message(fs, id)
    ensures CtrlPayloads(fs) == CtrlPayload(fs[0]) + CtrlPayloads(fs[1..])
    ensures data + CtrlPayload(fs[0]) + CtrlPayloads(fs[1..]) == data + CtrlPayloads(fs)
    ensures fs + q == [fs[0]] + (fs[1..] + q)
    ensures |fs| == 1 ==> fs[1..] + q == q && CtrlPayloads(fs[1..]) == []
    ensures |fs| > 1 ==> |CtrlPayloads(fs[1..])| > 0
  {
    assert fs + q == [fs[0]] + (fs[1..] + q);
    if |fs| == 1 {
      assert fs[1..] == [];
    } else {
      assert CtrlPayloads(fs[1..]) == CtrlPayload(fs[1..][0]) + CtrlPayloads(fs[1..][1..]);
    }
  }

  // ---------------------------------------------------------------------
  // The io device
  // ---------------------------------------------------------------------

  /** struct modem_ctl: the part of it the io device reads and updates. */
  class ModemCtl {
    var phoneState: ModemState
    var simOnline: bool
    var simChanged: bool

    constructor ()
      ensures phoneState == Offline && !simOnline && !simChanged
    {
      phoneState, simOnline, simChanged := Offline, false, false;
    }

    function View(): Modem
      reads this
    {
      Modem(phoneState, simOnline, simChanged)
    }
  }

  /** struct io_device: the open count, the queues and the rx bound. */
  class IoDevice {
    var openCount: int
    var rxqMax: int
    var rxq: seq<Skb>
    var multiq: seq<seq<Skb>>
    const format: Format
    const mc: ModemCtl

    ghost predicate Valid()
      reads this
    {
      |multiq| == SIPC_MULTIFMT_ID_MAX + 1
    }

    constructor (format: Format, mc: ModemCtl, rxqMax: int)
      ensures Valid() && this.format == format && this.mc == mc && this.rxqMax == rxqMax
      ensures openCount == 0 && rxq == [] && (forall j :: 0 <= j < |multiq| ==> multiq[j] == [])
    {
      this.format, this.mc, this.rxqMax := format, mc, rxqMax;
      openCount, rxq := 0, [];
      multiq := seq(SIPC_MULTIFMT_ID_MAX + 1, j => []);
    }

    /** sipc_recv_skb_miscdev, with the module-wide bound rxq_max given. */
    method RecvSkbMiscdev(rxqMaxGlobal: int, skb: Skb) returns (ret: int)
      modifies this`rxq
      ensures ret == |skb|
      ensures openCount == 0 ==> rxq == old(rxq)
      ensures openCount != 0 ==> rxq == Enqueue(old(rxq), QueueBound(rxqMaxGlobal, rxqMax), skb)
    {
      ret := |skb|;
      if openCount == 0 {
        return;
      }
      var qlen := QueueBound(rxqMaxGlobal, rxqMax);
      if qlen != 0 && qlen % U32 < |rxq| {
        rxq := rxq[1..];
      }
      rxq := rxq + [skb];
    }

    /** skb_queue_move(&sk_rx_q, &sk_multi_q[id]): one buffer at a time, head first. */
    method QueueMove(id: nat)
      requires Valid() && id < |multiq|
      modifies this`rxq, this`multiq
      ensures Valid() && rxq == old(rxq) + old(multiq[id]) && multiq == old(multiq)[id := []]
    {
      while multiq[id] != []
        invariant Valid() && rxq + multiq[id] == old(rxq) + old(multiq[id])
        invariant multiq == old(multiq)[id := multiq[id]]
        decreases |multiq[id]|
      {
        var skb := multiq[id][0];
        multiq := multiq[id := multiq[id][1..]];
        rxq := rxq + [skb];
      }
    }

    /** sipc5_recv_skb_miscdev_multifmt */
    method RecvMultifmt(skb: Skb) returns (ret: int)
      requires Valid()
      modifies this`rxq, this`multiq
      ensures Valid() && ret == |skb|
      ensures openCount == 0 ==> rxq == old(rxq) && multiq == old(multiq)
      ensures openCount != 0 ==> Queues(rxq, multiq) == RecvMultifmtQueues(Queues(old(rxq), old(multiq)), skb)
    {
      ret := |skb|;
      if openCount == 0 {
        return;
      }
      if HasBit(ByteAt(skb, 0), SIPC5_HDR_CTRL) {
        var id := FrameId(skb);
        multiq := multiq[id := multiq[id] + [skb]];
        if ByteAt(skb, 4) < SIPC_MULTIFMT_MOREBIT {
          QueueMove(id);
        }
      } else {
        rxq := rxq + [skb];
      }
    }

    /**
     * misc_read: the loop of ReadLoop; fd is the fragment state of the
     * current link, faults the rounds in which copy_to_user fails.
     */
    method MiscRead(fd: FragData, pop: ParseOp, cop: ContinueOp, count: nat, faults: seq<bool>)
      returns (ret: int, data: seq<Byte>, fatal: bool)
      requires fd.Valid() && count < U32
      modifies this`rxq, fd`post
      ensures fd.Valid()
      ensures ReadResult(ret, data, fatal, rxq, fd.post) == ReadLoop(pop, cop, count, old(rxq), old(fd.post), [], faults, 0)
    {
      ghost var goal := ReadLoop(pop, cop, count, rxq, fd.post, [], faults, 0);
      var k, done := 0, false;
      ret, data, fatal := 0, [], false;
      while !done
        invariant fd.Valid() && |data| <= count
        invariant !done ==> ReadLoop(pop, cop, count, rxq, fd.post, data, faults, k) == goal
        invariant done ==> ReadResult(ret, data, fatal, rxq, fd.post) == goal
        decreases if done then 0 else 1, count - |data|, |rxq|
      {
        done, ret, data, fatal := ReadRound(fd, pop, cop, count, data, faults, k);
        k := k + 1;
      }
    }

    /** One round of misc_read (from continue_multiframe to the goto). */
    method ReadRound(fd: FragData, pop: ParseOp, cop: ContinueOp, count: nat, data: seq<Byte>, faults: seq<bool>, k: nat)
      returns (done: bool, ret: int, data': seq<Byte>, fatal: bool)
      requires fd.Valid() && |data| <= count < U32
      modifies this`rxq, fd`post
      ensures fd.Valid() && |data'| <= count
      ensures done ==> ReadResult(ret, data', fatal, rxq, fd.post)
                       == ReadLoop(pop, cop, count, old(rxq), old(fd.post), data, faults, k)
      ensures !done ==> ReadLoop(pop, cop, count, rxq, fd.post, data', faults, k + 1)
                        == ReadLoop(pop, cop, count, old(rxq), old(fd.post), data, faults, k)
      ensures !done ==> count - |data'| < count - |data| || (data' == data && |rxq| < |old(rxq)|)
    {
      data', fatal := data, false;
      if rxq == [] {
        done, ret := true, |data|;
        return;
      }
      var skb := rxq[0];
      rxq := rxq[1..];
      var status, parsed, sipch := fd.Parse(pop, skb);
      if status < 0 {
        done, ret := true, status;
        return;
      }
      if Fault(faults, k) {
        rxq := [parsed] + rxq;
        done, ret := true, -EFAULT;
        return;
      }
      var len := Min(|parsed|, count - |data|);
      data' := data + parsed[..len];
      var sp := if sipch.Some? then sipch.value else [];
      status, fatal := fd.ParseCont(cop, sp, len, status);
      var rest := parsed[len..];
      if rest != [] {
        rxq := [rest] + rxq;
      }
      done := fatal || !(status == 1 && count - |data'| > 0);
      ret := |data'|;
    }

    /** io_dev_sim_state_changed */
    method SimStateChangedOn(simOnline: bool)
      modifies mc
      ensures mc.View() == SimStateChanged(old(mc.View()), openCount != 0, simOnline)
    {
      if openCount == 0 {
      } else if mc.simOnline == simOnline {
      } else {
        mc.simOnline, mc.simChanged := simOnline, true;
      }
    }

    /** The IOCTL_MODEM_STATUS case of misc_ioctl. */
    method ModemStatusIoctl() returns (ret: int)
      modifies mc
      ensures StatusReply(ret, mc.View()) == ModemStatus(old(mc.View()))
    {
      var p := mc.phoneState;
      if Crashed(p) {
        ret := StateCode(p);
      } else if mc.simChanged {
        ret := StateCode(if mc.simOnline then SimAttach else SimDetach);
        mc.simChanged := false;
      } else {
        if p == NvRebuilding {
          mc.phoneState := Online;
        }
        ret := StateCode(p);
      }
    }

    /** misc_poll on this device. */
    method MiscPoll() returns (mask: nat)
      ensures mask == Poll(true, mc.phoneState, mc.simChanged, rxq == [], format)
    {
      mask := 0;
      var p := mc.phoneState;
      if p == Booting || p == Online {
        if !mc.simChanged {
          if rxq != [] {
            mask := POLLIN + POLLRDNORM;
          }
          return;
        }
      }
      if p == Booting || p == Online || Crashed(p) || p == NvRebuilding {
        if format == IpcFmt || format == IpcBoot {
          mask := POLLHUP;
        }
      }
    }
  }
}
