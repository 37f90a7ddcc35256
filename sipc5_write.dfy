/**
 * The TX paths of a SIPC5 misc device: misc_write, which cuts a write into
 * frames (several for a long message on a multi-format device), puts the
 * link header on each and hands it to the link device, and _boot_write,
 * which sends a boot image in chunks.
 *
 * What the link device does with a buffer is given: its send result, and
 * whether the allocation or the copy from user space fails, round by
 * round.
 */
module Sipc5Write {
  import opened Wrappers
  import opened Sipc5Frame
  import opened Sipc5Multifmt
  import opened Sipc5Rx
  import opened Sipc5Iodev

  const ENOMEM: int := 12

  /** MAX_BOOTDATA_SIZE: the largest chunk of a boot write. */
  const MAX_BOOTDATA_SIZE: nat := 0xE00

  /** A buffer handed to ld->send, with skbpriv(skb)->nzlp. */
  datatype Tx = Tx(data: Skb, nzlp: bool)

  /**
   * The outcome of each round: whether alloc_skb fails, whether
   * copy_from_user fails, and what ld->send returns (0 past the end).
   */
  datatype Link = Link(allocFails: seq<bool>, copyFails: seq<bool>, sendRets: seq<int>)

  predicate AllocFails(l: Link, k: nat)
  {
    k < |l.allocFails| && l.allocFails[k]
  }

  predicate CopyFails(l: Link, k: nat)
  {
    k < |l.copyFails| && l.copyFails[k]
  }

  function SendRet(l: Link, k: nat): int
  {
    if k < |l.sendRets| then l.sendRets[k] else 0
  }

  /** A link on which nothing fails in rounds k .. k + n - 1. */
  predicate Clean(l: Link, k: nat, n: nat)
  {
    forall j :: k <= j < k + n ==> !AllocFails(l, j) && !CopyFails(l, j) && SendRet(l, j) >= 0
  }

  /** The bytes of the buffers sent, end to end. */
  function Bytes(txs: seq<Tx>): seq<Byte>
  {
    if txs == [] then [] else txs[0].data + Bytes(txs[1..])
  }

  lemma {:induction false} BytesAppend(txs: seq<Tx>, t: Tx)
    ensures Bytes(txs + [t]) == Bytes(txs) + t.data
    decreases |txs|
  {
    if txs == [] {
      assert txs + [t] == [t];
      assert Bytes([t]) == t.data + Bytes([]);
    } else {
      assert (txs + [t])[1..] == txs[1..] + [t];
      BytesAppend(txs[1..], t);
    }
  }

  // ---------------------------------------------------------------------
  // _boot_write
  // ---------------------------------------------------------------------

  /** The return value and the buffers handed to the link. */
  datatype TxResult = TxResult(ret: int, sent: seq<Tx>)

  /**
   * _boot_write from byte pos and round k on: chunks of at most
   * MAX_BOOTDATA_SIZE bytes, each but the last marked nzlp.  An allocation
   * failure is -ENOMEM, a failed copy -EFAULT, a failed send its error;
   * otherwise the whole count is returned.
   */
  function BootWriteFrom(data: seq<Byte>, l: Link, pos: nat, k: nat, sent: seq<Tx>): (r: TxResult)
    requires pos <= |data|
    ensures (r.ret == |data| || r.ret < 0) && sent <= r.sent && |r.sent| <= |sent| + |data| - pos
    decreases |data| - pos
  {
    if pos == |data| then TxResult(|data|, sent)
    else
      var frameLen := Min(|data| - pos, MAX_BOOTDATA_SIZE);
      if AllocFails(l, k) then TxResult(-ENOMEM, sent)
      else if CopyFails(l, k) then TxResult(-EFAULT, sent)
      else
        var t := Tx(data[pos..pos + frameLen], pos + frameLen < |data|);
        if SendRet(l, k) < 0 then TxResult(SendRet(l, k), sent + [t])
        else BootWriteFrom(data, l, pos + frameLen, k + 1, sent + [t])
  }

  /**
   * txs spell out data in chunks of 1 to MAX_BOOTDATA_SIZE bytes, nzlp
   * set on all but the last.
   */
  predicate BootChunks(data: seq<Byte>, txs: seq<Tx>)
  {
    && Bytes(txs) == data
    && (forall i :: 0 <= i < |txs| ==> 1 <= |txs[i].data| <= MAX_BOOTDATA_SIZE)
    && (forall i :: 0 <= i < |txs| ==> (txs[i].nzlp <==> i < |txs| - 1))
  }

  /**
   * A boot write returns count or an error, and when it returns count the
   * buffers sent after the earlier ones spell out the data in chunks.
   */
  lemma {:induction false} BootWriteChunks(data: seq<Byte>, l: Link, pos: nat, k: nat, sent: seq<Tx>)
    requires pos < |data| || (pos == 0 && data == [])
    requires Bytes(sent) == data[..pos]
    requires forall i :: 0 <= i < |sent| ==> sent[i].nzlp && 1 <= |sent[i].data| <= MAX_BOOTDATA_SIZE
    ensures var r := BootWriteFrom(data, l, pos, k, sent);
      && (r.ret == |data| || r.ret < 0) && sent <= r.sent && (r.ret >= 0 ==> BootChunks(data, r.sent))
    decreases |data| - pos
  {
    if pos == |data| {
      assert sent == [] by {
        if sent != [] {
          assert false;
        }
      }
    } else {
      var frameLen := Min(|data| - pos, MAX_BOOTDATA_SIZE);
      if !AllocFails(l, k) && !CopyFails(l, k) && SendRet(l, k) >= 0 {
        var t := Tx(data[pos..pos + frameLen], pos + frameLen < |data|);
        var sent' := sent + [t];
        assert BootWriteFrom(data, l, pos, k, sent) == BootWriteFrom(data, l, pos + frameLen, k + 1, sent');
        BootChunk(data, pos, frameLen, sent, t);
        ChunkAppend(sent, t);
        if t.nzlp {
          BootWriteChunks(data, l, pos + frameLen, k + 1, sent');
        } else {
          assert data[..pos + frameLen] == data;
          assert BootChunks(data, sent');
        }
      }
    }
  }

  /** A chunk of allowed size after chunks all marked nzlp. */
  lemma ChunkAppend(sent: seq<Tx>, t: Tx)
    requires forall i :: 0 <= i < |sent| ==> sent[i].nzlp && 1 <= |sent[i].data| <= MAX_BOOTDATA_SIZE
    requires 1 <= |t.data| <= MAX_BOOTDATA_SIZE
    ensures var sent' := sent + [t];
      && (forall i :: 0 <= i < |sent'| ==> 1 <= |sent'[i].data| <= MAX_BOOTDATA_SIZE)
      && (t.nzlp ==> forall i :: 0 <= i < |sent'| ==> sent'[i].nzlp)
      && (!t.nzlp ==> forall i :: 0 <= i < |sent'| ==> (sent'[i].nzlp <==> i < |sent'| - 1))
  {
    var sent' := sent + [t];
    assert forall i :: 0 <= i < |sent| ==> sent'[i] == sent[i];
  }

  /** A chunk appended to the sent ones: they still spell out a prefix of data. */
  lemma {:induction false} BootChunk(data: seq<Byte>, pos: nat, frameLen: nat, sent: seq<Tx>, t: Tx)
    requires pos + frameLen <= |data| && Bytes(sent) == data[..pos] && t.data == data[pos..pos + frameLen]
    ensures Bytes(sent + [t]) == data[..pos + frameLen]
  {
    BytesAppend(sent, t);
    assert data[..pos] + data[pos..pos + frameLen] == data[..pos + frameLen];
  }

  /** _boot_write of count = |data| bytes (count is an int in the loop). */
  method BootWrite(data: seq<Byte>, l: Link) returns (ret: int, sent: seq<Tx>)
    requires |data| < 0x8000_0000
    ensures TxResult(ret, sent) == BootWriteFrom(data, l, 0, 0, [])
  {
    ghost var goal := BootWriteFrom(data, l, 0, 0, []);
    var restLen: nat := |data|;
    var pos: nat, k: nat := 0, 0;
    sent := [];
    ret := |data|;
    var done := false;
    while restLen != 0 && !done
      invariant pos + restLen == |data|
      invariant !done ==> ret == |data| && BootWriteFrom(data, l, pos, k, sent) == goal
      invariant done ==> TxResult(ret, sent) == goal
      decreases restLen, if done then 0 else 1
    {
      var frameLen := Min(restLen, MAX_BOOTDATA_SIZE);
      if AllocFails(l, k) {
        ret, done := -ENOMEM, true;
      } else if CopyFails(l, k) {
        ret, done := -EFAULT, true;
      } else {
        restLen := restLen - frameLen;
        var t := Tx(data[pos..pos + frameLen], restLen != 0);
        sent := sent + [t];
        pos := pos + frameLen;
        var r := SendRet(l, k);
        if r < 0 {
          ret, done := r, true;
        }
        k := k + 1;
      }
    }
  }

  // ---------------------------------------------------------------------
  // misc_write
  // ---------------------------------------------------------------------

  /**
   * What misc_write reads of the io device and its link: the ops, the
   * format, multi_len, the headroom, whether ATTR_CDC_NCM is set, the
   * channel id, ld->aligned, and the bytes that lie in the 3 spare bytes
   * of tailroom (read by the padding of an aligned link).
   */
  datatype WriteCfg = WriteCfg(ops: Ops, format: Format, multiLen: nat, headroom: nat, cdcNcm: bool,
                               ch: Byte, aligned: bool, tail: seq<Byte>)

  predicate CfgValid(cfg: WriteCfg)
  {
    |cfg.tail| >= 3 && (cfg.ops.multifmtLength ==> cfg.multiLen > SIPC5_HDR_LEN_CTRL)
  }

  /** The rounds of the main link and, for the fall-back to _boot_write, of the boot write. */
  datatype WriteEnv = WriteEnv(main: Link, boot: Link)

  /** The return value, the buffers handed to the link, and the multifmt_id counter after the write. */
  datatype WriteResult = WriteResult(ret: int, sent: seq<Tx>, counter: int)

  /** iod->ops.header_create on a buffer holding payload (the raw payload when there is none). */
  function CreateFrame(op: Option<CreateOp>, ext: bool, ch: Byte, multifmt: Byte, payload: seq<Byte>,
                       aligned: bool, tail: seq<Byte>): (frame: seq<Byte>)
    requires |tail| >= 3
    ensures op.None? ==> frame == payload
  {
    match op
    case None => payload
    case Some(PlainCreate) => HdrCreate(ext, ch, payload, aligned, tail)
    case Some(MultifmtCreate) => HdrCreateMultifmt(ext, ch, multifmt, payload, aligned, tail)
    case Some(LegacyRfsCreate) => HdrCreateLegacyRfs(ext, ch, payload, aligned, tail)
    case Some(HandoverCreate) => HdrCreateHandover(ext, ch, payload, aligned, tail)
  }

  /** The frame length and new multifmt of the next frame: multifmt_length, or the whole count. */
  function NextStep(cfg: WriteCfg, rule: LengthRule, multifmt: Byte, counter: int, copied: nat, count: nat): (s: Step)
    requires CfgValid(cfg) && counter >= -1 && copied <= count < U32
    ensures !cfg.ops.multifmtLength ==> s == Step(count, multifmt)
  {
    if cfg.ops.multifmtLength then
      FrameLength(rule, cfg.format == IpcFmt, cfg.multiLen, multifmt, NthId(counter + 1), copied, count)
    else Step(count, multifmt)
  }

  /** The counter after the next frame: multifmt_length draws an id for the first frame of a long message. */
  function NextCounter(cfg: WriteCfg, multifmt: Byte, counter: int, count: nat): int
  {
    if cfg.ops.multifmtLength && NeedsId(cfg.format == IpcFmt, cfg.multiLen, multifmt, count) then counter + 1
    else counter
  }

  /**
   * Where misc_write can be: at the first frame, or within a multi-format
   * message that still has bytes to send.
   */
  predicate WritePos(cfg: WriteCfg, count: nat, copied: nat)
  {
    copied == 0 ||
    (cfg.format == IpcFmt && cfg.ops.multifmtLength && count > cfg.multiLen && copied < count)
  }

  /**
   * What misc_write carries from one frame to the next: the sipc_hdr
   * (multifmt and hdr_size), the multifmt_id counter, the bytes copied,
   * the round, and the buffers sent so far.
   */
  datatype WriteState = WriteState(multifmt: Byte, hdrSize: nat, counter: int, copied: nat, k: nat, sent: seq<Tx>)

  /** A round ends the write with its result or goes on to the next frame. */
  datatype Round = Finished(r: WriteResult) | Continue(st: WriteState)

  predicate StateValid(cfg: WriteCfg, data: seq<Byte>, st: WriteState)
  {
    CfgValid(cfg) && |data| < 0x8000_0000 && st.counter >= -1 && st.copied <= |data| && WritePos(cfg, |data|, st.copied)
  }

  /**
   * One frame of misc_write, in round k: the frame length comes from
   * multifmt_length; a failed allocation falls back to _boot_write for a
   * long IPC_BOOT write and is -ENOMEM otherwise; with headroom and no
   * CDC NCM the header size is chosen for the frame; a failed copy is
   * -EFAULT; the header is created and the buffer sent, a send error
   * ending the write; an IPC_FMT write goes on while bytes remain, and
   * the result is count.  Going on always copies at least one byte.
   */
  function WriteStep(cfg: WriteCfg, rule: LengthRule, data: seq<Byte>, env: WriteEnv, st: WriteState): (rd: Round)
    requires StateValid(cfg, data, st)
    ensures rd.Continue? ==>
      && StateValid(cfg, data, rd.st) && st.copied < rd.st.copied && rd.st.k == st.k + 1
      && cfg.format == IpcFmt && rd.st.copied < |data|
    ensures rd.Finished? ==> rd.r.ret == |data| || rd.r.ret < 0
  {
    var s := NextStep(cfg, rule, st.multifmt, st.counter, st.copied, |data|);
    var counter' := NextCounter(cfg, st.multifmt, st.counter, |data|);
    var len := s.frameLen;
    if AllocFails(env.main, st.k) then
      if len > MAX_BOOTDATA_SIZE && cfg.format == IpcBoot then
        var b := BootWriteFrom(data[..len], env.boot, 0, 0, []);
        BootWriteChunks(data[..len], env.boot, 0, 0, []);
        Finished(WriteResult(b.ret, st.sent + b.sent, counter'))
      else Finished(WriteResult(-ENOMEM, st.sent, counter'))
    else
      var hdrSize' := if cfg.headroom != 0 && !cfg.cdcNcm then HeaderSize(s.multifmt, len) else st.hdrSize;
      if CopyFails(env.main, st.k) then Finished(WriteResult(-EFAULT, st.sent, counter'))
      else
        var frame := CreateFrame(cfg.ops.create, hdrSize' == SIPC5_HDR_LEN_EXT, cfg.ch, s.multifmt,
                                 data[st.copied..st.copied + len], cfg.aligned, cfg.tail);
        var sent' := st.sent + [Tx(frame, false)];
        if SendRet(env.main, st.k) < 0 then Finished(WriteResult(SendRet(env.main, st.k), sent', counter'))
        else if cfg.format == IpcFmt && st.copied + len < |data| then
          Continue(WriteState(s.multifmt, hdrSize', counter', st.copied + len, st.k + 1, sent'))
        else Finished(WriteResult(|data|, sent', counter'))
  }

  /** misc_write from state st on: its rounds until one finishes. */
  function WriteFrom(cfg: WriteCfg, rule: LengthRule, data: seq<Byte>, env: WriteEnv, st: WriteState): (r: WriteResult)
    requires StateValid(cfg, data, st)
    ensures r.ret == |data| || r.ret < 0
    decreases |data| - st.copied
  {
    match WriteStep(cfg, rule, data, env, st)
    case Finished(r) => r
    case Continue(st') => WriteFrom(cfg, rule, data, env, st')
  }

  /** The state misc_write starts in, with the counter at its current value. */
  function Start(counter: int): WriteState
  {
    WriteState(0, 0, counter, 0, 0, [])
  }

  /**
   * misc_write of count = |data| bytes; ids is the module's multifmt_id
   * counter, the only state the write changes.
   */
  method MiscWrite(cfg: WriteCfg, rule: LengthRule, ids: MultifmtId, data: seq<Byte>, env: WriteEnv) returns (ret: int, sent: seq<Tx>)
    requires CfgValid(cfg) && ids.Valid() && |data| < 0x8000_0000
    modifies ids
    ensures ids.Valid()
    ensures WriteResult(ret, sent, ids.counter) == WriteFrom(cfg, rule, data, env, Start(old(ids.counter)))
  {
    var hdr := new SipcHdr();
    ghost var goal := WriteFrom(cfg, rule, data, env, Start(ids.counter));
    var copied: nat, k: nat := 0, 0;
    sent := [];
    var done := false;
    ret := 0;
    while !done
      invariant ids.Valid() && StateValid(cfg, data, WriteState(hdr.multifmt, hdr.hdrSize, ids.counter, copied, k, sent))
      invariant !done ==> WriteFrom(cfg, rule, data, env, WriteState(hdr.multifmt, hdr.hdrSize, ids.counter, copied, k, sent)) == goal
      invariant done ==> WriteResult(ret, sent, ids.counter) == goal
      decreases if done then 0 else 1, |data| - copied
    {
      done, ret, copied, sent := WriteRound(cfg, rule, ids, hdr, data, env, copied, k, sent);
      k := k + 1;
    }
  }

  /** One round of misc_write, from the multifmt label to the goto. */
  method WriteRound(cfg: WriteCfg, rule: LengthRule, ids: MultifmtId, hdr: SipcHdr, data: seq<Byte>, env: WriteEnv,
                    copied: nat, k: nat, sent: seq<Tx>)
    returns (done: bool, ret: int, copied': nat, sent': seq<Tx>)
    requires ids.Valid() && |data| < 0x8000_0000
    requires StateValid(cfg, data, WriteState(hdr.multifmt, hdr.hdrSize, ids.counter, copied, k, sent))
    modifies ids, hdr
    ensures ids.Valid() && (done ==> copied' == copied)
    ensures (if done then Finished(WriteResult(ret, sent', ids.counter))
             else Continue(WriteState(hdr.multifmt, hdr.hdrSize, ids.counter, copied', k + 1, sent')))
            == WriteStep(cfg, rule, data, env, WriteState(old(hdr.multifmt), old(hdr.hdrSize), old(ids.counter), copied, k, sent))
  {
    done, copied', sent' := true, copied, sent;
    ghost var st := WriteState(hdr.multifmt, hdr.hdrSize, ids.counter, copied, k, sent);
    ghost var s := NextStep(cfg, rule, st.multifmt, st.counter, copied, |data|);
    var len: nat := |data|;
    if cfg.ops.multifmtLength {
      len := MultifmtLength(ids, hdr, rule, cfg.format == IpcFmt, cfg.multiLen, copied, |data|);
    }
    assert len == s.frameLen && hdr.multifmt == s.multifmt;
    assert ids.counter == NextCounter(cfg, st.multifmt, st.counter, |data|);
    if AllocFails(env.main, k) {
      if len > MAX_BOOTDATA_SIZE && cfg.format == IpcBoot {
        var bootSent;
        ret, bootSent := BootWrite(data[..len], env.boot);
        sent' := sent + bootSent;
        return;
      }
      ret := -ENOMEM;
      return;
    }
    if cfg.headroom != 0 && !cfg.cdcNcm {
      hdr.hdrSize := HeaderSize(hdr.multifmt, len);
    }
    if CopyFails(env.main, k) {
      ret := -EFAULT;
      return;
    }
    var frame := CreateFrame(cfg.ops.create, hdr.hdrSize == SIPC5_HDR_LEN_EXT, cfg.ch, hdr.multifmt,
                             data[copied..copied + len], cfg.aligned, cfg.tail);
    sent' := sent + [Tx(frame, false)];
    ret := SendRet(env.main, k);
    if ret < 0 {
      return;
    }
    ret := |data|;
    if cfg.format == IpcFmt && copied + len < |data| {
      done, copied' := false, copied + len;
    }
  }

  // ---------------------------------------------------------------------
  // What a write puts on the link, and what the reader gets back
  // ---------------------------------------------------------------------

  /** The buffers of the sent Tx, in order. */
  function Frames(txs: seq<Tx>): (fs: seq<Skb>)
    ensures |fs| == |txs|
  {
    if txs == [] then [] else [txs[0].data] + Frames(txs[1..])
  }

  /**
   * A frame of a multi-format message, created with the CTRL header on an
   * unaligned link, is a CTRL frame carrying ctl's id and MOREBIT and the
   * payload after its 5-byte header.
   */
  lemma {:induction false} CreatedCtrl(ext: bool, ch: Byte, ctl: Byte, payload: seq<Byte>, tail: seq<Byte>)
    requires |tail| >= 3 && ctl != 0 && 1 <= |payload| && |payload| + SIPC5_HDR_LEN_CTRL < U16
    ensures var f := CreateFrame(Some(MultifmtCreate), ext, ch, ctl, payload, false, tail);
      CtrlFrame(f, ctl % SIPC_MULTIFMT_MOREBIT, ctl >= SIPC_MULTIFMT_MOREBIT) && CtrlPayload(f) == payload
  {
    var n := |payload| + SIPC5_HDR_LEN_CTRL;
    assert n % U16 == n;
    var h := [0xF9, ch] + PutLe16(n) + [ctl];
    assert |h| == SIPC5_HDR_LEN_CTRL && h[0] == 0xF9 && h[4] == ctl;
    var f := h + payload;
    assert CreateFrame(Some(MultifmtCreate), ext, ch, ctl, payload, false, tail) == f by {
      assert HdrCreateMultifmt(ext, ch, ctl, payload, false, tail) == Finish(h, payload, false, tail);
    }
    ParseCreateMultifmt(ch, ctl, payload, false, tail);
    CfgFlags();
    assert f[0] == 0xF9 && f[4] == ctl && ByteAt(f, 4) == ctl;
    assert f[SIPC5_HDR_LEN_CTRL..] == payload;
  }

  /** hdr_size after a frame with a CTRL header: SIPC5_HDR_LEN_CTRL when misc_write chooses it. */
  function CtrlHdrSize(cfg: WriteCfg, hdrSize: nat): nat
  {
    if cfg.headroom != 0 && !cfg.cdcNcm then SIPC5_HDR_LEN_CTRL else hdrSize
  }

  /** The clean multi-format rounds of a write of message id. */
  predicate MultifmtWrite(cfg: WriteCfg, data: seq<Byte>, env: WriteEnv, st: WriteState, id: nat)
  {
    && cfg.format == IpcFmt && cfg.ops.multifmtLength && cfg.ops.create == Some(MultifmtCreate)
    && !cfg.aligned && CfgValid(cfg) && cfg.multiLen < U16
    && cfg.multiLen < |data| < 0x8000_0000 && st.copied < |data| && st.counter >= -1 && 1 <= id <= SIPC_MULTIFMT_ID_MAX
    && ((st.copied == 0 && st.multifmt == 0 && NthId(st.counter + 1) == id) ||
        (st.copied > 0 && st.multifmt == Opening(id)))
    && Clean(env.main, st.k, |data| - st.copied)
  }

  /**
   * One clean round of a multi-format write: it sends a CTRL frame of
   * message id holding the next bytes, with MOREBIT exactly when bytes
   * remain, and goes on from there.
   */
  lemma {:induction false} MultifmtRound(cfg: WriteCfg, data: seq<Byte>, env: WriteEnv, st: WriteState, id: nat)
    returns (f: Skb, len: nat, st': WriteState)
    requires MultifmtWrite(cfg, data, env, st, id)
    ensures 1 <= len && st.copied + len <= |data| && CtrlPayload(f) == data[st.copied..st.copied + len]
    ensures CtrlFrame(f, id, st.copied + len < |data|)
    ensures st'.sent == st.sent + [Tx(f, false)] && st'.multifmt != 0
    ensures st'.counter == if st.multifmt == 0 then st.counter + 1 else st.counter
    ensures st.copied + len < |data| ==>
      && st'.copied == st.copied + len && MultifmtWrite(cfg, data, env, st', id)
      && WriteStep(cfg, Intended, data, env, st) == Continue(st')
    ensures st.copied + len == |data| ==>
      WriteStep(cfg, Intended, data, env, st) == Finished(WriteResult(|data|, st'.sent, st'.counter))
  {
    var s := NextStep(cfg, Intended, st.multifmt, st.counter, st.copied, |data|);
    len := s.frameLen;
    MultifmtStep(cfg, data, env, st, id);
    var payload := data[st.copied..st.copied + len];
    var hdrSize := CtrlHdrSize(cfg, st.hdrSize);
    var ext := hdrSize == SIPC5_HDR_LEN_EXT;
    CreatedCtrl(ext, cfg.ch, s.multifmt, payload, cfg.tail);
    f := CreateFrame(Some(MultifmtCreate), ext, cfg.ch, s.multifmt, payload, false, cfg.tail);
    st' := WriteState(s.multifmt, hdrSize, NextCounter(cfg, st.multifmt, st.counter, |data|), st.copied + len,
                      st.k + 1, st.sent + [Tx(f, false)]);
    MultifmtNext(cfg, data, env, st, id, st');
    CleanRoundIs(cfg, data, env, st, f, st');
  }

  /** Within a message, the state after a round is again one of its clean rounds. */
  lemma MultifmtNext(cfg: WriteCfg, data: seq<Byte>, env: WriteEnv, st: WriteState, id: nat, st': WriteState)
    requires MultifmtWrite(cfg, data, env, st, id)
    requires var s := NextStep(cfg, Intended, st.multifmt, st.counter, st.copied, |data|);
      && st'.multifmt == s.multifmt && st'.copied == st.copied + s.frameLen && st'.k == st.k + 1
      && st'.counter == NextCounter(cfg, st.multifmt, st.counter, |data|)
    ensures st'.copied < |data| ==> MultifmtWrite(cfg, data, env, st', id)
  {
    MultifmtStep(cfg, data, env, st, id);
  }

  /** CleanRound, for the frame f and the state st' a multi-format round produces. */
  lemma CleanRoundIs(cfg: WriteCfg, data: seq<Byte>, env: WriteEnv, st: WriteState, f: Skb, st': WriteState)
    requires StateValid(cfg, data, st)
    requires !AllocFails(env.main, st.k) && !CopyFails(env.main, st.k) && SendRet(env.main, st.k) >= 0
    requires var s := NextStep(cfg, Intended, st.multifmt, st.counter, st.copied, |data|);
      var hs := if cfg.headroom != 0 && !cfg.cdcNcm then HeaderSize(s.multifmt, s.frameLen) else st.hdrSize;
      && f == CreateFrame(cfg.ops.create, hs == SIPC5_HDR_LEN_EXT, cfg.ch, s.multifmt,
                          data[st.copied..st.copied + s.frameLen], cfg.aligned, cfg.tail)
      && st' == WriteState(s.multifmt, hs, NextCounter(cfg, st.multifmt, st.counter, |data|),
                           st.copied + s.frameLen, st.k + 1, st.sent + [Tx(f, false)])
    ensures WriteStep(cfg, Intended, data, env, st) ==
        if cfg.format == IpcFmt && st'.copied < |data| then Continue(st')
        else Finished(WriteResult(|data|, st'.sent, st'.counter))
  {
    CleanRound(cfg, Intended, data, env, st);
  }

  /** The length and multifmt of a frame of message id. */
  lemma MultifmtStep(cfg: WriteCfg, data: seq<Byte>, env: WriteEnv, st: WriteState, id: nat)
    requires MultifmtWrite(cfg, data, env, st, id)
    ensures var s := NextStep(cfg, Intended, st.multifmt, st.counter, st.copied, |data|);
      && 1 <= s.frameLen && st.copied + s.frameLen <= |data| && s.frameLen + SIPC5_HDR_LEN_CTRL < U16
      && s.multifmt != 0 && s.multifmt % SIPC_MULTIFMT_MOREBIT == id
      && (s.multifmt >= SIPC_MULTIFMT_MOREBIT <==> st.copied + s.frameLen < |data|)
      && (st.copied + s.frameLen < |data| ==> s.multifmt == Opening(id))
      && NextCounter(cfg, st.multifmt, st.counter, |data|) == (if st.multifmt == 0 then st.counter + 1 else st.counter)
      && !AllocFails(env.main, st.k) && !CopyFails(env.main, st.k) && SendRet(env.main, st.k) >= 0
  {
  }

  /** A round in which nothing fails sends its frame, then goes on or returns count. */
  lemma CleanRound(cfg: WriteCfg, rule: LengthRule, data: seq<Byte>, env: WriteEnv, st: WriteState)
    requires StateValid(cfg, data, st)
    requires !AllocFails(env.main, st.k) && !CopyFails(env.main, st.k) && SendRet(env.main, st.k) >= 0
    ensures var s := NextStep(cfg, rule, st.multifmt, st.counter, st.copied, |data|);
      var hs := if cfg.headroom != 0 && !cfg.cdcNcm then HeaderSize(s.multifmt, s.frameLen) else st.hdrSize;
      var f := CreateFrame(cfg.ops.create, hs == SIPC5_HDR_LEN_EXT, cfg.ch, s.multifmt,
                           data[st.copied..st.copied + s.frameLen], cfg.aligned, cfg.tail);
      var st' := WriteState(s.multifmt, hs, NextCounter(cfg, st.multifmt, st.counter, |data|), st.copied + s.frameLen,
                            st.k + 1, st.sent + [Tx(f, false)]);
      WriteStep(cfg, rule, data, env, st) ==
        if cfg.format == IpcFmt && st'.copied < |data| then Continue(st')
        else Finished(WriteResult(|data|, st'.sent, st'.counter))
  {
  }

  /**
   * A multi-format write on a clean link returns count, draws one id for
   * the message, and sends the frames of message id whose payloads spell
   * out the bytes from copied on.
   */
  lemma {:induction false} WriteMessage(cfg: WriteCfg, data: seq<Byte>, env: WriteEnv, st: WriteState, id: nat)
    requires MultifmtWrite(cfg, data, env, st, id)
    ensures var r := WriteFrom(cfg, Intended, data, env, st);
      && r.ret == |data| && st.sent <= r.sent
      && r.counter == (if st.multifmt == 0 then st.counter + 1 else st.counter)
      && Message(Frames(r.sent[|st.sent|..]), id)
      && CtrlPayloads(Frames(r.sent[|st.sent|..])) == data[st.copied..]
    decreases |data| - st.copied
  {
    var c := st.copied;
    var f, len, st' := MultifmtRound(cfg, data, env, st, id);
    SplitAt(data, c, c + len);
    if c + len < |data| {
      WriteMessage(cfg, data, env, st', id);
      MessageMore(cfg, data, env, st, id, f, len, st');
    } else {
      assert WriteFrom(cfg, Intended, data, env, st) == WriteResult(|data|, st'.sent, st'.counter);
      MessageCons(f, id, false, st.sent, st'.sent, data[c..c + len], [], data[c..]);
    }
  }

  /** The frames of a message: the first one, then those the rest of the write sends. */
  lemma {:induction false} MessageMore(cfg: WriteCfg, data: seq<Byte>, env: WriteEnv, st: WriteState, id: nat,
                                       f: Skb, len: nat, st': WriteState)
    requires StateValid(cfg, data, st) && StateValid(cfg, data, st')
    requires st.copied + len < |data| && st'.copied == st.copied + len
    requires CtrlFrame(f, id, true) && CtrlPayload(f) == data[st.copied..st.copied + len]
    requires st'.sent == st.sent + [Tx(f, false)] && WriteStep(cfg, Intended, data, env, st) == Continue(st')
    requires var r' := WriteFrom(cfg, Intended, data, env, st');
      && st'.sent <= r'.sent && Message(Frames(r'.sent[|st'.sent|..]), id)
      && CtrlPayloads(Frames(r'.sent[|st'.sent|..])) == data[st'.copied..]
    ensures var r := WriteFrom(cfg, Intended, data, env, st);
      && r == WriteFrom(cfg, Intended, data, env, st') && st.sent <= r.sent && Message(Frames(r.sent[|st.sent|..]), id)
      && CtrlPayloads(Frames(r.sent[|st.sent|..])) == data[st.copied..]
  {
    var c := st.copied;
    var r' := WriteFrom(cfg, Intended, data, env, st');
    SplitAt(data, c, c + len);
    assert |st'.sent| == |st.sent| + 1;
    MessageCons(f, id, true, st.sent, r'.sent, data[c..c + len], data[c + len..], data[c..]);
  }

  lemma SplitAt(s: seq<Byte>, i: nat, j: nat)
    requires i <= j <= |s|
    ensures s[i..] == s[i..j] + s[j..] && (j == |s| ==> s[j..] == [])
  {
  }

  /**
   * The frames sent after sent: the CTRL frame f followed, when more is
   * set, by the rest of its message.
   */
  lemma {:induction false} MessageCons(f: Skb, id: nat, more: bool, sent: seq<Tx>, total: seq<Tx>,
                                       payload: seq<Byte>, later: seq<Byte>, all: seq<Byte>)
    requires CtrlFrame(f, id, more) && CtrlPayload(f) == payload && all == payload + later
    requires sent + [Tx(f, false)] <= total
    requires more ==> Message(Frames(total[|sent| + 1..]), id) && CtrlPayloads(Frames(total[|sent| + 1..])) == later
    requires !more ==> total == sent + [Tx(f, false)] && later == []
    ensures sent <= total && Message(Frames(total[|sent|..]), id) && CtrlPayloads(Frames(total[|sent|..])) == all
  {
    var rest := total[|sent| + 1..];
    assert total[|sent|..] == [Tx(f, false)] + rest;
    FramesCons(Tx(f, false), rest);
    var fs := [f] + Frames(rest);
    assert fs[0] == f && fs[1..] == Frames(rest);
    if !more {
      assert rest == [];
    }
  }

  lemma FramesCons(t: Tx, txs: seq<Tx>)
    ensures Frames([t] + txs) == [t.data] + Frames(txs)
  {
    assert ([t] + txs)[1..] == txs;
  }

  /** The frames of a message, one by one, as the multi-format receive looks at them. */
  lemma {:induction false} MessageFramesAll(fs: seq<Skb>, id: nat)
    requires Message(fs, id)
    ensures forall i :: 0 <= i < |fs| ==> MessageFrame(fs, i, id)
    decreases |fs|
  {
    if |fs| > 1 {
      MessageFramesAll(fs[1..], id);
    }
    forall i | 0 <= i < |fs|
      ensures MessageFrame(fs, i, id)
    {
      if i > 0 {
        assert fs[1..][i - 1] == fs[i];
        assert MessageFrame(fs[1..], i - 1, id);
      }
    }
  }

  /**
   * A multi-format write read back: the frames a clean write of data
   * sends, handed one by one to the multi-format receive of a device
   * with nothing held under the message's id, land on its rx queue, and
   * a misc_read with room for the message returns data itself.
   */
  lemma {:induction false} WriteThenRead(cfg: WriteCfg, data: seq<Byte>, env: WriteEnv, counter: int, qs: Queues,
                                         count: nat, post: HeaderData)
    requires counter >= -1 && MultifmtWrite(cfg, data, env, Start(counter), NthId(counter + 1))
    requires |qs.multi| == SIPC_MULTIFMT_ID_MAX + 1 && qs.rx == [] && qs.multi[NthId(counter + 1)] == []
    requires HeaderValid(post) && |data| <= count < U32
    ensures var r := WriteFrom(cfg, Intended, data, env, Start(counter));
      var q := RecvMultifmtAll(qs, Frames(r.sent));
      && r.ret == |data| && r.counter == counter + 1
      && q == Queues(Frames(r.sent), qs.multi)
      && ReadLoop(HdrParseOp, MultifmtContinueOp, count, q.rx, post, [], [], 0) == ReadResult(|data|, data, false, [], post)
  {
    var id := NthId(counter + 1);
    WriteMessage(cfg, data, env, Start(counter), id);
    var r := WriteFrom(cfg, Intended, data, env, Start(counter));
    assert r.sent[0..] == r.sent && data[0..] == data;
    var fs := Frames(r.sent);
    MessageFramesAll(fs, id);
    MessageReleased(qs, id, fs);
    assert qs.multi[id := []] == qs.multi;
    assert qs.rx + qs.multi[id] + fs == fs;
    ReadMessage(count, fs, id, [], post, [], [], 0);
    assert fs + [] == fs && [] + data == data;
  }

  /**
   * misc_write as written, 195 bytes at multi_len 100: the second frame
   * goes out as a CTRL frame without MOREBIT, so the multi-format receive
   * ends the message there, while the write goes on to a third frame.
   */
  lemma MessageEndsEarly(cfg: WriteCfg, data: seq<Byte>, env: WriteEnv, st: WriteState, id: nat)
    requires MultifmtWrite(cfg, data, env, st, id)
    requires cfg.multiLen == 100 && |data| == 195 && st.copied == 95 && st.k == 1
    ensures match WriteStep(cfg, AsWritten, data, env, st)
      case Continue(st') => st'.copied == 190 && |st'.sent| == |st.sent| + 1 && CtrlFrame(st'.sent[|st.sent|].data, id, false)
      case Finished(_) => false
  {
    var s := NextStep(cfg, AsWritten, st.multifmt, st.counter, st.copied, |data|);
    assert s == Step(95, id);
    CleanRound(cfg, AsWritten, data, env, st);
    var hs := if cfg.headroom != 0 && !cfg.cdcNcm then HeaderSize(s.multifmt, s.frameLen) else st.hdrSize;
    CreatedCtrl(hs == SIPC5_HDR_LEN_EXT, cfg.ch, id, data[95..190], cfg.tail);
  }

  /**
   * A write on a plain SIPC5 device, on a clean first round, sends one
   * frame that names the channel and parses back to the data, with the
   * EXT header exactly when the data does not fit the 16-bit length.
   */
  lemma {:induction false} WriteSingleFrame(cfg: WriteCfg, rule: LengthRule, data: seq<Byte>, env: WriteEnv, counter: int)
    requires CfgValid(cfg) && counter >= -1 && !cfg.ops.multifmtLength && cfg.ops.create == Some(PlainCreate)
    requires cfg.headroom != 0 && !cfg.cdcNcm && |data| < 0x8000_0000
    requires !AllocFails(env.main, 0) && !CopyFails(env.main, 0) && SendRet(env.main, 0) >= 0
    ensures var r := WriteFrom(cfg, rule, data, env, Start(counter));
      && r.ret == |data| && r.counter == counter && |r.sent| == 1
      && var f := r.sent[0].data;
      && StartValid(f) && f[1] == cfg.ch && HdrParse(f).Parsed? && HdrParse(f).payload == data
      && (HasBit(f[0], SIPC5_HDR_EXT) <==> |data| > 0xFFFF - SIPC5_HDR_LEN_MAX)
  {
    var ext := HeaderSize(0, |data|) == SIPC5_HDR_LEN_EXT;
    HeaderSizeFits(|data|);
    ParseCreate(ext, cfg.ch, data, cfg.aligned, cfg.tail);
    CleanRound(cfg, rule, data, env, Start(counter));
    assert data[0..|data|] == data;
    var f := HdrCreate(ext, cfg.ch, data, cfg.aligned, cfg.tail);
    CfgFlags();
    assert f[0] == (if ext then 0xFA else 0xF8) + (if cfg.aligned then SIPC5_HDR_PAD else 0);
  }
}
