/**
 * Multi-format splitting of a write on an IPC_FMT device: each frame of a
 * message longer than the device's multi_len carries a CTRL byte with the
 * message id (1..127) and MOREBIT on every frame but the last.
 * sipc_hdr_multifmt_length decides how many payload bytes go into the next
 * frame and updates hdr->multifmt.
 */
module Sipc5Multifmt {
  import opened Sipc5Frame

  /** SIPC_MULTIFMT_ID_MAX */
  const SIPC_MULTIFMT_ID_MAX: nat := 127
  /** SIPC_MULTIFMT_MOREBIT */
  const SIPC_MULTIFMT_MOREBIT: nat := 0x80

  function Min(a: nat, b: nat): nat
  {
    if a <= b then a else b
  }

  /** v & ~SIPC_MULTIFMT_MOREBIT */
  function ClearMore(v: Byte): (r: Byte)
    ensures r < SIPC_MULTIFMT_MOREBIT
    ensures r % SIPC_MULTIFMT_MOREBIT == v % SIPC_MULTIFMT_MOREBIT
  {
    if v >= SIPC_MULTIFMT_MOREBIT then v - SIPC_MULTIFMT_MOREBIT else v
  }

  /** A new message's ctl byte: its id with MOREBIT. */
  function Opening(id: nat): (v: Byte)
    requires 1 <= id <= SIPC_MULTIFMT_ID_MAX
    ensures v >= SIPC_MULTIFMT_MOREBIT && v % SIPC_MULTIFMT_MOREBIT == id
  {
    id + SIPC_MULTIFMT_MOREBIT
  }

  /**
   * The atomic multifmt_id counter behind sipc_get_multifmt_id, starting at
   * -1; each message that needs an id takes the next one.
   */
  class MultifmtId {
    var counter: int

    ghost predicate Valid()
      reads this
    {
      counter >= -1
    }

    constructor ()
      ensures Valid() && counter == -1
    {
      counter := -1;
    }

    /** sipc_get_multifmt_id: ids run 1, 2, ..., 127, 1, ... */
    method Next() returns (id: nat)
      requires Valid()
      modifies this
      ensures Valid() && counter == old(counter) + 1
      ensures 1 <= id <= SIPC_MULTIFMT_ID_MAX
      ensures id == NthId(counter)
    {
      counter := counter + 1;
      id := counter % SIPC_MULTIFMT_ID_MAX + 1;
    }
  }

  /** The id the n-th increment of the counter yields (n from 0). */
  function NthId(n: nat): (id: nat)
    ensures 1 <= id <= SIPC_MULTIFMT_ID_MAX
  {
    n % SIPC_MULTIFMT_ID_MAX + 1
  }

  /** Consecutive messages get different ids (the counter cycles every 127 messages). */
  lemma {:induction false} IdsCycle(n: nat)
    ensures NthId(n + 1) != NthId(n)
    ensures NthId(n + SIPC_MULTIFMT_ID_MAX) == NthId(n)
  {
    var q, r := n / SIPC_MULTIFMT_ID_MAX, n % SIPC_MULTIFMT_ID_MAX;
    assert n == q * SIPC_MULTIFMT_ID_MAX + r;
    if r + 1 < SIPC_MULTIFMT_ID_MAX {
      assert n + 1 == q * SIPC_MULTIFMT_ID_MAX + (r + 1);
    } else {
      assert n + 1 == (q + 1) * SIPC_MULTIFMT_ID_MAX;
    }
    assert n + SIPC_MULTIFMT_ID_MAX == (q + 1) * SIPC_MULTIFMT_ID_MAX + r;
  }

  /** The next frame's payload length and the header's new multifmt value. */
  datatype Step = Step(frameLen: nat, multifmt: Byte)

  /** Whether sipc_hdr_multifmt_length will draw a new id for this call. */
  predicate NeedsId(isFmt: bool, multiLen: nat, multifmt: Byte, len: nat)
  {
    isFmt && len > multiLen && multifmt == 0
  }

  /**
   * sipc_hdr_multifmt_length as written, for a write of len bytes of which
   * copied are sent; id is the id sipc_get_multifmt_id would hand out.
   * MOREBIT is cleared when the frame takes all that remains BEFORE the
   * CTRL header's 5 bytes are deducted from a full-size frame, and the
   * deduction wraps as u32 arithmetic.
   */
  function LengthAsWritten(isFmt: bool, multiLen: nat, multifmt: Byte, id: nat, copied: nat, len: nat): (s: Step)
    requires copied <= len < U32 && 1 <= id <= SIPC_MULTIFMT_ID_MAX
    ensures !isFmt || len <= multiLen ==> s == Step(len, multifmt)
    ensures isFmt && len > multiLen ==>
      var f := Min(len - copied, multiLen);
      && s.frameLen == (if s.multifmt != 0 && f == multiLen then (f + U32 - SIPC5_HDR_LEN_CTRL) % U32 else f)
      && s.multifmt % SIPC_MULTIFMT_MOREBIT == (if multifmt == 0 then id else multifmt % SIPC_MULTIFMT_MOREBIT)
      && (s.multifmt >= SIPC_MULTIFMT_MOREBIT <==>
            len - copied > multiLen && (multifmt == 0 || multifmt >= SIPC_MULTIFMT_MOREBIT))
  {
    if !isFmt || len <= multiLen then Step(len, multifmt)
    else
      var remains := len - copied;
      var f := Min(remains, multiLen);
      var m := if multifmt == 0 then Opening(id) else multifmt;
      var m' := if f >= remains then ClearMore(m) else m;
      Step(if m' != 0 && f == multiLen then (f + U32 - SIPC5_HDR_LEN_CTRL) % U32 else f, m')
  }

  /**
   * sipc_hdr_multifmt_length as intended: a frame, header included, never
   * exceeds multi_len, and MOREBIT is cleared exactly on the frame that
   * carries the last byte.
   */
  function Length(isFmt: bool, multiLen: nat, multifmt: Byte, id: nat, copied: nat, len: nat): (s: Step)
    requires copied <= len && 1 <= id <= SIPC_MULTIFMT_ID_MAX && multiLen > SIPC5_HDR_LEN_CTRL
    ensures !isFmt || len <= multiLen ==> s == Step(len, multifmt)
    ensures isFmt && len > multiLen ==>
      && s.frameLen + SIPC5_HDR_LEN_CTRL <= multiLen && s.frameLen <= len - copied
      && (copied < len ==> 1 <= s.frameLen)
      && s.multifmt % SIPC_MULTIFMT_MOREBIT == (if multifmt == 0 then id else multifmt % SIPC_MULTIFMT_MOREBIT)
      && (s.multifmt >= SIPC_MULTIFMT_MOREBIT <==>
            copied + s.frameLen < len && (multifmt == 0 || multifmt >= SIPC_MULTIFMT_MOREBIT))
  {
    if !isFmt || len <= multiLen then Step(len, multifmt)
    else
      var remains := len - copied;
      var f := Min(remains, multiLen - SIPC5_HDR_LEN_CTRL);
      var m := if multifmt == 0 then Opening(id) else multifmt;
      Step(f, if f >= remains then ClearMore(m) else m)
  }

  /** Which frame length a write uses: the source's, or the intended one. */
  datatype LengthRule = AsWritten | Intended

  /**
   * The frame of sipc_hdr_multifmt_length under rule: under either rule a
   * long fmt message's frame takes at most what remains, at least one byte
   * while bytes remain, and keeps the message id.
   */
  function FrameLength(rule: LengthRule, isFmt: bool, multiLen: nat, multifmt: Byte, id: nat, copied: nat, len: nat)
    : (s: Step)
    requires copied <= len < U32 && 1 <= id <= SIPC_MULTIFMT_ID_MAX && multiLen > SIPC5_HDR_LEN_CTRL
    ensures !isFmt || len <= multiLen ==> s == Step(len, multifmt)
    ensures isFmt && len > multiLen ==>
      && s.frameLen <= len - copied && (copied < len ==> 1 <= s.frameLen)
      && s.multifmt % SIPC_MULTIFMT_MOREBIT == (if multifmt == 0 then id else multifmt % SIPC_MULTIFMT_MOREBIT)
  {
    match rule
    case AsWritten => LengthAsWritten(isFmt, multiLen, multifmt, id, copied, len)
    case Intended => Length(isFmt, multiLen, multifmt, id, copied, len)
  }

  /** One frame of a multi-format write: payload length and ctl byte. */
  datatype Frame = Frame(len: nat, ctl: Byte)

  function Total(fs: seq<Frame>): nat
  {
    if fs == [] then 0 else Total(fs[..|fs| - 1]) + fs[|fs| - 1].len
  }

  /**
   * The frames misc_write sends for a message of count > multi_len bytes
   * from copied on, with the intended frame length.  multifmt is the
   * header's value so far.
   */
  function Plan(multiLen: nat, id: nat, count: nat, copied: nat, multifmt: Byte): (fs: seq<Frame>)
    requires 1 <= id <= SIPC_MULTIFMT_ID_MAX && multiLen > SIPC5_HDR_LEN_CTRL
    requires copied < count && count > multiLen
    ensures 1 <= |fs| <= count - copied
    decreases count - copied
  {
    var s := Length(true, multiLen, multifmt, id, copied, count);
    if copied + s.frameLen == count then [Frame(s.frameLen, s.multifmt)]
    else [Frame(s.frameLen, s.multifmt)] + Plan(multiLen, id, count, copied + s.frameLen, s.multifmt)
  }

  /**
   * The frames of a multi-format write with the intended length: they add
   * up to the message, each fits multi_len with its CTRL header, each
   * carries the message id, and MOREBIT is set on all but the last.
   */
  lemma {:induction false} PlanFrames(multiLen: nat, id: nat, count: nat, copied: nat, multifmt: Byte)
    requires 1 <= id <= SIPC_MULTIFMT_ID_MAX && multiLen > SIPC5_HDR_LEN_CTRL
    requires copied < count && count > multiLen
    requires multifmt == 0 || multifmt == Opening(id)
    ensures var fs := Plan(multiLen, id, count, copied, multifmt);
      && |fs| >= 1 && copied + Total(fs) == count
      && (forall i :: 0 <= i < |fs| ==> 1 <= fs[i].len && fs[i].len + SIPC5_HDR_LEN_CTRL <= multiLen)
      && (forall i :: 0 <= i < |fs| ==> fs[i].ctl % SIPC_MULTIFMT_MOREBIT == id)
      && (forall i :: 0 <= i < |fs| ==> (fs[i].ctl >= SIPC_MULTIFMT_MOREBIT <==> i < |fs| - 1))
    decreases count - copied
  {
    var s := Length(true, multiLen, multifmt, id, copied, count);
    var fs := Plan(multiLen, id, count, copied, multifmt);
    if copied + s.frameLen < count {
      assert s.multifmt == Opening(id);
      var rest := Plan(multiLen, id, count, copied + s.frameLen, s.multifmt);
      PlanFrames(multiLen, id, count, copied + s.frameLen, s.multifmt);
      assert fs == [Frame(s.frameLen, s.multifmt)] + rest;
      FramesCons(Frame(s.frameLen, s.multifmt), rest, multiLen, id);
      TotalCons(Frame(s.frameLen, s.multifmt), rest);
    } else {
      assert fs == [Frame(s.frameLen, s.multifmt)];
      assert Total(fs) == Total([]) + s.frameLen;
    }
  }

  /** An opening frame in front of a well-formed plan keeps it well formed. */
  lemma FramesCons(f: Frame, rest: seq<Frame>, multiLen: nat, id: nat)
    requires 1 <= f.len && f.len + SIPC5_HDR_LEN_CTRL <= multiLen
    requires f.ctl % SIPC_MULTIFMT_MOREBIT == id && f.ctl >= SIPC_MULTIFMT_MOREBIT && |rest| >= 1
    requires forall i :: 0 <= i < |rest| ==> 1 <= rest[i].len && rest[i].len + SIPC5_HDR_LEN_CTRL <= multiLen
    requires forall i :: 0 <= i < |rest| ==> rest[i].ctl % SIPC_MULTIFMT_MOREBIT == id
    requires forall i :: 0 <= i < |rest| ==> (rest[i].ctl >= SIPC_MULTIFMT_MOREBIT <==> i < |rest| - 1)
    ensures var fs := [f] + rest;
      && (forall i :: 0 <= i < |fs| ==> 1 <= fs[i].len && fs[i].len + SIPC5_HDR_LEN_CTRL <= multiLen)
      && (forall i :: 0 <= i < |fs| ==> fs[i].ctl % SIPC_MULTIFMT_MOREBIT == id)
      && (forall i :: 0 <= i < |fs| ==> (fs[i].ctl >= SIPC_MULTIFMT_MOREBIT <==> i < |fs| - 1))
  {
    var fs := [f] + rest;
    assert forall i :: 1 <= i < |fs| ==> fs[i] == rest[i - 1];
  }

  lemma {:induction false} TotalCons(f: Frame, fs: seq<Frame>)
    ensures Total([f] + fs) == f.len + Total(fs)
    decreases |fs|
  {
    if fs == [] {
      assert [f] + fs == [f];
      assert Total([f]) == Total([]) + f.len;
    } else {
      var g := [f] + fs;
      assert g[..|g| - 1] == [f] + fs[..|fs| - 1];
      TotalCons(f, fs[..|fs| - 1]);
    }
  }

  /** The frames the source sends, with the frame length as written. */
  function PlanAsWritten(multiLen: nat, id: nat, count: nat, copied: nat, multifmt: Byte): (fs: seq<Frame>)
    requires 1 <= id <= SIPC_MULTIFMT_ID_MAX && multiLen > SIPC5_HDR_LEN_CTRL
    requires copied < count < U32 && count > multiLen
    ensures 1 <= |fs| <= count - copied
    decreases count - copied
  {
    var s := LengthAsWritten(true, multiLen, multifmt, id, copied, count);
    if s.frameLen == 0 || copied + s.frameLen >= count then [Frame(s.frameLen, s.multifmt)]
    else [Frame(s.frameLen, s.multifmt)] + PlanAsWritten(multiLen, id, count, copied + s.frameLen, s.multifmt)
  }

  /**
   * A 195-byte message with multi_len 100: MOREBIT is already cleared on the
   * second frame, whose deduction then leaves 5 bytes for a third frame;
   * the receiver ends the message after the second frame.
   */
  lemma MoreBitClearedEarly()
    ensures PlanAsWritten(100, 1, 195, 0, 0) == [Frame(95, 0x81), Frame(95, 1), Frame(5, 1)]
    ensures Plan(100, 1, 195, 0, 0) == [Frame(95, 0x81), Frame(95, 0x81), Frame(5, 1)]
  {
    assert LengthAsWritten(true, 100, 0, 1, 0, 195) == Step(95, 0x81);
    assert LengthAsWritten(true, 100, 0x81, 1, 95, 195) == Step(95, 1);
    assert LengthAsWritten(true, 100, 1, 1, 190, 195) == Step(5, 1);
    assert PlanAsWritten(100, 1, 195, 190, 1) == [Frame(5, 1)];
    assert PlanAsWritten(100, 1, 195, 95, 0x81) == [Frame(95, 1), Frame(5, 1)];
    assert Length(true, 100, 0, 1, 0, 195) == Step(95, 0x81);
    assert Length(true, 100, 0x81, 1, 95, 195) == Step(95, 0x81);
    assert Length(true, 100, 0x81, 1, 190, 195) == Step(5, 1);
    assert Plan(100, 1, 195, 190, 0x81) == [Frame(5, 1)];
    assert Plan(100, 1, 195, 95, 0x81) == [Frame(95, 0x81), Frame(5, 1)];
  }

  /**
   * A 192-byte message with multi_len 100: the final 97 bytes are not
   * deducted, so that frame is 97 + 5 = 102 bytes, over multi_len.
   */
  lemma FinalFrameOversize()
    ensures PlanAsWritten(100, 1, 192, 0, 0) == [Frame(95, 0x81), Frame(97, 1)]
    ensures PlanAsWritten(100, 1, 192, 0, 0)[1].len + SIPC5_HDR_LEN_CTRL > 100
  {
    assert LengthAsWritten(true, 100, 0, 1, 0, 192) == Step(95, 0x81);
    assert LengthAsWritten(true, 100, 0x81, 1, 95, 192) == Step(97, 1);
    assert PlanAsWritten(100, 1, 192, 95, 0x81) == [Frame(97, 1)];
  }

  /**
   * The header struct misc_write keeps across the frames of one write:
   * hdr->multifmt and the header size chosen for the current frame.
   */
  class SipcHdr {
    var multifmt: Byte
    var hdrSize: nat

    constructor ()
      ensures multifmt == 0 && hdrSize == 0
    {
      multifmt, hdrSize := 0, 0;
    }
  }

  /**
   * sipc_hdr_multifmt_length, for either rule: its frame never takes more
   * than remains, takes at least one byte while bytes remain, and keeps
   * the message id; ids passes a new id only for the first frame of a
   * long message.
   */
  method MultifmtLength(ids: MultifmtId, hdr: SipcHdr, rule: LengthRule, isFmt: bool, multiLen: nat,
                        copied: nat, len: nat)
    returns (frameLen: nat)
    requires ids.Valid() && copied <= len < U32 && multiLen > SIPC5_HDR_LEN_CTRL
    modifies ids, hdr`multifmt
    ensures ids.Valid()
    ensures ids.counter == old(ids.counter) + (if NeedsId(isFmt, multiLen, old(hdr.multifmt), len) then 1 else 0)
    ensures var s := FrameLength(rule, isFmt, multiLen, old(hdr.multifmt), NthId(old(ids.counter) + 1), copied, len);
      frameLen == s.frameLen && hdr.multifmt == s.multifmt
  {
    var id := NthId(ids.counter + 1);
    if NeedsId(isFmt, multiLen, hdr.multifmt, len) {
      id := ids.Next();
    }
    var s := FrameLength(rule, isFmt, multiLen, hdr.multifmt, id, copied, len);
    frameLen := s.frameLen;
    hdr.multifmt := s.multifmt;
  }
}
