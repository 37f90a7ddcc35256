/**
 * Receive side of the SIPC5 link: cutting a buffer from the link into
 * frames (sipc5_recv_multipacket_to_each_skb) with the reassembly state of
 * struct header_data, and the fragment-aware header parsers an io device
 * applies to the buffers on its own queue.
 *
 * sipc5_recv_demux is modelled over the set of channels that have an io
 * device; the receiving device is assumed to accept every buffer it is
 * given, and its success value is taken as 0.
 */
module Sipc5Rx {
  import opened Wrappers
  import opened Sipc5Frame

  const EINVAL: int := 22

  /** Bytes of the RFS length header the legacy RFS parser puts back. */
  const RFS_HDR_LEN: nat := 4

  // ---------------------------------------------------------------------
  // Reassembly state
  // ---------------------------------------------------------------------

  /**
   * struct header_data: a copy of the current frame's header, its length
   * field and how many of its bytes have arrived (0: no frame pending).
   */
  datatype HeaderData = HeaderData(hdr: seq<Byte>, len: nat, fragLen: nat)

  predicate HeaderValid(h: HeaderData)
  {
    |h.hdr| == SIPC5_HDR_LEN_MAX && h.len < U32 && h.fragLen < U32
  }

  function Zeros(n: nat): (z: seq<Byte>)
    ensures |z| == n
    ensures forall i :: 0 <= i < n ==> z[i] == 0
  {
    seq(n, i => 0)
  }

  /** A header_data after memset(hdr, 0, sizeof(struct header_data)). */
  function Cleared(): (h: HeaderData)
    ensures HeaderValid(h) && h.len == 0 && h.fragLen == 0 && h.hdr[1] == 0
  {
    HeaderData(Zeros(SIPC5_HDR_LEN_MAX), 0, 0)
  }

  /** memcpy(dst + at, src, |src|) */
  function Overwrite(dst: seq<Byte>, at: nat, src: seq<Byte>): (r: seq<Byte>)
    requires at + |src| <= |dst|
    ensures |r| == |dst| && r[at..at + |src|] == src
    ensures r[..at] == dst[..at] && r[at + |src|..] == dst[at + |src|..]
  {
    dst[..at] + src + dst[at + |src|..]
  }

  /** The n bytes a memcpy from the start of b reads (0 past its end). */
  function Prefix(b: seq<Byte>, n: nat): (p: seq<Byte>)
    ensures |p| == n && (n <= |b| ==> p == b[..n])
  {
    if n <= |b| then b[..n] else b + Zeros(n - |b|)
  }

  /** Trailing bytes shorter than a header: kept in hdr until more arrive. */
  function Carry(st: HeaderData, rest: seq<Byte>): (c: HeaderData)
    requires HeaderValid(st) && |rest| <= SIPC5_HDR_LEN_MAX
    ensures HeaderValid(c) && c.fragLen == |rest| && c.len == st.len
    ensures c.hdr[..|rest|] == rest
  {
    st.(hdr := Overwrite(st.hdr, 0, rest), fragLen := |rest|)
  }

  // ---------------------------------------------------------------------
  // Demultiplexing
  // ---------------------------------------------------------------------

  /**
   * A buffer handed to recv_demux: tag is the channel byte of the saved
   * header, which get_frag_iod looks an io device up for; data are the
   * bytes of the buffer.
   */
  datatype Delivery = Delivery(tag: Byte, data: seq<Byte>)

  /**
   * sipc5_recv_demux, over the channels iods that have an io device: the
   * device get_frag_iod found, else the one for the buffer's channel byte;
   * None is -EINVAL.
   */
  function Demux(iods: set<Byte>, d: Delivery): (r: Option<Byte>)
    ensures r.Some? ==> r.value in iods
    ensures r.None? <==> d.tag !in iods && ByteAt(d.data, 1) !in iods
  {
    if d.tag in iods then Some(d.tag)
    else if ByteAt(d.data, 1) in iods then Some(ByteAt(d.data, 1))
    else None
  }

  // ---------------------------------------------------------------------
  // Multipacket split
  // ---------------------------------------------------------------------

  /** The return value, the buffers demultiplexed in order, and the state left behind. */
  datatype Outcome = Outcome(ret: int, out: seq<Delivery>, st: HeaderData)

  /** send_next_stage for a buffer after which nothing is left of the input. */
  function Deliver(st: HeaderData, d: Delivery, iods: set<Byte>, out: seq<Delivery>): (o: Outcome)
  {
    if Demux(iods, d).None? then Outcome(-EINVAL, out, st) else Outcome(0, out + [d], st)
  }

  /**
   * next_frame: cut the frame at the front of input and go on with what
   * follows.  A length field shorter than the frame's own header is
   * refused with -EBADMSG (the source lacks this check; see
   * NextFrameAsWritten).  A frame longer than the input is saved as the
   * pending fragment.  st is the header_data, which a complete frame does
   * not update; its channel byte still tags the buffer.
   */
  function Scan(st: HeaderData, input: seq<Byte>, iods: set<Byte>, out: seq<Delivery>): (o: Outcome)
    requires HeaderValid(st) && |input| < U32
    ensures HeaderValid(o.st)
    decreases |input|, 0
  {
    if !StartValid(input) then Outcome(-EBADMSG, out, st)
    else
      var hl := HdrLen(input[0]);
      var pl := PacketLen(input);
      if pl < hl then Outcome(-EBADMSG, out, st)
      else if |input| < pl then
        var saved := HeaderData(Overwrite(Zeros(SIPC5_HDR_LEN_MAX), 0, Prefix(input, hl)), pl, |input|);
        Deliver(saved, Delivery(saved.hdr[1], input), iods, out)
      else
        var d := Delivery(st.hdr[1], input[..pl]);
        if Demux(iods, d).None? then Outcome(-EINVAL, out, st)
        else Trailing(st, input[pl..], iods, out + [d])
  }

  /**
   * After a buffer went out: stop when the input is used up, keep a tail
   * shorter than the header its first byte announces, else next_frame.
   */
  function Trailing(st: HeaderData, rest: seq<Byte>, iods: set<Byte>, out: seq<Delivery>): (o: Outcome)
    requires HeaderValid(st) && |rest| < U32
    ensures HeaderValid(o.st)
    decreases |rest|, 1
  {
    if rest == [] then Outcome(0, out, st)
    else if |rest| < HdrLen(rest[0]) then Outcome(0, out, Carry(st, rest))
    else Scan(st, rest, iods, out)
  }

  /**
   * The pending frame whose header is complete: rest_len more bytes are
   * due (u32 arithmetic).  None due: clear and go to next_frame.  Input
   * shorter than that: all of it is one more fragment; otherwise the
   * frame's last part is cut off and the state cleared.
   */
  function RestOf(st: HeaderData, input: seq<Byte>, iods: set<Byte>, out: seq<Delivery>): (o: Outcome)
    requires HeaderValid(st) && |input| < U32
    ensures HeaderValid(o.st)
  {
    var restLen := (st.len + U32 - st.fragLen) % U32;
    if restLen == 0 then Scan(Cleared(), input, iods, out)
    else if |input| < restLen then
      Deliver(st.(fragLen := (st.fragLen + |input|) % U32), Delivery(st.hdr[1], input), iods, out)
    else
      var d := Delivery(st.hdr[1], input[..restLen]);
      if Demux(iods, d).None? then Outcome(-EINVAL, out, Cleared())
      else Trailing(Cleared(), input[restLen..], iods, out + [d])
  }

  /**
   * A pending frame: finish its header first when only part of it
   * arrived (-EINVAL if the input cannot), sending the completed header
   * on its own; then go on with the rest of the frame.
   */
  function Resume(st: HeaderData, input: seq<Byte>, iods: set<Byte>): (o: Outcome)
    requires HeaderValid(st) && st.fragLen != 0 && |input| < U32
    ensures HeaderValid(o.st)
  {
    var hl := HdrLen(st.hdr[0]);
    if st.fragLen < hl then
      var temp := hl - st.fragLen;
      if |input| < temp then Outcome(-EINVAL, [], st)
      else
        var h := Overwrite(st.hdr, st.fragLen, input[..temp]);
        var st1 := HeaderData(h, PacketLen(h), hl);
        var d := Delivery(h[1], h[..hl]);
        if Demux(iods, d).None? then Outcome(-EINVAL, [], st1)
        else RestOf(st1, input[temp..], iods, [d])
    else RestOf(st, input, iods, [])
  }

  /** sipc5_recv_multipacket_to_each_skb on state st and link buffer input. */
  function Recv(st: HeaderData, input: seq<Byte>, iods: set<Byte>): (o: Outcome)
    requires HeaderValid(st) && |input| < U32
    ensures HeaderValid(o.st)
  {
    if st.fragLen == 0 then Scan(st, input, iods, []) else Resume(st, input, iods)
  }

  /** Where the split goes on from: next_frame (0), the trailing check (1), or done (2). */
  function Continue(phase: nat, st: HeaderData, rest: seq<Byte>, iods: set<Byte>, out: seq<Delivery>, ret: int): Outcome
    requires HeaderValid(st) && |rest| < U32
  {
    if phase == 0 then Scan(st, rest, iods, out)
    else if phase == 1 then Trailing(st, rest, iods, out)
    else Outcome(ret, out, st)
  }

  /** One pass of next_frame. */
  method NextFrame(st: HeaderData, input: seq<Byte>, iods: set<Byte>, out: seq<Delivery>)
    returns (phase: nat, st': HeaderData, rest: seq<Byte>, out': seq<Delivery>, ret: int)
    requires HeaderValid(st) && |input| < U32
    ensures HeaderValid(st') && |rest| < U32 && (phase == 1 || phase == 2)
    ensures phase == 1 ==> |rest| < |input|
    ensures phase == 2 ==> rest == input
    ensures Continue(phase, st', rest, iods, out', ret) == Scan(st, input, iods, out)
  {
    phase, st', rest, out', ret := 2, st, input, out, 0;
    if !StartValid(input) {
      ret := -EBADMSG;
      return;
    }
    var hl := HdrLen(input[0]);
    var pl := PacketLen(input);
    if pl < hl {
      ret := -EBADMSG;
    } else if |input| < pl {
      st' := HeaderData(Overwrite(Zeros(SIPC5_HDR_LEN_MAX), 0, Prefix(input, hl)), pl, |input|);
      var d := Delivery(st'.hdr[1], input);
      if Demux(iods, d).None? {
        ret := -EINVAL;
      } else {
        out' := out + [d];
      }
    } else {
      var d := Delivery(st.hdr[1], input[..pl]);
      if Demux(iods, d).None? {
        ret := -EINVAL;
      } else {
        phase, rest, out' := 1, input[pl..], out + [d];
      }
    }
  }

  /** The check after send_next_stage. */
  method AfterSend(st: HeaderData, rest: seq<Byte>, iods: set<Byte>, out: seq<Delivery>)
    returns (phase: nat, st': HeaderData)
    requires HeaderValid(st) && |rest| < U32
    ensures HeaderValid(st') && (phase == 0 || phase == 2)
    ensures phase == 0 ==> st' == st
    ensures Continue(phase, st', rest, iods, out, 0) == Trailing(st, rest, iods, out)
  {
    phase, st' := 2, st;
    if rest != [] {
      if |rest| < HdrLen(rest[0]) {
        st' := Carry(st, rest);
      } else {
        phase := 0;
      }
    }
  }

  /** The pending-frame part, up to where next_frame or the trailing check takes over. */
  method ResumeFrame(st: HeaderData, input: seq<Byte>, iods: set<Byte>)
    returns (phase: nat, st': HeaderData, rest: seq<Byte>, out: seq<Delivery>, ret: int)
    requires HeaderValid(st) && st.fragLen != 0 && |input| < U32
    ensures HeaderValid(st') && |rest| < U32 && phase <= 2
    ensures Continue(phase, st', rest, iods, out, ret) == Resume(st, input, iods)
  {
    phase, st', rest, out, ret := 2, st, input, [], 0;
    var hl := HdrLen(st.hdr[0]);
    if st.fragLen < hl {
      var temp := hl - st.fragLen;
      if |input| < temp {
        ret := -EINVAL;
        return;
      }
      var h := Overwrite(st.hdr, st.fragLen, input[..temp]);
      st' := HeaderData(h, PacketLen(h), hl);
      rest := input[temp..];
      var d := Delivery(h[1], h[..hl]);
      if Demux(iods, d).None? {
        ret := -EINVAL;
        return;
      }
      out := [d];
    }
    phase, st', rest, out, ret := RestStep(st', rest, iods, out);
  }

  /** "rest fragment length" onwards. */
  method RestStep(st: HeaderData, input: seq<Byte>, iods: set<Byte>, out: seq<Delivery>)
    returns (phase: nat, st': HeaderData, rest: seq<Byte>, out': seq<Delivery>, ret: int)
    requires HeaderValid(st) && |input| < U32
    ensures HeaderValid(st') && |rest| < U32 && phase <= 2
    ensures Continue(phase, st', rest, iods, out', ret) == RestOf(st, input, iods, out)
  {
    var restLen := (st.len + U32 - st.fragLen) % U32;
    phase, st', rest, out', ret := 2, st, input, out, 0;
    if restLen == 0 {
      phase, st' := 0, Cleared();
    } else if |input| < restLen {
      st' := st.(fragLen := (st.fragLen + |input|) % U32);
      var d := Delivery(st.hdr[1], input);
      if Demux(iods, d).None? {
        ret := -EINVAL;
      } else {
        out' := out + [d];
      }
    } else {
      st' := Cleared();
      var d := Delivery(st.hdr[1], input[..restLen]);
      if Demux(iods, d).None? {
        ret := -EINVAL;
      } else {
        phase, rest, out' := 1, input[restLen..], out + [d];
      }
    }
  }

  // ---------------------------------------------------------------------
  // Header parsers of the io device (state h_post)
  // ---------------------------------------------------------------------

  /**
   * What a header parser leaves: its return value, the buffer, the header
   * bytes skbpriv(skb)->sipch now points at (None: not set by this parse)
   * and the new state.
   */
  datatype PostParse = PostParse(ret: int, skb: seq<Byte>, sipch: Option<seq<Byte>>, st: HeaderData)

  /** sipc5_hdr_parse as the parsers below use it. */
  function PlainParse(st: HeaderData, skb: seq<Byte>): (p: PostParse)
    ensures p.st == st
    ensures p.ret == 0 <==> StartValid(skb)
    ensures p.ret != 0 ==> p.skb == skb && p.sipch.None?
  {
    match HdrParse(skb)
    case BadMsg => PostParse(-EBADMSG, skb, None, st)
    case Parsed(sipch, payload) => PostParse(0, payload, Some(sipch), st)
  }

  /**
   * sipc5_hdr_parse_fragment: a buffer that continues a pending frame is
   * left alone; a new frame is parsed and its header, length and header
   * length recorded.
   */
  function ParseFragment(st: HeaderData, skb: seq<Byte>): (p: PostParse)
    requires HeaderValid(st)
    ensures HeaderValid(p.st)
    ensures st.fragLen != 0 ==> p == PostParse(0, skb, None, st)
    ensures st.fragLen == 0 && !StartValid(skb) ==> p == PostParse(-EBADMSG, skb, None, st)
    ensures st.fragLen == 0 && StartValid(skb) ==>
      && p.ret == 0 && p.sipch.Some?
      && p.st.len == PacketLen(p.sipch.value)
      && p.st.fragLen == HdrLen(ByteAt(p.sipch.value, 0))
      && p.st.hdr[..p.st.fragLen] == Prefix(p.sipch.value, p.st.fragLen)
  {
    if st.fragLen != 0 then PostParse(0, skb, None, st)
    else
      var p := PlainParse(st, skb);
      if p.ret < 0 then p
      else
        var sipch := p.sipch.value;
        var hl := HdrLen(ByteAt(sipch, 0));
        p.(st := HeaderData(Overwrite(st.hdr, 0, Prefix(sipch, hl)), PacketLen(sipch), hl))
  }

  /** What a header_parse_continue returns (1: more of this message follows) and whether it hit the framing panic. */
  datatype Cont = Cont(status: int, fatal: bool, st: HeaderData)

  /**
   * sipc5_hdr_parse_fragment_continue: size more bytes of the pending frame
   * were read (u32 arithmetic).
   */
  function FragmentContinue(st: HeaderData, size: nat): (c: Cont)
    requires HeaderValid(st) && size < U32
    ensures HeaderValid(c.st) && c.st.len == st.len && c.st.hdr == st.hdr
    ensures c.status == 0 || c.status == 1
    ensures c.status == 0 <==> (st.fragLen + size) % U32 == st.len
    ensures c.status == 0 ==> c.st.fragLen == 0 && !c.fatal
    ensures c.status == 1 ==> c.st.fragLen == (st.fragLen + size) % U32
    ensures c.fatal <==> st.len < (st.fragLen + size) % U32
  {
    var f := (st.fragLen + size) % U32;
    if st.len == f then Cont(0, false, st.(fragLen := 0))
    else Cont(1, st.len < f, st.(fragLen := f))
  }

  /**
   * sipc5_hdr_parse_legacy_rfs: as sipc5_hdr_parse_fragment, then the
   * 4-byte RFS length (packet length plus 4 minus the SIPC5 header,
   * little-endian u32) is pushed back in front of the payload and counted
   * in the frame length.
   */
  function ParseLegacyRfs(st: HeaderData, skb: seq<Byte>): (p: PostParse)
    requires HeaderValid(st)
    ensures HeaderValid(p.st)
    ensures st.fragLen != 0 ==> p == PostParse(0, skb, None, st)
    ensures p.ret == 0 <==> st.fragLen != 0 || StartValid(skb)
  {
    if st.fragLen != 0 then PostParse(0, skb, None, st)
    else
      var p := ParseFragment(st, skb);
      if p.ret != 0 then p else RfsPush(p)
  }

  /** The RFS length header put in front of the payload a fragment parse left. */
  function RfsPush(p: PostParse): (q: PostParse)
    requires HeaderValid(p.st)
    ensures HeaderValid(q.st) && q.ret == p.ret
  {
    var rfsLen := (p.st.len + RFS_HDR_LEN + U32 - HdrLen(p.st.hdr[0])) % U32;
    p.(skb := PutLe32(rfsLen) + p.skb, st := p.st.(len := (p.st.len + RFS_HDR_LEN) % U32))
  }

  /**
   * sipc5_hdr_parse_legacy_rfs_continue: as the fragment variant, but it
   * always returns 0.
   */
  function LegacyRfsContinue(st: HeaderData, size: nat): (c: Cont)
    requires HeaderValid(st) && size < U32
    ensures HeaderValid(c.st) && c.status == 0 && c.st.len == st.len && c.st.hdr == st.hdr
    ensures c.st.fragLen == (if (st.fragLen + size) % U32 == st.len then 0 else (st.fragLen + size) % U32)
    ensures c.fatal <==> st.len < c.st.fragLen
  {
    var f := (st.fragLen + size) % U32;
    var st' := if st.len == f then st.(fragLen := 0) else st.(fragLen := f);
    Cont(0, st.len < st'.fragLen, st')
  }

  /** The header_parse op an io device was given. */
  datatype ParseOp = HdrParseOp | FragmentParseOp | LegacyRfsParseOp

  /** The header_parse_continue op, if any. */
  datatype ContinueOp = NoContinueOp | MultifmtContinueOp | FragmentContinueOp | LegacyRfsContinueOp

  function HeaderParse(op: ParseOp, st: HeaderData, skb: seq<Byte>): (p: PostParse)
    requires HeaderValid(st)
    ensures HeaderValid(p.st)
  {
    match op
    case HdrParseOp => PlainParse(st, skb)
    case FragmentParseOp => ParseFragment(st, skb)
    case LegacyRfsParseOp => ParseLegacyRfs(st, skb)
  }

  /** header_parse_continue after size bytes were read; NoContinueOp leaves status unchanged. */
  function ParseContinue(op: ContinueOp, st: HeaderData, sipch: seq<Byte>, size: nat, status: int): (c: Cont)
    requires HeaderValid(st) && size < U32
    ensures HeaderValid(c.st)
  {
    match op
    case NoContinueOp => Cont(status, false, st)
    case MultifmtContinueOp => Cont(MultifmtContinue(sipch), false, st)
    case FragmentContinueOp => FragmentContinue(st, size)
    case LegacyRfsContinueOp => LegacyRfsContinue(st, size)
  }

  // ---------------------------------------------------------------------
  // The per-link fragment state
  // ---------------------------------------------------------------------

  /** struct fragdata: h_data for the multipacket split, h_post for the parsers. */
  class FragData {
    var data: HeaderData
    var post: HeaderData

    ghost predicate Valid()
      reads this
    {
      HeaderValid(data) && HeaderValid(post)
    }

    constructor ()
      ensures Valid() && data == Cleared() && post == Cleared()
    {
      data, post := Cleared(), Cleared();
    }

    /** sipc5_recv_multipacket_to_each_skb */
    method RecvMultipacket(input: seq<Byte>, iods: set<Byte>) returns (ret: int, out: seq<Delivery>)
      requires Valid() && |input| < U32
      modifies this`data
      ensures Valid() && Outcome(ret, out, data) == Recv(old(data), input, iods)
    {
      ghost var goal := Recv(data, input, iods);
      var phase: nat, st, rest := 0, data, input;
      out, ret := [], 0;
      if st.fragLen != 0 {
        phase, st, rest, out, ret := ResumeFrame(st, input, iods);
      }
      while phase != 2
        invariant HeaderValid(st) && |rest| < U32 && phase <= 2
        invariant Continue(phase, st, rest, iods, out, ret) == goal
        decreases |rest|, if phase == 1 then 2 else if phase == 0 then 1 else 0
      {
        if phase == 0 {
          phase, st, rest, out, ret := NextFrame(st, rest, iods, out);
        } else {
          phase, st := AfterSend(st, rest, iods, out);
          ret := 0;
        }
      }
      data := st;
    }

    /** iod->ops.header_parse on h_post. */
    method Parse(op: ParseOp, skb: seq<Byte>) returns (ret: int, skb': seq<Byte>, sipch: Option<seq<Byte>>)
      requires Valid()
      modifies this`post
      ensures Valid() && PostParse(ret, skb', sipch, post) == HeaderParse(op, old(post), skb)
    {
      var p := HeaderParse(op, post, skb);
      ret, skb', sipch, post := p.ret, p.skb, p.sipch, p.st;
    }

    /** iod->ops.header_parse_continue on h_post. */
    method ParseCont(op: ContinueOp, sipch: seq<Byte>, size: nat, status: int) returns (status': int, fatal: bool)
      requires Valid() && size < U32
      modifies this`post
      ensures Valid() && Cont(status', fatal, post) == ParseContinue(op, old(post), sipch, size, status)
    {
      var c := ParseContinue(op, post, sipch, size, status);
      status', fatal, post := c.status, c.fatal, c.st;
    }
  }

  // ---------------------------------------------------------------------
  // Properties of the split
  // ---------------------------------------------------------------------

  /** A frame as sipc5_hdr_create makes it on an unaligned link. */
  predicate WellFormed(f: seq<Byte>)
  {
    StartValid(f) && HdrLen(f[0]) <= PacketLen(f) == |f|
  }

  function Concat(fs: seq<seq<Byte>>): seq<Byte>
  {
    if fs == [] then [] else fs[0] + Concat(fs[1..])
  }

  /** Every frame of fs is well-formed and names a channel that has an io device. */
  predicate FramesOn(fs: seq<seq<Byte>>, iods: set<Byte>)
    decreases |fs|
  {
    fs != [] ==> WellFormed(fs[0]) && fs[0][1] in iods && FramesOn(fs[1..], iods)
  }

  lemma {:induction false} FramesOnAll(fs: seq<seq<Byte>>, iods: set<Byte>)
    requires forall i :: 0 <= i < |fs| ==> WellFormed(fs[i]) && fs[i][1] in iods
    ensures FramesOn(fs, iods)
    decreases |fs|
  {
    if fs != [] {
      forall i | 0 <= i < |fs[1..]|
        ensures WellFormed(fs[1..][i]) && fs[1..][i][1] in iods
      {
        assert fs[1..][i] == fs[i + 1];
      }
      FramesOnAll(fs[1..], iods);
    }
  }

  /** The buffers a run of frames becomes, each tagged with the channel byte tag. */
  function Tagged(tag: Byte, fs: seq<seq<Byte>>): (ds: seq<Delivery>)
    ensures |ds| == |fs|
    ensures forall i :: 0 <= i < |fs| ==> ds[i] == Delivery(tag, fs[i])
  {
    seq(|fs|, i requires 0 <= i < |fs| => Delivery(tag, fs[i]))
  }

  /** The length field and header length of a frame are read from its first bytes only. */
  lemma {:induction false} HeaderOfPrefix(f: seq<Byte>, r: seq<Byte>)
    requires |f| >= 1 && |f| >= HdrLen(f[0])
    ensures (f + r)[0] == f[0] && ByteAt(f + r, 1) == ByteAt(f, 1)
    ensures StartValid(f + r) == StartValid(f) && PacketLen(f + r) == PacketLen(f)
  {
    var g := f + r;
    assert forall i :: 0 <= i < |f| ==> g[i] == f[i];
    assert ByteAt(g, 0) == ByteAt(f, 0);
    if HasBit(f[0], SIPC5_HDR_EXT) {
      assert |f| >= 6;
      assert Le32(g, 2) == Le32(f, 2) by {
        assert ByteAt(g, 2) == ByteAt(f, 2) && ByteAt(g, 3) == ByteAt(f, 3);
        assert ByteAt(g, 4) == ByteAt(f, 4) && ByteAt(g, 5) == ByteAt(f, 5);
      }
    } else {
      assert |f| >= 4;
      assert ByteAt(g, 2) == ByteAt(f, 2) && ByteAt(g, 3) == ByteAt(f, 3);
    }
  }

  /**
   * Splitting well-formed frames laid end to end gives back each frame,
   * in order, as one buffer routed to the frame's own channel, and leaves
   * the state as it was (the zero state after a reset).
   */
  lemma {:induction false} SplitFrames(st: HeaderData, fs: seq<seq<Byte>>, iods: set<Byte>, out: seq<Delivery>)
    requires HeaderValid(st) && |Concat(fs)| < U32 && fs != []
    requires FramesOn(fs, iods) && st.hdr[1] !in iods
    ensures Scan(st, Concat(fs), iods, out) == Outcome(0, out + Tagged(st.hdr[1], fs), st)
  {
    assert Concat(fs) + [] == Concat(fs);
    SplitThen(st, fs, [], iods, out);
  }

  /** The same with input t after the frames: the split then goes on with t. */
  lemma {:induction false} SplitThen(st: HeaderData, fs: seq<seq<Byte>>, t: seq<Byte>, iods: set<Byte>, out: seq<Delivery>)
    requires HeaderValid(st) && |Concat(fs)| + |t| < U32 && fs != []
    requires FramesOn(fs, iods) && st.hdr[1] !in iods
    ensures Scan(st, Concat(fs) + t, iods, out) == Trailing(st, t, iods, out + Tagged(st.hdr[1], fs))
    decreases |fs|
  {
    var d := Delivery(st.hdr[1], fs[0]);
    if |fs| == 1 {
      assert Concat(fs) + t == fs[0] + t;
      FrontFrame(st, fs[0], t, iods, out);
      assert Tagged(st.hdr[1], fs) == [d];
    } else {
      SplitThen(st, fs[1..], t, iods, out + [d]);
      var u := Concat(fs[2..]) + t;
      ConcatTwo(fs, t);
      SplitStep(st, fs[0], fs[1], u, t, iods, out, out + [d] + Tagged(st.hdr[1], fs[1..]));
      TaggedCons(st.hdr[1], fs, out);
    }
  }

  /** The first two frames of a concatenation, with what follows it. */
  lemma {:induction false} ConcatTwo(fs: seq<seq<Byte>>, t: seq<Byte>)
    requires |fs| >= 2
    ensures Concat(fs[1..]) + t == fs[1] + (Concat(fs[2..]) + t)
    ensures Concat(fs) + t == fs[0] + (fs[1] + (Concat(fs[2..]) + t))
  {
    assert fs[1..][1..] == fs[2..];
    assert Concat(fs[1..]) == fs[1] + Concat(fs[2..]);
    assert Concat(fs) == fs[0] + Concat(fs[1..]);
  }

  /** The buffers of a run of frames: the first one, then the rest. */
  lemma {:induction false} TaggedCons(tag: Byte, fs: seq<seq<Byte>>, out: seq<Delivery>)
    requires fs != []
    ensures out + [Delivery(tag, fs[0])] + Tagged(tag, fs[1..]) == out + Tagged(tag, fs)
  {
    assert Tagged(tag, fs) == [Delivery(tag, fs[0])] + Tagged(tag, fs[1..]);
  }

  /** One frame more in front of a split already known: it goes out first. */
  lemma {:induction false} SplitStep(st: HeaderData, f: seq<Byte>, g: seq<Byte>, u: seq<Byte>, t: seq<Byte>,
                                     iods: set<Byte>, out: seq<Delivery>, later: seq<Delivery>)
    requires HeaderValid(st) && |f| + |g| + |u| < U32 && |t| < U32
    requires WellFormed(f) && f[1] in iods && WellFormed(g)
    requires Scan(st, g + u, iods, out + [Delivery(st.hdr[1], f)]) == Trailing(st, t, iods, later)
    ensures Scan(st, f + (g + u), iods, out) == Trailing(st, t, iods, later)
  {
    FrontFrame(st, f, g + u, iods, out);
    TrailingFrame(st, g, u, iods, out + [Delivery(st.hdr[1], f)]);
  }

  /** After a buffer, input that starts with a well-formed frame goes back to next_frame. */
  lemma {:induction false} TrailingFrame(st: HeaderData, g: seq<Byte>, r: seq<Byte>, iods: set<Byte>, out: seq<Delivery>)
    requires HeaderValid(st) && |g| + |r| < U32 && WellFormed(g)
    ensures Trailing(st, g + r, iods, out) == Scan(st, g + r, iods, out)
  {
    HeaderOfPrefix(g, r);
  }

  /** next_frame on a well-formed frame followed by anything: the frame goes out whole. */
  lemma {:induction false} FrontFrame(st: HeaderData, f: seq<Byte>, r: seq<Byte>, iods: set<Byte>, out: seq<Delivery>)
    requires HeaderValid(st) && |f| + |r| < U32
    requires WellFormed(f) && f[1] in iods
    ensures Scan(st, f + r, iods, out) == Trailing(st, r, iods, out + [Delivery(st.hdr[1], f)])
  {
    HeaderOfPrefix(f, r);
    var input := f + r;
    assert input[..|f|] == f && input[|f|..] == r;
    assert Demux(iods, Delivery(st.hdr[1], f)).Some? by {
      assert ByteAt(f, 1) == f[1];
    }
  }

  /** Each of those buffers goes to the io device of its frame's channel. */
  lemma TaggedRoutes(tag: Byte, fs: seq<seq<Byte>>, iods: set<Byte>)
    requires forall i :: 0 <= i < |fs| ==> WellFormed(fs[i]) && fs[i][1] in iods
    requires tag !in iods
    ensures forall i :: 0 <= i < |fs| ==> Demux(iods, Tagged(tag, fs)[i]) == Some(ByteAt(fs[i], 1))
  {
  }

  /** From the reset state a run of well-formed frames comes back whole. */
  lemma RecvFrames(fs: seq<seq<Byte>>, iods: set<Byte>)
    requires |Concat(fs)| < U32 && fs != []
    requires forall i :: 0 <= i < |fs| ==> WellFormed(fs[i]) && fs[i][1] in iods
    requires 0 !in iods
    ensures var o := Recv(Cleared(), Concat(fs), iods);
      && o.ret == 0 && o.st == Cleared()
      && |o.out| == |fs| && (forall i :: 0 <= i < |fs| ==> o.out[i].data == fs[i])
      && (forall i :: 0 <= i < |fs| ==> Demux(iods, o.out[i]) == Some(ByteAt(fs[i], 1)))
  {
    FramesOnAll(fs, iods);
    SplitFrames(Cleared(), fs, iods, []);
    var o := Recv(Cleared(), Concat(fs), iods);
    assert o == Outcome(0, [] + Tagged(0, fs), Cleared());
    assert [] + Tagged(0, fs) == Tagged(0, fs);
    TaggedRoutes(0, fs, iods);
  }

  /** The pending frame the split saves for the first k bytes of frame f. */
  function Saved(f: seq<Byte>, k: nat): (h: HeaderData)
    requires WellFormed(f) && HdrLen(f[0]) <= k < |f| < U32
    ensures HeaderValid(h) && h.len == |f| && h.fragLen == k && h.hdr[0] == f[0] && h.hdr[1] == f[1]
    ensures h.hdr[..HdrLen(f[0])] == f[..HdrLen(f[0])]
  {
    HeaderData(Overwrite(Zeros(SIPC5_HDR_LEN_MAX), 0, f[..HdrLen(f[0])]), |f|, k)
  }

  /**
   * A frame cut after its header, first part: it goes out as it is and
   * is saved as the pending frame (its header, its length, the bytes so
   * far).
   */
  lemma {:induction false} FragmentStarts(f: seq<Byte>, k: nat, iods: set<Byte>)
    requires WellFormed(f) && HdrLen(f[0]) <= k < |f| < U32
    requires f[1] in iods
    ensures Recv(Cleared(), f[..k], iods) == Outcome(0, [Delivery(f[1], f[..k])], Saved(f, k))
  {
    var hl := HdrLen(f[0]);
    var p := f[..k];
    HeaderOfPrefix(p, f[k..]);
    assert p + f[k..] == f;
    assert p[0] == f[0] && Prefix(p, hl) == f[..hl];
    assert Demux(iods, Delivery(f[1], p)) == Some(f[1]);
  }

  /**
   * Second part: the rest of the frame completes it, the state is reset,
   * and the frames after it come back whole.
   */
  lemma {:induction false} FragmentCompletes(f: seq<Byte>, k: nat, gs: seq<seq<Byte>>, iods: set<Byte>)
    requires WellFormed(f) && HdrLen(f[0]) <= k < |f| && |f| + |Concat(gs)| < U32
    requires f[1] in iods && 0 !in iods && FramesOn(gs, iods)
    ensures Recv(Saved(f, k), f[k..] + Concat(gs), iods)
            == Outcome(0, [Delivery(f[1], f[k..])] + Tagged(0, gs), Cleared())
  {
    var s := Saved(f, k);
    var d := Delivery(f[1], f[k..]);
    assert Demux(iods, d) == Some(f[1]);
    assert Recv(s, f[k..] + Concat(gs), iods) == RestOf(s, f[k..] + Concat(gs), iods, []);
    RestOfWhole(s, f[k..], Concat(gs), iods, []);
    assert Delivery(s.hdr[1], f[k..]) == d && [] + [d] == [d];
    assert Recv(s, f[k..] + Concat(gs), iods) == Trailing(Cleared(), Concat(gs), iods, [d]);
    if gs == [] {
      assert Tagged(0, gs) == [];
      assert Trailing(Cleared(), [], iods, [d]) == Outcome(0, [d], Cleared());
    } else {
      assert Concat(gs) == gs[0] + Concat(gs[1..]);
      TrailingFrame(Cleared(), gs[0], Concat(gs[1..]), iods, [d]);
      SplitFrames(Cleared(), gs, iods, [d]);
      assert Scan(Cleared(), Concat(gs), iods, [d]) == Outcome(0, [d] + Tagged(0, gs), Cleared());
    }
  }

  lemma NoWrap(x: nat)
    requires x < U32
    ensures x % U32 == x
  {
  }

  /** (a - b) in u32 arithmetic, when no wrap happens. */
  lemma SubNoWrap(a: nat, b: nat)
    requires b <= a < U32
    ensures (a + U32 - b) % U32 == a - b
  {
    assert a + U32 - b == (a - b) + U32;
  }

  /** The last part of a pending frame, followed by more input. */
  lemma {:induction false} RestOfWhole(st: HeaderData, last: seq<Byte>, more: seq<Byte>, iods: set<Byte>, out: seq<Delivery>)
    requires HeaderValid(st) && st.fragLen < st.len && |last| == st.len - st.fragLen
    requires |last| + |more| < U32 && Demux(iods, Delivery(st.hdr[1], last)).Some?
    ensures RestOf(st, last + more, iods, out) == Trailing(Cleared(), more, iods, out + [Delivery(st.hdr[1], last)])
  {
    SubNoWrap(st.len, st.fragLen);
    var input := last + more;
    assert input[..|last|] == last && input[|last|..] == more;
  }

  /**
   * Frames followed by the first j bytes of a frame's header: the frames
   * come back whole and the j bytes are kept in hdr as the pending frame.
   */
  lemma {:induction false} HeaderCarried(fs: seq<seq<Byte>>, f: seq<Byte>, j: nat, iods: set<Byte>)
    requires fs != [] && FramesOn(fs, iods) && 0 !in iods
    requires WellFormed(f) && 0 < j < HdrLen(f[0]) && |Concat(fs)| + j < U32
    ensures Recv(Cleared(), Concat(fs) + f[..j], iods) == Outcome(0, Tagged(0, fs), Carry(Cleared(), f[..j]))
  {
    SplitThen(Cleared(), fs, f[..j], iods, []);
    assert [] + Tagged(0, fs) == Tagged(0, fs);
    assert f[..j][0] == f[0];
  }

  /**
   * The rest of that frame completes its header, which goes out on its
   * own, then the frame's payload, and the state is reset.
   */
  lemma {:induction false} HeaderCompletes(f: seq<Byte>, j: nat, iods: set<Byte>)
    requires WellFormed(f) && 0 < j < HdrLen(f[0]) < |f| < U32 && f[1] in iods
    ensures var hl := HdrLen(f[0]);
      Recv(Carry(Cleared(), f[..j]), f[j..], iods)
      == Outcome(0, [Delivery(f[1], f[..hl]), Delivery(f[1], f[hl..])], Cleared())
  {
    var hl := HdrLen(f[0]);
    var st1 := HeaderData(Overwrite(Carry(Cleared(), f[..j]).hdr, j, f[j..hl]), |f|, hl);
    var d1 := Delivery(f[1], f[..hl]);
    HeaderGoesOut(f, j, iods);
    PayloadGoesOut(st1, f, d1, iods);
  }

  /** The first step of HeaderCompletes: the header is rebuilt and delivered. */
  lemma {:induction false} HeaderGoesOut(f: seq<Byte>, j: nat, iods: set<Byte>)
    requires WellFormed(f) && 0 < j < HdrLen(f[0]) < |f| < U32 && f[1] in iods
    ensures var hl := HdrLen(f[0]);
      var st := Carry(Cleared(), f[..j]);
      var st1 := HeaderData(Overwrite(st.hdr, j, f[j..hl]), |f|, hl);
      && HeaderValid(st1) && st1.hdr[1] == f[1] && st1.fragLen < st1.len
      && Recv(st, f[j..], iods) == RestOf(st1, f[hl..], iods, [Delivery(f[1], f[..hl])])
  {
    var hl := HdrLen(f[0]);
    var st := Carry(Cleared(), f[..j]);
    var input := f[j..];
    HeaderRebuilt(f, j);
    var h := Overwrite(st.hdr, j, f[j..hl]);
    assert input[..hl - j] == f[j..hl];
    var st1 := HeaderData(h, |f|, hl);
    var d1 := Delivery(f[1], f[..hl]);
    assert Demux(iods, d1) == Some(f[1]);
    assert input[hl - j..] == f[hl..];
    assert st.fragLen == j && HdrLen(st.hdr[0]) == hl;
    ResumeFill(st, input, iods, hl, h);
    assert Delivery(h[1], h[..hl]) == d1 && HeaderData(h, PacketLen(h), hl) == st1;
  }

  /** The second step of HeaderCompletes: the payload is the pending frame's last part. */
  lemma {:induction false} PayloadGoesOut(st1: HeaderData, f: seq<Byte>, d1: Delivery, iods: set<Byte>)
    requires WellFormed(f) && HdrLen(f[0]) < |f| < U32 && f[1] in iods
    requires HeaderValid(st1) && st1.hdr[1] == f[1] && st1.len == |f| && st1.fragLen == HdrLen(f[0])
    ensures RestOf(st1, f[HdrLen(f[0])..], iods, [d1])
      == Outcome(0, [d1, Delivery(f[1], f[HdrLen(f[0])..])], Cleared())
  {
    var hl := HdrLen(f[0]);
    var d2 := Delivery(f[1], f[hl..]);
    assert Demux(iods, d2) == Some(f[1]);
    AppendNil(f[hl..]);
    RestOfWhole(st1, f[hl..], [], iods, [d1]);
    Pair(d1, d2);
    assert Trailing(Cleared(), [], iods, [d1, d2]) == Outcome(0, [d1, d2], Cleared());
  }

  lemma AppendNil<T>(s: seq<T>)
    ensures s + [] == s
  {
  }

  lemma Pair<T>(a: T, b: T)
    ensures [a] + [b] == [a, b]
  {
  }

  /** Resume on a pending header: the input completes it and the header goes out first. */
  lemma ResumeFill(st: HeaderData, input: seq<Byte>, iods: set<Byte>, hl: nat, h: seq<Byte>)
    requires HeaderValid(st) && hl == HdrLen(st.hdr[0]) && 0 < st.fragLen < hl && |input| < U32
    requires hl - st.fragLen <= |input| && h == Overwrite(st.hdr, st.fragLen, input[..hl - st.fragLen])
    ensures var d := Delivery(h[1], h[..hl]);
      Recv(st, input, iods)
      == if Demux(iods, d).None? then Outcome(-EINVAL, [], HeaderData(h, PacketLen(h), hl))
         else RestOf(HeaderData(h, PacketLen(h), hl), input[hl - st.fragLen..], iods, [d])
  {
  }

  /** The header the carried bytes and the rest of the frame rebuild is the frame's own. */
  lemma {:induction false} HeaderRebuilt(f: seq<Byte>, j: nat)
    requires WellFormed(f) && 0 < j < HdrLen(f[0]) < |f| < U32
    ensures var hl := HdrLen(f[0]);
      var st := Carry(Cleared(), f[..j]);
      var h := Overwrite(st.hdr, j, f[j..hl]);
      && st.hdr[0] == f[0] && |h| == SIPC5_HDR_LEN_MAX
      && h[..hl] == f[..hl] && h[1] == f[1] && PacketLen(h) == |f|
  {
    var hl := HdrLen(f[0]);
    var st := Carry(Cleared(), f[..j]);
    assert st.hdr[0] == f[0] by {
      assert st.hdr[..j][0] == f[..j][0];
    }
    var h := Overwrite(st.hdr, j, f[j..hl]);
    assert h[..hl] == f[..hl] by {
      assert h[..j] == st.hdr[..j] == f[..j];
      assert h[j..hl] == f[j..hl];
      assert f[..hl] == f[..j] + f[j..hl];
      assert h[..hl] == h[..j] + h[j..hl];
    }
    SameHeader(h, f);
  }

  /** Two buffers that agree on a header have the same header length and length field. */
  lemma {:induction false} SameHeader(a: seq<Byte>, b: seq<Byte>)
    requires |a| >= 1 && |a| >= HdrLen(a[0]) && |b| >= HdrLen(a[0])
    requires a[..HdrLen(a[0])] == b[..HdrLen(a[0])]
    ensures b[0] == a[0] && a[1] == b[1] && PacketLen(a) == PacketLen(b)
  {
    var hl := HdrLen(a[0]);
    assert forall i :: 0 <= i < hl ==> a[i] == a[..hl][i] == b[..hl][i] == b[i];
    assert ByteAt(a, 0) == ByteAt(b, 0);
    if HasBit(a[0], SIPC5_HDR_EXT) {
      assert ByteAt(a, 2) == ByteAt(b, 2) && ByteAt(a, 3) == ByteAt(b, 3);
      assert ByteAt(a, 4) == ByteAt(b, 4) && ByteAt(a, 5) == ByteAt(b, 5);
    } else {
      assert ByteAt(a, 2) == ByteAt(b, 2) && ByteAt(a, 3) == ByteAt(b, 3);
    }
  }

  /**
   * The input as the source's next_frame cuts it: a complete frame of a
   * valid start is pktlen bytes, and what follows goes round again.
   */
  function NextFrameAsWritten(input: seq<Byte>): (r: (seq<Byte>, seq<Byte>))
    requires StartValid(input) && PacketLen(input) <= |input|
    ensures r.0 + r.1 == input && |r.0| == PacketLen(input)
  {
    (input[..PacketLen(input)], input[PacketLen(input)..])
  }

  /**
   * A valid start with length field 0: next_frame as written sends an
   * empty buffer and, since the untouched input still holds a whole
   * header, jumps back to next_frame with the same input, forever.  The
   * corrected split refuses it.
   */
  lemma ZeroLengthFrameLoops(ch: Byte, tail: seq<Byte>, st: HeaderData, iods: set<Byte>, out: seq<Delivery>)
    requires HeaderValid(st) && |tail| < 100
    ensures var input := [SIPC5_HDR_CFG_START, ch, 0, 0] + tail;
      && StartValid(input) && PacketLen(input) == 0
      && NextFrameAsWritten(input) == ([], input)
      && |input| >= HdrLen(input[0])
      && Scan(st, input, iods, out) == Outcome(-EBADMSG, out, st)
  {
    CfgFlags();
  }

  /**
   * A valid start with length field 2, shorter than its 4-byte header:
   * next_frame as written sends [0xF8, ch] and is left with [2, 0, x, y],
   * whose cfg byte 2 has the EXT bit, so the 4 bytes are kept as a partial
   * 6-byte header whatever x and y are.  The corrected split refuses it.
   */
  lemma ShortLengthFrameCarried(ch: Byte, x: Byte, y: Byte, st: HeaderData, iods: set<Byte>, out: seq<Delivery>)
    requires HeaderValid(st)
    ensures var input := [SIPC5_HDR_CFG_START, ch, 2, 0, x, y];
      && StartValid(input) && PacketLen(input) == 2
      && NextFrameAsWritten(input) == ([SIPC5_HDR_CFG_START, ch], [2, 0, x, y])
      && HdrLen(2) == SIPC5_HDR_LEN_EXT && 4 < HdrLen(2)
      && Scan(st, input, iods, out) == Outcome(-EBADMSG, out, st)
  {
    CfgFlags();
    var input := [SIPC5_HDR_CFG_START, ch, 2, 0, x, y];
    assert PacketLen(input) == 2;
    assert input[..2] == [SIPC5_HDR_CFG_START, ch] && input[2..] == [2, 0, x, y];
  }

  // ---------------------------------------------------------------------
  // Properties of the parsers
  // ---------------------------------------------------------------------

  /** Fragment continue over the sizes read one after another, stopping at the first fatal error. */
  function ContinueAll(st: HeaderData, sizes: seq<nat>): (r: (seq<int>, bool, HeaderData))
    requires HeaderValid(st) && forall i :: 0 <= i < |sizes| ==> sizes[i] < U32
    decreases |sizes|
  {
    if sizes == [] then ([], false, st)
    else
      var c := FragmentContinue(st, sizes[0]);
      if c.fatal then ([c.status], true, c.st)
      else
        var r := ContinueAll(c.st, sizes[1..]);
        ([c.status] + r.0, r.1, r.2)
  }

  function Sum(sizes: seq<nat>): nat
  {
    if sizes == [] then 0 else sizes[0] + Sum(sizes[1..])
  }

  /**
   * Reading a pending frame in non-empty pieces that add up to what is
   * due: every piece but the last asks for more (status 1), the last
   * returns 0 and resets the state, and no framing error occurs.
   */
  lemma {:induction false} ContinueAllCompletes(st: HeaderData, sizes: seq<nat>)
    requires HeaderValid(st) && sizes != []
    requires forall i :: 0 <= i < |sizes| ==> 0 < sizes[i] < U32
    requires st.fragLen + Sum(sizes) == st.len
    ensures var r := ContinueAll(st, sizes);
      && |r.0| == |sizes| && !r.1 && r.2 == st.(fragLen := 0)
      && (forall i :: 0 <= i < |sizes| - 1 ==> r.0[i] == 1)
      && r.0[|sizes| - 1] == 0
    decreases |sizes|
  {
    var c := FragmentContinue(st, sizes[0]);
    var f := st.fragLen + sizes[0];
    assert f <= st.len < U32 && f % U32 == f;
    if |sizes| == 1 {
      assert Sum(sizes[1..]) == 0;
    } else {
      assert Sum(sizes[1..]) > 0 by {
        assert sizes[1..][0] == sizes[1];
      }
      assert !c.fatal && c.status == 1;
      forall i | 0 <= i < |sizes[1..]|
        ensures 0 < sizes[1..][i] < U32
      {
        assert sizes[1..][i] == sizes[i + 1];
      }
      ContinueAllCompletes(c.st, sizes[1..]);
    }
  }

  /** A frame sipc5_hdr_create makes with the plain header on an unaligned link. */
  lemma {:induction false} CreatedPlain(ch: Byte, payload: seq<Byte>, tail: seq<Byte>)
    requires |tail| >= 3 && |payload| + SIPC5_HDR_LEN < U16
    ensures var f := HdrCreate(false, ch, payload, false, tail);
      && |f| == |payload| + SIPC5_HDR_LEN && WellFormed(f) && f[1] == ch && HdrLen(f[0]) == SIPC5_HDR_LEN && f[SIPC5_HDR_LEN..] == payload
  {
    CfgFlags();
    PlainHeaderShort(ch, |payload|);
    ParseCreate(false, ch, payload, false, tail);
  }

  /** The same with the EXT header. */
  lemma {:induction false} CreatedExt(ch: Byte, payload: seq<Byte>, tail: seq<Byte>)
    requires |tail| >= 3 && |payload| + SIPC5_HDR_LEN_EXT < U32
    ensures var f := HdrCreate(true, ch, payload, false, tail);
      && |f| == |payload| + SIPC5_HDR_LEN_EXT && WellFormed(f) && f[1] == ch && HdrLen(f[0]) == SIPC5_HDR_LEN_EXT && f[SIPC5_HDR_LEN_EXT..] == payload
  {
    CfgFlags();
    PlainHeaderExt(ch, |payload|);
    ParseCreate(true, ch, payload, false, tail);
  }

  /**
   * The legacy RFS parser against the legacy RFS creator: a buffer whose
   * RFS length header is right comes back as it was sent, and once it is
   * read the state is reset.
   */
  lemma {:induction false} LegacyRfsRoundTrip(ch: Byte, payload: seq<Byte>, tail: seq<Byte>)
    requires |tail| >= 3 && |payload| + SIPC5_HDR_LEN < U16
    ensures var data := PutLe32(|payload| + RFS_HDR_LEN) + payload;
      var f := HdrCreateLegacyRfs(false, ch, data, false, tail);
      var p := ParseLegacyRfs(Cleared(), f);
      && p.ret == 0 && p.skb == data
      && LegacyRfsContinue(p.st, |p.skb|) == Cont(0, false, p.st.(fragLen := 0))
  {
    var data := PutLe32(|payload| + RFS_HDR_LEN) + payload;
    assert data[4..] == payload;
    var f := HdrCreate(false, ch, payload, false, tail);
    assert HdrCreateLegacyRfs(false, ch, data, false, tail) == f;
    CreatedPlain(ch, payload, tail);
    LegacyRfsWhole(f);
  }

  /**
   * The legacy RFS parser on a whole well-formed frame from the reset
   * state: the RFS length header it puts back counts itself and the
   * payload, and reading the result resets the state.
   */
  lemma {:induction false} LegacyRfsWhole(f: seq<Byte>)
    requires WellFormed(f) && |f| + RFS_HDR_LEN < U32
    ensures var p := ParseLegacyRfs(Cleared(), f);
      && p.ret == 0 && p.skb == PutLe32(|f| - HdrLen(f[0]) + RFS_HDR_LEN) + f[HdrLen(f[0])..]
      && LegacyRfsContinue(p.st, |p.skb|) == Cont(0, false, p.st.(fragLen := 0))
  {
    ParsedWhole(f);
    var q := ParseFragment(Cleared(), f);
    var hl := HdrLen(f[0]);
    var rfsLen := (q.st.len + RFS_HDR_LEN + U32 - hl) % U32;
    SubNoWrap(q.st.len + RFS_HDR_LEN, hl);
    var p := ParseLegacyRfs(Cleared(), f);
    assert p == RfsPush(q);
    assert p.skb == PutLe32(rfsLen) + q.skb;
    NoWrap(q.st.len + RFS_HDR_LEN);
    assert p.st == q.st.(len := |f| + RFS_HDR_LEN);
    assert |p.skb| == |f| - hl + RFS_HDR_LEN;
    assert (p.st.fragLen + |p.skb|) % U32 == p.st.len;
  }

  /** The fragment parser on a whole well-formed frame from the reset state. */
  lemma {:induction false} ParsedWhole(f: seq<Byte>)
    requires WellFormed(f)
    ensures var q := ParseFragment(Cleared(), f);
      && q.ret == 0 && q.sipch == Some(f) && q.skb == f[HdrLen(f[0])..]
      && q.st.len == |f| && q.st.fragLen == HdrLen(f[0]) && q.st.hdr[..HdrLen(f[0])] == f[..HdrLen(f[0])]
      && q.st.hdr[0] == f[0]
  {
    assert Trim(f, PacketLen(f)) == f;
    assert HdrParse(f) == Parsed(f, f[HdrLen(f[0])..]);
  }
}
