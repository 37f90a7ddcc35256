/**
 * The SIPC5 link header: its size, its length field, creation on the TX
 * path and parsing on the RX path.
 *
 * Byte layout of a header (link header type sipc5_link_hdr):
 *   [0] cfg   START bits 0xF8, plus PAD 0x04, EXT 0x02, CTRL 0x01
 *   [1] ch    channel id of the io device
 *   [2..3]    16-bit little-endian packet length, or with EXT
 *   [2..5]    32-bit little-endian packet length
 *   [4] ctl   multi-format control byte (only with CTRL)
 * The packet length counts the header and not the padding.  Bytes read
 * past the end of a buffer are read as 0.
 */
module Sipc5Frame {

  type Byte = b: nat | b < 256

  const U16: nat := 0x10000
  const U32: nat := 0x1_0000_0000

  /** SIPC5_HDR_LEN: cfg + ch + 16-bit len */
  const SIPC5_HDR_LEN: nat := 4
  /** SIPC5_HDR_LEN_CTRL: cfg + ch + 16-bit len + ctl */
  const SIPC5_HDR_LEN_CTRL: nat := 5
  /** SIPC5_HDR_LEN_EXT: cfg + ch + 32-bit len */
  const SIPC5_HDR_LEN_EXT: nat := 6
  /** SIPC5_HDR_LEN_MAX */
  const SIPC5_HDR_LEN_MAX: nat := 6

  /** cfg bits */
  const SIPC5_HDR_CFG_START: Byte := 0xF8
  const SIPC5_HDR_PAD: Byte := 0x04
  const SIPC5_HDR_EXT: Byte := 0x02
  const SIPC5_HDR_CTRL: Byte := 0x01

  /** The channel sipc5_hdr_create_ipcloopback stamps on its frames. */
  const SIPC5_CH_ID_FMT_0: Byte := 235

  /** ETH_HLEN: the bridge header sipc5_hdr_create_handover drops. */
  const ETH_HLEN: nat := 14

  /** EBADMSG */
  const EBADMSG: int := 74

  /** Ethernet protocol numbers sipc_type_trans returns. */
  const ETH_P_IP: nat := 0x0800
  const ETH_P_IPV6: nat := 0x86DD

  // ---------------------------------------------------------------------
  // Reading a header
  // ---------------------------------------------------------------------

  /** The byte at i, or 0 past the end of b. */
  function ByteAt(b: seq<Byte>, i: nat): Byte
  {
    if i < |b| then b[i] else 0
  }

  /** cfg & bit != 0, for one of the single-bit cfg flags. */
  predicate HasBit(cfg: Byte, bit: Byte)
    requires bit == SIPC5_HDR_PAD || bit == SIPC5_HDR_EXT || bit == SIPC5_HDR_CTRL
  {
    (cfg / bit) % 2 == 1
  }

  /** sipc5_start_valid: all five START bits are set. */
  predicate StartValid(frame: seq<Byte>): (b: bool)
    ensures b <==> |frame| >= 1 && frame[0] >= SIPC5_HDR_CFG_START
  {
    ByteAt(frame, 0) >= SIPC5_HDR_CFG_START
  }

  /** sipc5_get_hdr_len: the header length the cfg byte announces. */
  function HdrLen(cfg: Byte): (n: nat)
    ensures n == SIPC5_HDR_LEN || n == SIPC5_HDR_LEN_CTRL || n == SIPC5_HDR_LEN_EXT
    ensures n == SIPC5_HDR_LEN_EXT <==> HasBit(cfg, SIPC5_HDR_EXT)
    ensures n == SIPC5_HDR_LEN_CTRL <==> !HasBit(cfg, SIPC5_HDR_EXT) && HasBit(cfg, SIPC5_HDR_CTRL)
  {
    if HasBit(cfg, SIPC5_HDR_EXT) then SIPC5_HDR_LEN_EXT
    else if HasBit(cfg, SIPC5_HDR_CTRL) then SIPC5_HDR_LEN_CTRL
    else SIPC5_HDR_LEN
  }

  function Le16(b: seq<Byte>, i: nat): (v: nat)
    ensures v < U16
  {
    ByteAt(b, i) + 256 * ByteAt(b, i + 1)
  }

  function Le32(b: seq<Byte>, i: nat): (v: nat)
    ensures v < U32
  {
    Le16(b, i) + U16 * Le16(b, i + 2)
  }

  /**
   * sipc5_get_packet_len: the 32-bit length field when the EXT bit is set,
   * the 16-bit one otherwise.
   */
  function PacketLen(frame: seq<Byte>): (n: nat)
    ensures !HasBit(ByteAt(frame, 0), SIPC5_HDR_EXT) ==> n < U16
    ensures n < U32
  {
    if HasBit(ByteAt(frame, 0), SIPC5_HDR_EXT) then Le32(frame, 2) else Le16(frame, 2)
  }

  /**
   * sipc5_get_header_size: the header a write of len payload bytes needs.
   * A multi-format write takes the CTRL header; otherwise a payload that
   * would not fit the 16-bit length together with the largest header
   * takes the EXT header.
   */
  function HeaderSize(multifmt: nat, len: nat): (n: nat)
    ensures multifmt != 0 ==> n == SIPC5_HDR_LEN_CTRL
    ensures multifmt == 0 && len > 0xFFFF - SIPC5_HDR_LEN_MAX ==> n == SIPC5_HDR_LEN_EXT
    ensures multifmt == 0 && len <= 0xFFFF - SIPC5_HDR_LEN_MAX ==> n == SIPC5_HDR_LEN
  {
    if multifmt != 0 then SIPC5_HDR_LEN_CTRL
    else if len > 0xFFFF - SIPC5_HDR_LEN_MAX then SIPC5_HDR_LEN_EXT
    else SIPC5_HDR_LEN
  }

  /** The 16-bit field a payload of any header size selected for it gets never truncates. */
  lemma HeaderSizeFits(len: nat)
    requires len + SIPC5_HDR_LEN_EXT < U32
    ensures HeaderSize(0, len) == SIPC5_HDR_LEN ==> len + SIPC5_HDR_LEN < U16
    ensures len + HeaderSize(0, len) < U32
  {
  }

  // ---------------------------------------------------------------------
  // Writing a header
  // ---------------------------------------------------------------------

  /** SIPC_ALIGN: round up to a multiple of 4. */
  function Align(n: nat): (a: nat)
    ensures n <= a < n + 4 && a % 4 == 0
  {
    (n + 3) / 4 * 4
  }

  function PutLe16(v: nat): (b: seq<Byte>)
    requires v < U16
    ensures |b| == 2 && Le16(b, 0) == v
  {
    [v % 256, v / 256]
  }

  function PutLe32(v: nat): (b: seq<Byte>)
    requires v < U32
    ensures |b| == 4 && Le32(b, 0) == v
  {
    PutLe16(v % U16) + PutLe16(v / U16)
  }

  /**
   * The end of every header_create: with an aligned link the PAD bit is
   * set and the buffer is extended to SIPC_ALIGN(len) with bytes of the
   * tailroom, which holds the 3 spare bytes misc_write allocates.
   */
  function Finish(hdr: seq<Byte>, payload: seq<Byte>, aligned: bool, tail: seq<Byte>): seq<Byte>
    requires |hdr| >= 1 && hdr[0] + SIPC5_HDR_PAD < 256 && |tail| >= 3
  {
    var n := |hdr| + |payload|;
    if aligned then [hdr[0] + SIPC5_HDR_PAD] + hdr[1..] + payload + tail[..Align(n) - n]
    else hdr + payload
  }

  /**
   * The link header sipc5_hdr_create puts in front of a payload: the EXT
   * header with a 32-bit length when ext (hdr_size == SIPC5_HDR_LEN_EXT),
   * else the plain header with the length truncated to 16 bits.
   */
  function PlainHeader(ext: bool, ch: Byte, payloadLen: nat): (h: seq<Byte>)
    ensures |h| == (if ext then SIPC5_HDR_LEN_EXT else SIPC5_HDR_LEN)
  {
    if ext then
      [SIPC5_HDR_CFG_START + SIPC5_HDR_EXT, ch] + PutLe32((payloadLen + SIPC5_HDR_LEN_EXT) % U32)
    else
      [SIPC5_HDR_CFG_START, ch] + PutLe16((payloadLen + SIPC5_HDR_LEN) % U16)
  }

  /** sipc5_hdr_create for io device channel ch. */
  function HdrCreate(ext: bool, ch: Byte, payload: seq<Byte>, aligned: bool, tail: seq<Byte>): (frame: seq<Byte>)
    requires |tail| >= 3
    ensures var n := |PlainHeader(ext, ch, |payload|)| + |payload|;
      |frame| == if aligned then Align(n) else n
    ensures !aligned ==> frame == PlainHeader(ext, ch, |payload|) + payload
  {
    Finish(PlainHeader(ext, ch, |payload|), payload, aligned, tail)
  }

  /** sipc5_hdr_create_ipcloopback: the plain header on channel FMT_0. */
  function HdrCreateIpcloopback(payload: seq<Byte>, aligned: bool, tail: seq<Byte>): (frame: seq<Byte>)
    requires |tail| >= 3
    ensures frame == HdrCreate(false, SIPC5_CH_ID_FMT_0, payload, aligned, tail)
  {
    Finish([SIPC5_HDR_CFG_START, SIPC5_CH_ID_FMT_0] + PutLe16((|payload| + SIPC5_HDR_LEN) % U16),
           payload, aligned, tail)
  }

  /**
   * sipc5_hdr_create_legacy_rfs: the 4-byte RFS length header from the
   * RIL is dropped (skb_pull does nothing on a shorter buffer) before the
   * SIPC5 header goes on.  A mismatching RFS length is only logged.
   */
  function HdrCreateLegacyRfs(ext: bool, ch: Byte, data: seq<Byte>, aligned: bool, tail: seq<Byte>): (frame: seq<Byte>)
    requires |tail| >= 3
    ensures |data| >= 4 ==> frame == HdrCreate(ext, ch, data[4..], aligned, tail)
    ensures |data| < 4 ==> frame == HdrCreate(ext, ch, data, aligned, tail)
  {
    HdrCreate(ext, ch, if |data| >= 4 then data[4..] else data, aligned, tail)
  }

  /** sipc5_hdr_create_handover: the bridge's Ethernet header is dropped first. */
  function HdrCreateHandover(ext: bool, ch: Byte, data: seq<Byte>, aligned: bool, tail: seq<Byte>): (frame: seq<Byte>)
    requires |tail| >= 3
    ensures |data| >= ETH_HLEN ==> frame == HdrCreate(ext, ch, data[ETH_HLEN..], aligned, tail)
    ensures |data| < ETH_HLEN ==> frame == HdrCreate(ext, ch, data, aligned, tail)
  {
    HdrCreate(ext, ch, if |data| >= ETH_HLEN then data[ETH_HLEN..] else data, aligned, tail)
  }

  /**
   * sipc5_hdr_create_multifmt: a frame of a multi-format write (multifmt
   * != 0) gets the CTRL header carrying multifmt in ctl; otherwise the
   * plain sipc5_hdr_create is used.
   */
  function HdrCreateMultifmt(ext: bool, ch: Byte, multifmt: Byte, payload: seq<Byte>, aligned: bool,
                             tail: seq<Byte>): (frame: seq<Byte>)
    requires |tail| >= 3
    ensures multifmt == 0 ==> frame == HdrCreate(ext, ch, payload, aligned, tail)
  {
    if multifmt != 0 then
      Finish([SIPC5_HDR_CFG_START + SIPC5_HDR_CTRL, ch] + PutLe16((|payload| + SIPC5_HDR_LEN_CTRL) % U16)
               + [multifmt], payload, aligned, tail)
    else HdrCreate(ext, ch, payload, aligned, tail)
  }

  // ---------------------------------------------------------------------
  // Parsing a header
  // ---------------------------------------------------------------------

  datatype Parse =
    | BadMsg
      /**
       * sipch: the bytes from the header on; payload: what is left in the
       * buffer.  A buffer shorter than its header is not pulled
       * (skb_pull_inline refuses), so payload is then the whole buffer.
       */
    | Parsed(sipch: seq<Byte>, payload: seq<Byte>)

  /** skb_trim: cut the buffer to n bytes; a longer n leaves it alone. */
  function Trim(b: seq<Byte>, n: nat): (t: seq<Byte>)
    ensures |t| == if n < |b| then n else |b|
    ensures t == b[..|t|]
  {
    if n < |b| then b[..n] else b
  }

  /**
   * sipc5_hdr_parse: -EBADMSG on an invalid start; otherwise the padding
   * is cut off by trimming to the packet length and the header is pulled.
   */
  function HdrParse(frame: seq<Byte>): (p: Parse)
    ensures p == BadMsg <==> !StartValid(frame)
    ensures p.Parsed? ==>
      var t := Trim(frame, PacketLen(frame));
      && p.sipch == t
      && (|t| >= HdrLen(frame[0]) ==> p.payload == t[HdrLen(frame[0])..])
      && (|t| < HdrLen(frame[0]) ==> p.payload == t)
  {
    if !StartValid(frame) then BadMsg
    else
      var t := Trim(frame, PacketLen(frame));
      var hl := HdrLen(frame[0]);
      Parsed(t, if |t| < hl then t else t[hl..])
  }

  /** The error code sipc5_hdr_parse returns (0 on success). */
  function ParseRet(p: Parse): (ret: int)
    ensures ret == 0 <==> !p.BadMsg?
  {
    if p.BadMsg? then -EBADMSG else 0
  }

  /**
   * sipc5_hdr_parse_multifmt_continue: the frame whose header is sipch is
   * followed by more frames of the same message exactly when it has a
   * CTRL byte with MOREBIT set.
   */
  function MultifmtContinue(sipch: seq<Byte>): (status: int)
    ensures status == 1 || status == 0
  {
    if HasBit(ByteAt(sipch, 0), SIPC5_HDR_CTRL) && ByteAt(sipch, 4) >= 0x80 then 1 else 0
  }

  // ---------------------------------------------------------------------
  // Create then parse
  // ---------------------------------------------------------------------

  /** The length field of every created header, and its channel and START bits. */
  lemma {:induction false} FinishShape(hdr: seq<Byte>, payload: seq<Byte>, aligned: bool, tail: seq<Byte>)
    requires |hdr| >= SIPC5_HDR_LEN && hdr[0] + SIPC5_HDR_PAD < 256 && |tail| >= 3
    requires !HasBit(hdr[0], SIPC5_HDR_PAD)
    ensures var f := Finish(hdr, payload, aligned, tail);
      && |f| == (if aligned then Align(|hdr| + |payload|) else |hdr| + |payload|)
      && f[1..|hdr|] == hdr[1..] && f[|hdr|..|hdr| + |payload|] == payload
      && f[0] == (if aligned then hdr[0] + SIPC5_HDR_PAD else hdr[0])
      && HdrLen(f[0]) == HdrLen(hdr[0])
      && (HasBit(f[0], SIPC5_HDR_EXT) <==> HasBit(hdr[0], SIPC5_HDR_EXT))
      && (HasBit(f[0], SIPC5_HDR_CTRL) <==> HasBit(hdr[0], SIPC5_HDR_CTRL))
      && HasBit(f[0], SIPC5_HDR_PAD) == aligned
  {
    var c := hdr[0];
    if aligned {
      var f := Finish(hdr, payload, aligned, tail);
      assert f == [c + SIPC5_HDR_PAD] + hdr[1..] + payload + tail[..Align(|hdr| + |payload|) - (|hdr| + |payload|)];
      assert (c + 4) / 2 == c / 2 + 2;
      assert (c + 4) / 4 == c / 4 + 1;
    }
  }

  /** The length fields read back what PutLe16/PutLe32 wrote at offset 2. */
  lemma {:induction false} LengthAt(f: seq<Byte>, field: seq<Byte>, ext: bool)
    requires |f| >= 2 + |field| && f[2..2 + |field|] == field
    requires ext ==> |field| == 4
    requires !ext ==> |field| == 2
    ensures ext ==> Le32(f, 2) == Le32(field, 0)
    ensures !ext ==> Le16(f, 2) == Le16(field, 0)
  {
    assert f[2] == field[0] && f[3] == field[1];
    if ext {
      assert f[4] == field[2] && f[5] == field[3];
    }
  }

  /**
   * sipc5_hdr_parse undoes sipc5_hdr_create: a frame whose header-inclusive
   * length fits the length field parses back to the payload, under a header
   * naming the channel, on aligned and unaligned links alike.
   */
  lemma {:induction false} ParseCreate(ext: bool, ch: Byte, payload: seq<Byte>, aligned: bool, tail: seq<Byte>)
    requires |tail| >= 3
    requires |payload| + (if ext then SIPC5_HDR_LEN_EXT else SIPC5_HDR_LEN) < (if ext then U32 else U16)
    ensures var f := HdrCreate(ext, ch, payload, aligned, tail);
      && StartValid(f) && f[1] == ch
      && PacketLen(f) == |payload| + (if ext then SIPC5_HDR_LEN_EXT else SIPC5_HDR_LEN)
      && HdrParse(f).Parsed? && HdrParse(f).payload == payload
      && (|f| % 4 == 0 || !aligned)
  {
    CfgFlags();
    var n := |payload| + (if ext then SIPC5_HDR_LEN_EXT else SIPC5_HDR_LEN);
    if ext {
      PlainHeaderExt(ch, |payload|);
      var h := [0xFA, ch] + PutLe32(n);
      assert h[2..6] == PutLe32(n);
      CreatedFrame(h, PutLe32(n), payload, aligned, tail, ext);
    } else {
      PlainHeaderShort(ch, |payload|);
      var h := [0xF8, ch] + PutLe16(n);
      assert h[2..4] == PutLe16(n);
      CreatedFrame(h, PutLe16(n), payload, aligned, tail, ext);
    }
  }

  /** The flags of the cfg bytes the header creators write before padding. */
  lemma CfgFlags()
    ensures HdrLen(0xFA) == SIPC5_HDR_LEN_EXT && HasBit(0xFA, SIPC5_HDR_EXT) && !HasBit(0xFA, SIPC5_HDR_PAD)
    ensures HdrLen(0xF8) == SIPC5_HDR_LEN && !HasBit(0xF8, SIPC5_HDR_EXT) && !HasBit(0xF8, SIPC5_HDR_PAD)
    ensures HdrLen(0xF9) == SIPC5_HDR_LEN_CTRL && !HasBit(0xF9, SIPC5_HDR_EXT) && !HasBit(0xF9, SIPC5_HDR_PAD)
  {
  }

  /** The EXT header of a payload whose length fits 32 bits. */
  lemma PlainHeaderExt(ch: Byte, len: nat)
    requires len + SIPC5_HDR_LEN_EXT < U32
    ensures PlainHeader(true, ch, len) == [0xFA, ch] + PutLe32(len + SIPC5_HDR_LEN_EXT)
  {
    assert (len + SIPC5_HDR_LEN_EXT) % U32 == len + SIPC5_HDR_LEN_EXT;
  }

  /** The plain header of a payload whose length fits 16 bits. */
  lemma PlainHeaderShort(ch: Byte, len: nat)
    requires len + SIPC5_HDR_LEN < U16
    ensures PlainHeader(false, ch, len) == [0xF8, ch] + PutLe16(len + SIPC5_HDR_LEN)
  {
    assert (len + SIPC5_HDR_LEN) % U16 == len + SIPC5_HDR_LEN;
  }

  /** The parse of a frame made by Finish from a header with the given length field. */
  lemma {:induction false} CreatedFrame(h: seq<Byte>, field: seq<Byte>, payload: seq<Byte>, aligned: bool,
                                        tail: seq<Byte>, ext: bool)
    requires |h| >= SIPC5_HDR_LEN && h[0] + SIPC5_HDR_PAD < 256 && |tail| >= 3
    requires h[0] >= SIPC5_HDR_CFG_START && !HasBit(h[0], SIPC5_HDR_PAD)
    requires HdrLen(h[0]) == |h| && HasBit(h[0], SIPC5_HDR_EXT) == ext
    requires ext ==> |field| == 4 && Le32(field, 0) == |h| + |payload|
    requires !ext ==> |field| == 2 && Le16(field, 0) == |h| + |payload|
    requires h[2..2 + |field|] == field
    ensures var f := Finish(h, payload, aligned, tail);
      && StartValid(f) && f[1] == h[1]
      && PacketLen(f) == |h| + |payload|
      && HdrParse(f).Parsed? && HdrParse(f).payload == payload
      && |HdrParse(f).sipch| >= |h| && HdrParse(f).sipch[1..|h|] == h[1..]
      && (|f| % 4 == 0 || !aligned)
  {
    var n := |h| + |payload|;
    var f := Finish(h, payload, aligned, tail);
    FinishShape(h, payload, aligned, tail);
    FinishedLength(h, field, payload, aligned, tail, ext);
    var t := Trim(f, n);
    assert t == f[..n];
    assert t[|h|..] == payload;
    assert t[1..|h|] == h[1..];
  }

  lemma SubSlice(f: seq<Byte>, h: seq<Byte>, m: nat)
    requires 2 <= m <= |h| <= |f| && f[1..|h|] == h[1..]
    ensures f[2..m] == h[2..m]
  {
    forall i | 2 <= i < m
      ensures f[i] == h[i]
    {
      assert f[1..|h|][i - 1] == h[1..][i - 1];
    }
    assert f[2..m] == h[2..m];
  }

  /** The frame Finish makes keeps the header's length and flags, and its length field reads n. */
  lemma {:induction false} FinishedLength(h: seq<Byte>, field: seq<Byte>, payload: seq<Byte>, aligned: bool,
                                          tail: seq<Byte>, ext: bool)
    requires |h| >= SIPC5_HDR_LEN && h[0] + SIPC5_HDR_PAD < 256 && |tail| >= 3
    requires h[0] >= SIPC5_HDR_CFG_START && !HasBit(h[0], SIPC5_HDR_PAD)
    requires HdrLen(h[0]) == |h| && HasBit(h[0], SIPC5_HDR_EXT) == ext
    requires ext ==> |field| == 4 && Le32(field, 0) == |h| + |payload|
    requires !ext ==> |field| == 2 && Le16(field, 0) == |h| + |payload|
    requires h[2..2 + |field|] == field
    ensures var f := Finish(h, payload, aligned, tail);
      && HdrLen(f[0]) == |h| && HasBit(f[0], SIPC5_HDR_EXT) == ext && PacketLen(f) == |h| + |payload|
  {
    var f := Finish(h, payload, aligned, tail);
    FinishShape(h, payload, aligned, tail);
    SubSlice(f, h, 2 + |field|);
    LengthAt(f, field, ext);
  }

  /** The same for the CTRL header of a multi-format frame, which also carries multifmt. */
  lemma {:induction false} ParseCreateMultifmt(ch: Byte, multifmt: Byte, payload: seq<Byte>, aligned: bool, tail: seq<Byte>)
    requires |tail| >= 3 && multifmt != 0
    requires |payload| + SIPC5_HDR_LEN_CTRL < U16
    ensures var f := HdrCreateMultifmt(false, ch, multifmt, payload, aligned, tail);
      && StartValid(f) && f[1] == ch
      && PacketLen(f) == |payload| + SIPC5_HDR_LEN_CTRL
      && HdrParse(f).Parsed? && HdrParse(f).payload == payload
      && |HdrParse(f).sipch| >= SIPC5_HDR_LEN_CTRL && HdrParse(f).sipch[4] == multifmt
      && (MultifmtContinue(HdrParse(f).sipch) == 1 <==> multifmt >= 0x80)
  {
    var n := |payload| + SIPC5_HDR_LEN_CTRL;
    assert n % U16 == n;
    var h := [SIPC5_HDR_CFG_START + SIPC5_HDR_CTRL, ch] + PutLe16(n) + [multifmt];
    assert HdrCreateMultifmt(false, ch, multifmt, payload, aligned, tail) == Finish(h, payload, aligned, tail);
    CfgFlags();
    assert h[2..4] == PutLe16(n);
    CreatedFrame(h, PutLe16(n), payload, aligned, tail, false);
    var f := Finish(h, payload, aligned, tail);
    assert HdrParse(f).sipch[4] == h[4] by {
      assert HdrParse(f).sipch[1..|h|] == h[1..];
    }
    FinishShape(h, payload, aligned, tail);
  }

  // ---------------------------------------------------------------------
  // Network packets
  // ---------------------------------------------------------------------

  /**
   * sipc_type_trans: the protocol, in host byte order, of the IP packet
   * whose first nibble is its version; 0 for a non-IP packet.
   */
  function TypeTrans(data: seq<Byte>): (proto: nat)
    ensures proto == ETH_P_IPV6 <==> ByteAt(data, 0) / 16 == 6
    ensures proto == ETH_P_IP <==> ByteAt(data, 0) / 16 == 4
    ensures proto == 0 <==> ByteAt(data, 0) / 16 != 4 && ByteAt(data, 0) / 16 != 6
  {
    var version := ByteAt(data, 0) / 16;
    if version == 6 then ETH_P_IPV6
    else if version == 4 then ETH_P_IP
    else 0
  }
}
