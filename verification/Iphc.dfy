/**
 6LoWPAN header compression (RFC 6282, sections 3 and 4.3) as lowpan6_frag builds it and
 lowpan6_decompress undoes it. Octets of the two base bytes are put together from bit fields.
 */
module Iphc {
  import opened Bytes

  const UDP: byte := 17

  /** The configured contexts: 64-bit prefixes, at most sixteen of them. */
  type Contexts = seq<seq<byte>>

  ghost predicate ValidContexts(cs: Contexts) {
    |cs| <= 16 && forall i :: 0 <= i < |cs| ==> |cs[i]| == 8
  }

  /** A link address has two or eight octets. */
  ghost predicate ValidMac(mac: seq<byte>) { |mac| == 2 || |mac| == 8 }

  // ----- Addresses

  predicate IsLinkLocal(a: seq<byte>)
    requires |a| == 16
  {
    a[0] == 0xfe && a[1] / 64 == 2
  }

  predicate IsMulticast(a: seq<byte>)
    requires |a| == 16
  {
    a[0] == 0xff
  }

  predicate IsAny(a: seq<byte>)
    requires |a| == 16
  {
    forall i :: 0 <= i < 16 ==> a[i] == 0
  }

  const LINK_LOCAL_PREFIX: seq<byte> := [0xfe, 0x80, 0, 0, 0, 0, 0, 0]
  const SHORT_IID: seq<byte> := [0, 0, 0, 0xff, 0xfe, 0]

  /** The lowest context with this prefix, or -1. */
  function Lookup(cs: Contexts, prefix: seq<byte>, from: nat := 0): (i: int)
    requires from <= |cs|
    ensures -1 <= i < |cs|
    ensures if i == -1 then forall k :: from <= k < |cs| ==> cs[k] != prefix
            else from <= i && cs[i] == prefix && forall k :: from <= k < i ==> cs[k] != prefix
    decreases |cs| - from
  {
    if from == |cs| then -1
    else if cs[from] == prefix then from
    else Lookup(cs, prefix, from + 1)
  }

  /** x ^ 2: the universal/local bit is complemented. */
  function FlipLocal(b: byte): byte {
    if b / 2 % 2 == 1 then b - 2 else b + 2
  }

  /** The interface identifier that follows from a link address. */
  function MacIid(mac: seq<byte>): seq<byte>
    requires |mac| == 2 || |mac| == 8
  {
    if |mac| == 2 then SHORT_IID + mac else [FlipLocal(mac[0])] + mac[1..]
  }

  /** lowpan6_get_address_mode: 3 elides the identifier, 2 carries two octets of it, 1 all eight. */
  function AddressMode(a: seq<byte>, mac: seq<byte>): (m: int)
    requires |a| == 16
    ensures 1 <= m <= 3
  {
    if (|mac| == 2 || |mac| == 8) && a[8..] == MacIid(mac) then 3
    else if a[8..14] == SHORT_IID then 2
    else 1
  }

  /** lowpan6_get_address_mode_mc: 3, 2 and 1 carry one, four and six octets, 0 the whole address. */
  function MulticastMode(a: seq<byte>): (m: int)
    requires |a| == 16
    ensures 0 <= m <= 3
  {
    if a[..15] == [0xff, 2, 0, 0, 0, 0, 0, 0, 0, 0, 0, 0, 0, 0, 0] then 3
    else if a[0] == 0xff && a[2..8] == [0, 0, 0, 0, 0, 0] then
      if a[8..13] == [0, 0, 0, 0, 0] then 2
      else if a[8..11] == [0, 0, 0] then 1
      else 0
    else 0
  }

  // ----- Encoded fields

  function TfMode(tc: int, fl: int): (m: int)
    ensures 0 <= m <= 3
  {
    if fl == 0 then if tc == 0 then 3 else 2
    else if tc % 64 == 0 then 1 else 0
  }

  function TfBytes(tc: byte, fl: int): seq<byte>
    requires 0 <= fl < 0x10_0000
  {
    var low := [fl / 256 % 256, fl % 256];
    match TfMode(tc, fl)
    case 3 => []
    case 2 => [tc]
    case 1 => [tc / 64 * 64 + fl / 65536] + low
    case _ => [tc, fl / 65536] + low
  }

  function HopMode(hl: byte): (m: int)
    ensures 0 <= m <= 3
  {
    if hl == 255 then 3 else if hl == 64 then 2 else if hl == 1 then 1 else 0
  }

  /** How one address is carried: the stateful bit, the mode bits and the octets. */
  datatype Carried = Carried(stateful: bool, mode: int, bytes: seq<byte>)

  function UnicastBytes(a: seq<byte>, mode: int): seq<byte>
    requires |a| == 16
  {
    if mode == 1 then a[8..] else if mode == 2 then a[14..] else []
  }

  function SourceField(a: seq<byte>, ctx: int, mac: seq<byte>): Carried
    requires |a| == 16
  {
    if ctx >= 0 || IsLinkLocal(a) then
      var m := AddressMode(a, mac);
      Carried(ctx >= 0, m, UnicastBytes(a, m))
    else if IsAny(a) then Carried(true, 0, [])
    else Carried(false, 0, a)
  }

  /** The stateful bit is set by a context even for a multicast address. */
  function DestField(a: seq<byte>, ctx: int, mac: seq<byte>): Carried
    requires |a| == 16
  {
    if IsMulticast(a) then
      var m := MulticastMode(a);
      Carried(ctx >= 0, m,
              if m == 0 then a
              else if m == 1 then [a[1]] + a[11..]
              else if m == 2 then [a[1]] + a[13..]
              else [a[15]])
    else if ctx >= 0 || IsLinkLocal(a) then
      var m := AddressMode(a, mac);
      Carried(ctx >= 0, m, UnicastBytes(a, m))
    else Carried(false, 0, a)
  }

  function PortMode(u: seq<byte>): (m: int)
    requires |u| >= 4
    ensures 0 <= m <= 3
  {
    if u[0] == 0xf0 && u[1] / 16 == 0xb && u[2] == 0xf0 && u[3] / 16 == 0xb then 3
    else if u[0] == 0xf0 then 2
    else if u[2] == 0xf0 then 1
    else 0
  }

  /** The compressed UDP header: ports and checksum; the length is elided. */
  function UdpBytes(u: seq<byte>): seq<byte>
    requires |u| >= 8
  {
    var m := PortMode(u);
    [0xf0 + m]
    + (if m == 3 then [u[1] % 16 * 16 + u[3] % 16]
       else if m == 2 then [u[1], u[2], u[3]]
       else if m == 1 then [u[0], u[1], u[3]]
       else u[..4])
    + [u[6], u[7]]
  }

  // ----- The packet

  function TrafficClass(p: seq<byte>): byte
    requires |p| >= 40
  {
    p[0] % 16 * 16 + p[1] / 16
  }

  function FlowLabel(p: seq<byte>): (fl: int)
    requires |p| >= 40
    ensures 0 <= fl < 0x10_0000
  {
    (p[1] as int) % 16 * 65536 + (p[2] as int) * 256 + (p[3] as int)
  }

  function Bit(b: bool): int { if b then 1 else 0 }

  /** The context identifier extension: both context numbers, 0 standing for none. */
  function ContextByte(sctx: int, dctx: int): byte
    requires -1 <= sctx < 16 && -1 <= dctx < 16
  {
    (if sctx > 0 then sctx * 16 else 0) + (if dctx > 0 then dctx else 0)
  }

  /** The first base byte: dispatch, traffic class and flow label, next header, hop limit. */
  function Base0(tf: int, nh: bool, hop: int): byte
    requires 0 <= tf <= 3 && 0 <= hop <= 3
  {
    0x60 + tf * 8 + Bit(nh) * 4 + hop
  }

  /** The second base byte: context extension, source mode, multicast, destination mode. */
  function Base1(cid: bool, s: Carried, mc: bool, d: Carried): byte
    requires 0 <= s.mode <= 3 && 0 <= d.mode <= 3
  {
    Bit(cid) * 128 + Bit(s.stateful) * 64 + s.mode * 16 + Bit(mc) * 8 + Bit(d.stateful) * 4 + d.mode
  }

  function Src(p: seq<byte>): seq<byte>
    requires |p| >= 40
  {
    p[8..24]
  }

  function Dst(p: seq<byte>): seq<byte>
    requires |p| >= 40
  {
    p[24..40]
  }

  /** An IPv6 packet that lowpan6_frag can be given: UDP is never shorter than its header. */
  ghost predicate Sendable(p: seq<byte>) {
    |p| >= 40 && (p[6] == UDP ==> |p| >= 48)
  }

  /** The compressed form of a packet, headers and payload. */
  function Compress(p: seq<byte>, cs: Contexts, smac: seq<byte>, dmac: seq<byte>): seq<byte>
    requires |p| >= 40 && (p[6] == UDP ==> |p| >= 48) && |cs| <= 16
  {
    var sctx := Lookup(cs, Src(p)[..8]);
    var dctx := Lookup(cs, Dst(p)[..8]);
    var cid := ContextByte(sctx, dctx);
    var tc := TrafficClass(p);
    var fl := FlowLabel(p);
    var s := SourceField(Src(p), sctx, smac);
    var d := DestField(Dst(p), dctx, dmac);
    [Base0(TfMode(tc, fl), p[6] == UDP, HopMode(p[7])), Base1(cid != 0, s, IsMulticast(Dst(p)), d)]
    + ((if cid != 0 then [cid] else [])
       + (TfBytes(tc, fl)
          + ((if p[6] == UDP then [] else [p[6]])
             + ((if HopMode(p[7]) != 0 then [] else [p[7]])
                + (s.bytes
                   + (d.bytes
                      + (if p[6] == UDP then UdpBytes(p[40..]) + p[48..] else p[40..])))))))
  }

  // ----- Decoding

  /** Traffic class and flow label from mode bits and the octets that follow. */
  function TfOf(m: int, r: seq<byte>): (byte, int)
    requires 0 <= m <= 3 && |r| >= TfWidth(m)
  {
    if m == 0 then (r[0], (r[1] as int) % 16 * 65536 + (r[2] as int) * 256 + (r[3] as int))
    else if m == 1 then (r[0] / 64 * 64, (r[0] as int) % 16 * 65536 + (r[1] as int) * 256 + (r[2] as int))
    else if m == 2 then (r[0], 0)
    else (0, 0)
  }

  function TfWidth(m: int): nat { if m == 0 then 4 else if m == 1 then 3 else if m == 2 then 1 else 0 }

  function UnicastWidth(m: int): nat { if m == 1 then 8 else if m == 2 then 2 else if m == 3 then 0 else 16 }

  /** The interface identifier of a unicast address in mode 1, 2 or 3. */
  function IidOf(m: int, r: seq<byte>, mac: seq<byte>): seq<byte>
    requires 1 <= m <= 3 && |r| >= UnicastWidth(m) && (|mac| == 2 || |mac| == 8)
  {
    if m == 1 then r[..8] else if m == 2 then SHORT_IID + r[..2] else MacIid(mac)
  }

  function SourceWidth(stateful: bool, m: int): nat { if stateful && m == 0 then 0 else UnicastWidth(m) }

  function SourceOf(stateful: bool, m: int, ctx: int, cs: Contexts, r: seq<byte>, mac: seq<byte>): Option<seq<byte>>
    requires 0 <= m <= 3 && 0 <= ctx && |r| >= SourceWidth(stateful, m) && (|mac| == 2 || |mac| == 8)
  {
    if !stateful then
      if m == 0 then Some(r[..16]) else Some(LINK_LOCAL_PREFIX + IidOf(m, r, mac))
    else if m == 0 then Some(seq(16, i => 0))
    else if ctx >= |cs| then None
    else Some(cs[ctx] + IidOf(m, r, mac))
  }

  function MulticastWidth(m: int): nat { if m == 0 then 16 else if m == 1 then 6 else if m == 2 then 4 else 1 }

  /** In mode 2 the flags and scope octet is put into the last octet of the first word, not into the second. */
  function MulticastOf(m: int, r: seq<byte>): seq<byte>
    requires 0 <= m <= 3 && |r| >= MulticastWidth(m)
  {
    if m == 0 then r[..16]
    else if m == 1 then [0xff, r[0], 0, 0, 0, 0, 0, 0, 0, 0, 0] + r[1..6]
    else if m == 2 then [0xff, 0, 0, r[0], 0, 0, 0, 0, 0, 0, 0, 0, 0] + r[1..4]
    else [0xff, 2, 0, 0, 0, 0, 0, 0, 0, 0, 0, 0, 0, 0, 0, r[0]]
  }

  function DestWidth(mc: bool, m: int): nat { if mc then MulticastWidth(m) else UnicastWidth(m) }

  function DestOf(mc: bool, stateful: bool, m: int, ctx: int, cs: Contexts, r: seq<byte>, mac: seq<byte>): Option<seq<byte>>
    requires 0 <= m <= 3 && 0 <= ctx && |r| >= DestWidth(mc, m) && (|mac| == 2 || |mac| == 8)
  {
    if mc then if stateful then None else Some(MulticastOf(m, r))
    else if stateful && ctx >= |cs| then None
    else if m == 0 then Some(r[..16])
    else Some((if stateful then cs[ctx] else LINK_LOCAL_PREFIX) + IidOf(m, r, mac))
  }

  function PortWidth(m: int): nat { if m == 0 then 4 else if m == 3 then 1 else 3 }

  function PortsOf(m: int, r: seq<byte>): seq<byte>
    requires 0 <= m <= 3 && |r| >= PortWidth(m)
  {
    if m == 0 then r[..4]
    else if m == 1 then [r[0], r[1], 0xf0, r[2]]
    else if m == 2 then [0xf0, r[0], r[1], r[2]]
    else [0xf0, 0xb0 + r[0] / 16, 0xf0, 0xb0 + r[0] % 16]
  }

  function Be16(n: int): seq<byte> { [n / 256 % 256, n % 256] }

  /** The decompressed packet from its fields; the payload length is inferred. */
  function Packet(tf: (byte, int), nexth: byte, hop: byte, src: seq<byte>, dst: seq<byte>, body: seq<byte>): seq<byte>
    requires 0 <= tf.1 < 0x10_0000
  {
    [0x60 + tf.0 / 16, tf.0 % 16 * 16 + tf.1 / 65536, tf.1 / 256 % 256, tf.1 % 256]
    + Be16(|body|) + [nexth, hop] + src + dst + body
  }

  /** The base bytes taken apart. */
  datatype Bits = Bits(tf: int, nh: bool, hop: int, cid: bool, sac: bool, sam: int, mc: bool, dac: bool, dam: int)

  function BitsOf(b0: byte, b1: byte): (b: Bits)
    ensures 0 <= b.tf <= 3 && 0 <= b.hop <= 3 && 0 <= b.sam <= 3 && 0 <= b.dam <= 3
  {
    Bits(b0 / 8 % 4, b0 / 4 % 2 == 1, b0 % 4, b1 / 128 == 1, b1 / 64 % 2 == 1, b1 / 16 % 4, b1 / 8 % 2 == 1, b1 / 4 % 2 == 1, b1 % 4)
  }

  /** The octets between the base bytes and the next header part. */
  function InlineWidth(b: Bits): nat {
    Bit(b.cid) + TfWidth(b.tf) + Bit(!b.nh) + Bit(b.hop == 0) + SourceWidth(b.sac, b.sam) + DestWidth(b.mc, b.dam)
  }

  /** A compressed UDP header is there in full. */
  predicate UdpFits(r: seq<byte>) {
    |r| > 0 && (r[0] / 4 == 0x3c ==> 3 + PortWidth(r[0] % 4) <= |r|)
  }

  /** The buffer holds all of the header that its octets announce; the decoder reads it without checking. */
  predicate Complete(buf: seq<byte>) {
    && |buf| >= 2
    && var b := BitsOf(buf[0], buf[1]);
       var w := 2 + InlineWidth(b);
       w <= |buf| && (b.nh ==> UdpFits(buf[w..]))
  }

  /** The UDP header and what follows it, from its compressed form. */
  function UdpBody(r: seq<byte>): Option<seq<byte>>
    requires UdpFits(r)
  {
    if r[0] / 8 != 0x1e || r[0] / 4 % 2 == 1 then None
    else
      var w := 1 + PortWidth(r[0] % 4);
      Some(PortsOf(r[0] % 4, r[1..]) + Be16(|r| - (w + 2) + 8) + r[w..])
  }

  /** The fields before the addresses, and what follows them. */
  datatype Fixed = Fixed(ctx: byte, tf: (byte, int), nexth: byte, hop: byte, rest: seq<byte>)

  function FixedWidth(b: Bits): nat { Bit(b.cid) + TfWidth(b.tf) + Bit(!b.nh) + Bit(b.hop == 0) }

  function FixedOf(b: Bits, r: seq<byte>): (f: Fixed)
    requires 0 <= b.tf <= 3 && 0 <= b.hop <= 3 && |r| >= FixedWidth(b)
    ensures f.rest == r[FixedWidth(b)..] && 0 <= f.tf.1 < 0x10_0000
  {
    var r1 := r[Bit(b.cid)..];
    var r2 := r1[TfWidth(b.tf)..];
    var r3 := r2[Bit(!b.nh)..];
    Fixed(if b.cid then r[0] else 0,
          TfOf(b.tf, r1),
          if b.nh then UDP else r2[0],
          if b.hop == 0 then r3[0] else if b.hop == 1 then 1 else if b.hop == 2 then 64 else 255,
          r3[Bit(b.hop == 0)..])
  }

  /** The packet, once the fields before the addresses are known. */
  function Assemble(b: Bits, f: Fixed, cs: Contexts, smac: seq<byte>, dmac: seq<byte>): Option<seq<byte>>
    requires 0 <= b.sam <= 3 && 0 <= b.dam <= 3 && 0 <= f.tf.1 < 0x10_0000
    requires (|smac| == 2 || |smac| == 8) && (|dmac| == 2 || |dmac| == 8)
    requires var w := SourceWidth(b.sac, b.sam) + DestWidth(b.mc, b.dam); w <= |f.rest| && (b.nh ==> UdpFits(f.rest[w..]))
  {
    var sw := SourceWidth(b.sac, b.sam);
    var r := f.rest[sw + DestWidth(b.mc, b.dam)..];
    var src := SourceOf(b.sac, b.sam, f.ctx / 16, cs, f.rest, smac);
    var dst := DestOf(b.mc, b.dac, b.dam, f.ctx % 16, cs, f.rest[sw..], dmac);
    var body := if b.nh then UdpBody(r) else Some(r);
    if src.None? || dst.None? || body.None? then None
    else Some(Packet(f.tf, f.nexth, f.hop, src.value, dst.value, body.value))
  }

  lemma DropTwice(s: seq<byte>, a: nat, b: nat, c: nat)
    requires a + b + c <= |s|
    ensures s[a..][b..][c..] == s[a + b + c..]
  {
  }

  /** The octets that the base bytes `b` announce are there. */
  predicate HasParts(b: Bits, buf: seq<byte>) {
    var w := SourceWidth(b.sac, b.sam) + DestWidth(b.mc, b.dam);
    && 0 <= b.tf <= 3 && 0 <= b.hop <= 3 && 0 <= b.sam <= 3 && 0 <= b.dam <= 3
    && 2 + FixedWidth(b) <= |buf| && w <= |buf[2..][FixedWidth(b)..]|
    && (b.nh ==> UdpFits(buf[2..][FixedWidth(b)..][w..]))
  }

  lemma CompleteParts(buf: seq<byte>)
    requires Complete(buf)
    ensures HasParts(BitsOf(buf[0], buf[1]), buf)
  {
    hide BitsOf, SourceWidth, DestWidth, TfWidth, UdpFits, Bit;
    var b := BitsOf(buf[0], buf[1]);
    DropTwice(buf, 2, FixedWidth(b), SourceWidth(b.sac, b.sam) + DestWidth(b.mc, b.dam));
  }

  /** The decoder behind the base bytes. */
  function DecodeRest(b: Bits, buf: seq<byte>, cs: Contexts, smac: seq<byte>, dmac: seq<byte>): Option<seq<byte>>
    requires HasParts(b, buf) && (|smac| == 2 || |smac| == 8) && (|dmac| == 2 || |dmac| == 8)
  {
    Assemble(b, FixedOf(b, buf[2..]), cs, smac, dmac)
  }

  /** lowpan6_decompress */
  function Decompress(buf: seq<byte>, cs: Contexts, smac: seq<byte>, dmac: seq<byte>): Option<seq<byte>>
    requires Complete(buf) && (|smac| == 2 || |smac| == 8) && (|dmac| == 2 || |dmac| == 8)
  {
    CompleteParts(buf);
    DecodeRest(BitsOf(buf[0], buf[1]), buf, cs, smac, dmac)
  }

  // ----- Each field survives

  lemma Base0Round(tf: int, nh: bool, hop: int)
    requires 0 <= tf <= 3 && 0 <= hop <= 3
    ensures var b := Base0(tf, nh, hop); b / 8 % 4 == tf && (b / 4 % 2 == 1 <==> nh) && b % 4 == hop
  {
    var b: int := Base0(tf, nh, hop);
    assert b / 4 == 24 + tf * 2 + Bit(nh);
    assert b / 8 == 12 + tf;
  }

  lemma Base1Round(cid: bool, s: Carried, mc: bool, d: Carried)
    requires 0 <= s.mode <= 3 && 0 <= d.mode <= 3
    ensures var b := Base1(cid, s, mc, d);
            && (b / 128 == 1 <==> cid) && (b / 64 % 2 == 1 <==> s.stateful) && b / 16 % 4 == s.mode
            && (b / 8 % 2 == 1 <==> mc) && (b / 4 % 2 == 1 <==> d.stateful) && b % 4 == d.mode
  {
    var b: int := Base1(cid, s, mc, d);
    var c, t, k, e := Bit(cid), Bit(s.stateful), Bit(mc), Bit(d.stateful);
    assert b / 4 == c * 32 + t * 16 + s.mode * 4 + k * 2 + e;
    assert b / 8 == c * 16 + t * 8 + s.mode * 2 + k;
    assert b / 16 == c * 8 + t * 4 + s.mode;
    assert b / 64 == c * 2 + t;
    assert b / 128 == c;
  }

  lemma BitsRound(tf: int, nh: bool, hop: int, cid: bool, s: Carried, mc: bool, d: Carried)
    requires 0 <= tf <= 3 && 0 <= hop <= 3 && 0 <= s.mode <= 3 && 0 <= d.mode <= 3
    ensures BitsOf(Base0(tf, nh, hop), Base1(cid, s, mc, d)) ==
            Bits(tf, nh, hop, cid, s.stateful, s.mode, mc, d.stateful, d.mode)
  {
    Base0Round(tf, nh, hop);
    Base1Round(cid, s, mc, d);
    hide Base0, Base1;
  }

  lemma TfRound(tc: byte, fl: int, z: seq<byte>)
    requires 0 <= fl < 0x10_0000
    ensures |TfBytes(tc, fl)| == TfWidth(TfMode(tc, fl))
    ensures TfOf(TfMode(tc, fl), TfBytes(tc, fl) + z) == (tc, fl)
  {
    var (m, r) := (TfMode(tc, fl), TfBytes(tc, fl) + z);
    FlowRound(fl);
    if m == 0 {
      assert r[0] == tc && r[1] == fl / 65536 && r[2] == fl / 256 % 256 && r[3] == fl % 256;
    } else if m == 1 {
      ClassRound(tc, fl / 65536);
      assert r[0] == tc / 64 * 64 + fl / 65536 && r[1] == fl / 256 % 256 && r[2] == fl % 256;
    } else if m == 2 {
      assert r[0] == tc;
    }
  }

  lemma FlowRound(fl: int)
    requires 0 <= fl < 0x10_0000
    ensures 0 <= fl / 65536 < 16 && fl / 65536 % 16 * 65536 + fl / 256 % 256 * 256 + fl % 256 == fl
  {
    assert fl / 256 / 256 == fl / 65536;
  }

  lemma ClassRound(tc: byte, high: int)
    requires tc as int % 64 == 0 && 0 <= high < 16
    ensures var x := tc as int / 64 * 64 + high; x / 64 * 64 == tc && x % 16 == high
  {
  }

  lemma IidRound(a: seq<byte>, mac: seq<byte>, z: seq<byte>)
    requires |a| == 16 && ValidMac(mac)
    ensures var m := AddressMode(a, mac);
            |UnicastBytes(a, m)| == UnicastWidth(m) && IidOf(m, UnicastBytes(a, m) + z, mac) == a[8..]
  {
    var m := AddressMode(a, mac);
    if m == 2 { assert a[8..] == a[8..14] + a[14..]; }
    assert (UnicastBytes(a, m) + z)[..|UnicastBytes(a, m)|] == UnicastBytes(a, m);
  }

  /** A source address is recovered unless it is link-local outside fe80::/64 and has no context. */
  predicate SourceKept(a: seq<byte>, ctx: int)
    requires |a| == 16
  {
    ctx < 0 && IsLinkLocal(a) ==> a[..8] == LINK_LOCAL_PREFIX
  }

  lemma SourceRound(a: seq<byte>, ctx: int, cs: Contexts, mac: seq<byte>, z: seq<byte>)
    requires |a| == 16 && ValidMac(mac) && ValidContexts(cs)
    requires ctx == Lookup(cs, a[..8])
    ensures var f := SourceField(a, ctx, mac);
            && 0 <= f.mode <= 3 && |f.bytes| == SourceWidth(f.stateful, f.mode)
            && var r := SourceOf(f.stateful, f.mode, if ctx > 0 then ctx else 0, cs, f.bytes + z, mac);
               r.Some? && |r.value| == 16 && (r.value == a <==> SourceKept(a, ctx))
  {
    IidRound(a, mac, z);
    var f := SourceField(a, ctx, mac);
    assert a == a[..8] + a[8..];
    if f.mode == 0 { assert (f.bytes + z)[..|f.bytes|] == f.bytes; }
    var r := SourceOf(f.stateful, f.mode, if ctx > 0 then ctx else 0, cs, f.bytes + z, mac);
    assert ctx < 0 && IsLinkLocal(a) ==> r.value[..8] == LINK_LOCAL_PREFIX;
  }

  /**
   A destination address is recovered exactly when a unicast one is not link-local outside fe80::/64 without a
   context, and a multicast one has no context and is not in the 32-bit form with a flags and scope octet other than 0.
   */
  predicate DestKept(a: seq<byte>, ctx: int)
    requires |a| == 16
  {
    if IsMulticast(a) then ctx < 0 && (MulticastMode(a) == 2 ==> a[1] == 0)
    else ctx < 0 && IsLinkLocal(a) ==> a[..8] == LINK_LOCAL_PREFIX
  }

  lemma MulticastFieldIs(a: seq<byte>)
    requires |a| == 16 && IsMulticast(a)
    ensures var f := DestField(a, -1, []);
            && !f.stateful && f.mode == MulticastMode(a) && 0 <= f.mode <= 3
            && f.bytes == if f.mode == 0 then a
                          else if f.mode == 1 then [a[1]] + a[11..]
                          else if f.mode == 2 then [a[1]] + a[13..]
                          else [a[15]]
  {
  }

  lemma MulticastParts(a: seq<byte>)
    requires |a| == 16 && IsMulticast(a)
    ensures a[0] == 0xff
    ensures MulticastMode(a) == 1 ==> a == [0xff, a[1], 0, 0, 0, 0, 0, 0, 0, 0, 0] + a[11..]
    ensures MulticastMode(a) == 2 ==> a == [0xff, a[1], 0, 0, 0, 0, 0, 0, 0, 0, 0, 0, 0] + a[13..]
    ensures MulticastMode(a) == 3 ==> a == [0xff, 2, 0, 0, 0, 0, 0, 0, 0, 0, 0, 0, 0, 0, 0] + [a[15]]
  {
    assert a == a[..11] + a[11..] && a == a[..13] + a[13..] && a == a[..15] + a[15..];
  }

  lemma MulticastRound(a: seq<byte>, z: seq<byte>)
    requires |a| == 16 && IsMulticast(a)
    ensures var f := DestField(a, -1, []);
            && !f.stateful && 0 <= f.mode <= 3 && |f.bytes| == MulticastWidth(f.mode)
            && |MulticastOf(f.mode, f.bytes + z)| == 16
            && (MulticastOf(f.mode, f.bytes + z) == a <==> (f.mode == 2 ==> a[1] == 0))
  {
    hide DestField, MulticastMode, IsMulticast;
    MulticastFieldIs(a);
    MulticastParts(a);
    var f := DestField(a, -1, []);
    var m := f.mode;
    var r := MulticastOf(m, f.bytes + z);
    if m == 1 {
      assert (f.bytes + z)[1..6] == a[11..];
    } else if m == 2 {
      assert (f.bytes + z)[1..4] == a[13..];
      assert r[1] == 0 && r[3] == a[1];
    }
  }

  lemma DestRound(a: seq<byte>, ctx: int, cs: Contexts, mac: seq<byte>, z: seq<byte>)
    requires |a| == 16 && ValidMac(mac) && ValidContexts(cs)
    requires ctx == Lookup(cs, a[..8])
    ensures var f := DestField(a, ctx, mac);
            && 0 <= f.mode <= 3 && |f.bytes| == DestWidth(IsMulticast(a), f.mode)
            && var r := DestOf(IsMulticast(a), f.stateful, f.mode, if ctx > 0 then ctx else 0, cs, f.bytes + z, mac);
               (r.Some? ==> |r.value| == 16) && (r == Some(a) <==> DestKept(a, ctx))
  {
    if IsMulticast(a) {
      MulticastRound(a, z);
      assert DestField(a, ctx, mac) == DestField(a, -1, []).(stateful := ctx >= 0);
    } else {
      IidRound(a, mac, z);
      var f := DestField(a, ctx, mac);
      assert a == a[..8] + a[8..];
      if f.mode == 0 { assert (f.bytes + z)[..|f.bytes|] == f.bytes; }
      var r := DestOf(false, f.stateful, f.mode, if ctx > 0 then ctx else 0, cs, f.bytes + z, mac);
      assert ctx < 0 && IsLinkLocal(a) ==> r.value[..8] == LINK_LOCAL_PREFIX;
    }
  }

  lemma UdpRound(u: seq<byte>)
    requires |u| >= 8
    ensures var r := UdpBytes(u) + u[8..];
            UdpFits(r) && UdpBody(r) == Some(u[..4] + Be16(|u|) + u[6..])
  {
    var m := PortMode(u);
    var b := UdpBytes(u);
    var r := b + u[8..];
    assert b[0] == 0xf0 + m && |b| == 3 + PortWidth(m);
    assert (0xf0 + m) / 4 == 0x3c && (0xf0 + m) / 8 == 0x1e && (0xf0 + m) % 4 == m;
    assert r[1 + PortWidth(m)..] == u[6..];
    assert PortsOf(m, r[1..]) == u[..4];
  }

  lemma FixedRound(p: seq<byte>, cid: byte, z: seq<byte>, b: Bits)
    requires |p| >= 40
    requires b.cid == (cid != 0) && b.tf == TfMode(TrafficClass(p), FlowLabel(p)) && b.nh == (p[6] == UDP) && b.hop == HopMode(p[7])
    ensures var r := (if cid != 0 then [cid] else [])
                     + (TfBytes(TrafficClass(p), FlowLabel(p))
                        + ((if p[6] == UDP then [] else [p[6]])
                           + ((if HopMode(p[7]) != 0 then [] else [p[7]]) + z)));
            && |r| == FixedWidth(b) + |z|
            && FixedOf(b, r) == Fixed(cid, (TrafficClass(p), FlowLabel(p)), p[6], p[7], z)
  {
    hide TfOf, TfBytes, TfMode, TrafficClass, FlowLabel;
    var tc, fl := TrafficClass(p), FlowLabel(p);
    var t := TfBytes(tc, fl);
    var n := if p[6] == UDP then [] else [p[6]];
    var h := if HopMode(p[7]) != 0 then [] else [p[7]];
    var c := if cid != 0 then [cid] else [];
    TfRound(tc, fl, n + (h + z));
    DropFront(c, t + (n + (h + z)));
    DropFront(t, n + (h + z));
    DropFront(n, h + z);
    DropFront(h, z);
  }

  lemma DropFront(a: seq<byte>, b: seq<byte>)
    ensures (a + b)[|a|..] == b
  {
  }

  /** Version 6, and length fields that say how long the packet is. */
  ghost predicate Consistent(p: seq<byte>) {
    && Sendable(p) && |p| - 40 < 0x1_0000
    && p[0] / 16 == 6 && p[4..6] == Be16(|p| - 40)
    && (p[6] == UDP ==> p[44..46] == Be16(|p| - 40))
  }

  /** What follows the addresses, and what the decoder makes of it. */
  function Tail(p: seq<byte>): seq<byte>
    requires |p| >= 40 && (p[6] == UDP ==> |p| >= 48)
  {
    if p[6] == UDP then UdpBytes(p[40..]) + p[48..] else p[40..]
  }

  lemma TailRound(p: seq<byte>)
    requires Consistent(p)
    ensures p[6] == UDP ==> UdpFits(Tail(p))
    ensures (if p[6] == UDP then UdpBody(Tail(p)) else Some(Tail(p))) == Some(p[40..])
  {
    if p[6] == UDP {
      var u := p[40..];
      UdpRound(u);
      assert u[8..] == p[48..] && u[4..6] == p[44..46];
      assert u == u[..4] + u[4..6] + u[6..];
    }
  }

  /** The fields of a consistent packet put back in their places are the packet. */
  lemma PacketRound(p: seq<byte>)
    requires Consistent(p)
    ensures Packet((TrafficClass(p), FlowLabel(p)), p[6], p[7], Src(p), Dst(p), p[40..]) == p
  {
    var tc: int, fl := TrafficClass(p), FlowLabel(p);
    assert tc / 16 == (p[0] as int) % 16 && tc % 16 == (p[1] as int) / 16;
    assert fl / 65536 == (p[1] as int) % 16 && fl % 256 == p[3] as int;
    assert fl / 256 == (p[1] as int) % 16 * 256 + (p[2] as int);
    var q := Packet((TrafficClass(p), FlowLabel(p)), p[6], p[7], Src(p), Dst(p), p[40..]);
    assert q == q[..4] + Be16(|p[40..]|) + [p[6], p[7]] + p[8..24] + p[24..40] + p[40..];
    assert q[..4] == p[..4];
    assert p == p[..4] + p[4..6] + [p[6], p[7]] + p[8..24] + p[24..40] + p[40..];
  }

  lemma PacketAddresses(tf: (byte, int), n: byte, h: byte, s: seq<byte>, d: seq<byte>, body: seq<byte>)
    requires 0 <= tf.1 < 0x10_0000 && |s| == 16 && |d| == 16
    ensures var q := Packet(tf, n, h, s, d, body); |q| >= 40 && Src(q) == s && Dst(q) == d
  {
  }

  /** The packet survives: both addresses are recovered. */
  predicate Survives(p: seq<byte>, cs: Contexts)
    requires |p| >= 40
  {
    SourceKept(Src(p), Lookup(cs, Src(p)[..8])) && DestKept(Dst(p), Lookup(cs, Dst(p)[..8]))
  }

  lemma PacketEqual(p: seq<byte>, s: seq<byte>, d: seq<byte>)
    requires Consistent(p) && |s| == 16 && |d| == 16
    ensures Packet((TrafficClass(p), FlowLabel(p)), p[6], p[7], s, d, p[40..]) == p <==> s == Src(p) && d == Dst(p)
  {
    PacketRound(p);
    PacketAddresses((TrafficClass(p), FlowLabel(p)), p[6], p[7], s, d, p[40..]);
    hide Packet, TrafficClass, FlowLabel;
  }

  lemma ContextRound(sctx: int, dctx: int)
    requires -1 <= sctx < 16 && -1 <= dctx < 16
    ensures var cb: int := ContextByte(sctx, dctx);
            cb / 16 == (if sctx > 0 then sctx else 0) && cb % 16 == if dctx > 0 then dctx else 0
  {
  }

  /** Assemble, when the two addresses and the body have been decoded. */
  lemma AssembleIs(b: Bits, f: Fixed, cs: Contexts, smac: seq<byte>, dmac: seq<byte>, p: seq<byte>, s: seq<byte>, d: seq<byte>)
    requires Consistent(p) && ValidMac(smac) && ValidMac(dmac) && 0 <= b.sam <= 3 && 0 <= b.dam <= 3 && b.nh == (p[6] == UDP)
    requires |s| == SourceWidth(b.sac, b.sam) && |d| == DestWidth(b.mc, b.dam)
    requires f.rest == s + (d + Tail(p)) && f.tf == (TrafficClass(p), FlowLabel(p)) && f.nexth == p[6] && f.hop == p[7]
    ensures var w := SourceWidth(b.sac, b.sam) + DestWidth(b.mc, b.dam);
            w <= |f.rest| && f.rest[w..] == Tail(p) && (b.nh ==> UdpFits(f.rest[w..]))
    ensures var src := SourceOf(b.sac, b.sam, f.ctx / 16, cs, s + (d + Tail(p)), smac);
            var dst := DestOf(b.mc, b.dac, b.dam, f.ctx % 16, cs, d + Tail(p), dmac);
            Assemble(b, f, cs, smac, dmac) ==
            if src.None? || dst.None? then None else Some(Packet(f.tf, p[6], p[7], src.value, dst.value, p[40..]))
  {
    hide Packet, TrafficClass, FlowLabel, SourceOf, DestOf, UdpBody, UdpFits, Tail, SourceWidth, DestWidth;
    TailRound(p);
    DropFronts(s, d, Tail(p));
  }

  lemma DropFronts(s: seq<byte>, d: seq<byte>, t: seq<byte>)
    ensures (s + (d + t))[|s|..] == d + t && (s + (d + t))[|s| + |d|..] == t
  {
  }

  /** The second part of the decoder undoes the second part of the encoder exactly when the packet survives. */
  lemma AssembleRound(p: seq<byte>, cs: Contexts, smac: seq<byte>, dmac: seq<byte>, b: Bits, f: Fixed)
    requires Consistent(p) && ValidContexts(cs) && ValidMac(smac) && ValidMac(dmac)
    requires var sctx := Lookup(cs, Src(p)[..8]);
             var dctx := Lookup(cs, Dst(p)[..8]);
             var s := SourceField(Src(p), sctx, smac);
             var d := DestField(Dst(p), dctx, dmac);
             && b.nh == (p[6] == UDP) && b.sac == s.stateful && b.sam == s.mode && b.mc == IsMulticast(Dst(p))
             && b.dac == d.stateful && b.dam == d.mode
             && f == Fixed(ContextByte(sctx, dctx), (TrafficClass(p), FlowLabel(p)), p[6], p[7], s.bytes + (d.bytes + Tail(p)))
    ensures var w := SourceWidth(b.sac, b.sam) + DestWidth(b.mc, b.dam);
            && 0 <= b.sam <= 3 && 0 <= b.dam <= 3 && w <= |f.rest| && f.rest[w..] == Tail(p)
            && (b.nh ==> UdpFits(f.rest[w..]))
            && (Assemble(b, f, cs, smac, dmac) == Some(p) <==> Survives(p, cs))
  {
    hide SourceField, DestField, SourceOf, DestOf, Tail, Packet, TrafficClass, FlowLabel, SourceKept, DestKept, UdpFits, Lookup,
      ContextByte, Assemble, SourceWidth, DestWidth;
    var sctx, dctx := Lookup(cs, Src(p)[..8]), Lookup(cs, Dst(p)[..8]);
    var s := SourceField(Src(p), sctx, smac);
    var d := DestField(Dst(p), dctx, dmac);
    ContextRound(sctx, dctx);
    SourceRound(Src(p), sctx, cs, smac, d.bytes + Tail(p));
    DestRound(Dst(p), dctx, cs, dmac, Tail(p));
    AssembleIs(b, f, cs, smac, dmac, p, s.bytes, d.bytes);
    var src := SourceOf(b.sac, b.sam, f.ctx / 16, cs, s.bytes + (d.bytes + Tail(p)), smac);
    var dst := DestOf(b.mc, b.dac, b.dam, f.ctx % 16, cs, d.bytes + Tail(p), dmac);
    if dst.Some? { PacketEqual(p, src.value, dst.value); }
  }

  /**
   The round trip: a consistent packet that is compressed and decompressed comes back octet for octet exactly when it
   survives. Only addresses can be lost, and only in the three forms that SourceKept and DestKept exclude.
   */
  lemma RoundTrip(p: seq<byte>, cs: Contexts, smac: seq<byte>, dmac: seq<byte>)
    requires Consistent(p) && ValidContexts(cs) && ValidMac(smac) && ValidMac(dmac)
    ensures Complete(Compress(p, cs, smac, dmac))
    ensures Decompress(Compress(p, cs, smac, dmac), cs, smac, dmac) == Some(p) <==> Survives(p, cs)
  {
    hide SourceField, DestField, TfBytes, TfMode, HopMode, TrafficClass, FlowLabel, Lookup, ContextByte, Base0, Base1, BitsOf,
      Assemble, Survives, UdpFits, FixedOf, FixedWidth, SourceWidth, DestWidth, TfWidth, Tail;
    var sctx, dctx := Lookup(cs, Src(p)[..8]), Lookup(cs, Dst(p)[..8]);
    var cid := ContextByte(sctx, dctx);
    var s := SourceField(Src(p), sctx, smac);
    var d := DestField(Dst(p), dctx, dmac);
    SourceRound(Src(p), sctx, cs, smac, []);
    DestRound(Dst(p), dctx, cs, dmac, []);
    var tf := TfMode(TrafficClass(p), FlowLabel(p));
    BitsRound(tf, p[6] == UDP, HopMode(p[7]), cid != 0, s, IsMulticast(Dst(p)), d);
    var b := Bits(tf, p[6] == UDP, HopMode(p[7]), cid != 0, s.stateful, s.mode, IsMulticast(Dst(p)), d.stateful, d.mode);
    var z := s.bytes + (d.bytes + Tail(p));
    FixedRound(p, cid, z, b);
    var buf := Compress(p, cs, smac, dmac);
    CompressIs(p, cs, smac, dmac);
    var f := Fixed(cid, (TrafficClass(p), FlowLabel(p)), p[6], p[7], z);
    AssembleRound(p, cs, smac, dmac, b, f);
    RestRound(buf, b, z);
  }

  lemma CompressIs(p: seq<byte>, cs: Contexts, smac: seq<byte>, dmac: seq<byte>)
    requires |p| >= 40 && (p[6] == UDP ==> |p| >= 48) && |cs| <= 16
    ensures var sctx := Lookup(cs, Src(p)[..8]);
            var dctx := Lookup(cs, Dst(p)[..8]);
            var cid := ContextByte(sctx, dctx);
            var s := SourceField(Src(p), sctx, smac);
            var d := DestField(Dst(p), dctx, dmac);
            var tf := TfMode(TrafficClass(p), FlowLabel(p));
            var buf := Compress(p, cs, smac, dmac);
            && |buf| >= 2
            && buf[0] == Base0(tf, p[6] == UDP, HopMode(p[7])) && buf[1] == Base1(cid != 0, s, IsMulticast(Dst(p)), d)
            && buf[2..] == (if cid != 0 then [cid] else [])
                           + (TfBytes(TrafficClass(p), FlowLabel(p))
                              + ((if p[6] == UDP then [] else [p[6]])
                                 + ((if HopMode(p[7]) != 0 then [] else [p[7]]) + (s.bytes + (d.bytes + Tail(p))))))
  {
  }

  lemma RestRound(buf: seq<byte>, b: Bits, z: seq<byte>)
    requires |buf| >= 2 && |buf[2..]| == FixedWidth(b) + |z| && buf[2..][FixedWidth(b)..] == z
    requires SourceWidth(b.sac, b.sam) + DestWidth(b.mc, b.dam) <= |z|
    ensures 2 + InlineWidth(b) <= |buf| && buf[2 + InlineWidth(b)..] == z[SourceWidth(b.sac, b.sam) + DestWidth(b.mc, b.dam)..]
  {
    assert InlineWidth(b) == FixedWidth(b) + SourceWidth(b.sac, b.sam) + DestWidth(b.mc, b.dam);
  }

  /** The 32-bit multicast form of ff05::1:3, the address of all DHCP servers on a site, comes back as ff00:5::1:3. */
  lemma SiteMulticastIsLost()
    ensures var a: seq<byte> := [0xff, 5, 0, 0, 0, 0, 0, 0, 0, 0, 0, 0, 0, 1, 0, 3];
            && MulticastMode(a) == 2 && !DestKept(a, -1)
            && MulticastOf(2, DestField(a, -1, []).bytes) == [0xff, 0, 0, 5, 0, 0, 0, 0, 0, 0, 0, 0, 0, 1, 0, 3]
  {
    var a: seq<byte> := [0xff, 5, 0, 0, 0, 0, 0, 0, 0, 0, 0, 0, 0, 1, 0, 3];
    assert a[..15][1] == 5;
    assert a[2..8] == [0, 0, 0, 0, 0, 0] && a[8..13] == [0, 0, 0, 0, 0] && a[13..] == [1, 0, 3];
    assert MulticastMode(a) == 2;
    assert !DestKept(a, -1);
    assert DestField(a, -1, []).bytes == [5, 1, 0, 3];
    hide DestField, DestKept, MulticastMode;
    assert [5, 1, 0, 3][1..4] == [1, 0, 3];
  }

  /** Every link-local address without context comes back in fe80::/64, whatever its own prefix. */
  lemma PrefixIsLost(a: seq<byte>, cs: Contexts, mac: seq<byte>, z: seq<byte>)
    requires |a| == 16 && IsLinkLocal(a) && ValidMac(mac) && ValidContexts(cs) && Lookup(cs, a[..8]) == -1
    ensures var f := SourceField(a, -1, mac);
            && !f.stateful && 1 <= f.mode <= 3 && |f.bytes| == SourceWidth(false, f.mode)
            && SourceOf(false, f.mode, 0, cs, f.bytes + z, mac) == Some(LINK_LOCAL_PREFIX + a[8..])
  {
    IidRound(a, mac, z);
  }

  /** fe80:0:0:1::2 comes back as fe80::2. */
  lemma LinkLocalIsLost()
    ensures var a: seq<byte> := [0xfe, 0x80, 0, 0, 0, 0, 0, 1, 0, 0, 0, 0, 0, 0, 0, 2];
            IsLinkLocal(a) && !SourceKept(a, -1) && !DestKept(a, -1)
            && LINK_LOCAL_PREFIX + a[8..] == [0xfe, 0x80, 0, 0, 0, 0, 0, 0, 0, 0, 0, 0, 0, 0, 0, 2]
  {
    var a: seq<byte> := [0xfe, 0x80, 0, 0, 0, 0, 0, 1, 0, 0, 0, 0, 0, 0, 0, 2];
    assert a[..8][7] == 1;
    assert a[8..] == [0, 0, 0, 0, 0, 0, 0, 2];
  }

  /** With the context ff3e:40:2001:db8::/64, the multicast address ff3e:40:2001:db8::1 is sent in a form that is refused. */
  lemma ContextMulticastIsLost(mac: seq<byte>)
    requires ValidMac(mac)
    ensures var prefix: seq<byte> := [0xff, 0x3e, 0, 0x40, 0x20, 1, 0xd, 0xb8];
            var a := prefix + [0, 0, 0, 0, 0, 0, 0, 1];
            var f := DestField(a, Lookup([prefix], a[..8]), mac);
            IsMulticast(a) && f.stateful && f.mode == 0 && DestOf(true, true, 0, 0, [prefix], f.bytes, mac) == None
  {
    var prefix: seq<byte> := [0xff, 0x3e, 0, 0x40, 0x20, 1, 0xd, 0xb8];
    var a := prefix + [0, 0, 0, 0, 0, 0, 0, 1];
    assert a[..8] == prefix;
    assert Lookup([prefix], a[..8]) == 0;
    assert a[2..8][1] == 0x40;
    assert a[..15][1] == 0x3e;
  }
}
