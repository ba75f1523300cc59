/**
 What the octets of a compressed header mean, as the tables of RFC 6282 (sections 3.1, 3.2 and 4.3) give it:
 relations between octets and header fields, without reference to how they are encoded or decoded. The decoder
 obeys them for every buffer, and the encoder picks the shortest form of every field.
 */
module IphcFormat {
  import opened Bytes
  import opened Iphc
  import opened IphcCode

  // ----- Interface identifiers

  /** `x` is `b` with just the universal/local bit, the second lowest, complemented. */
  predicate LocalBitDiffers(b: byte, x: byte) {
    x / 4 == b / 4 && x % 2 == b % 2 && x / 2 % 2 != b / 2 % 2
  }

  lemma FlipLocalIs(b: byte, x: byte)
    ensures LocalBitDiffers(b, x) <==> x == FlipLocal(b)
  {
    assert x == x / 4 * 4 + x / 2 % 2 * 2 + x % 2 && b == b / 4 * 4 + b / 2 % 2 * 2 + b % 2;
  }

  /** The interface identifier of a link address: ::ff:fe00:XXXX for a short one, EUI-64 with that bit changed for a long one. */
  predicate FromMac(iid: seq<byte>, mac: seq<byte>) {
    |iid| == 8
    && if |mac| == 2 then iid == [0, 0, 0, 0xff, 0xfe, 0, mac[0], mac[1]]
       else |mac| == 8 && LocalBitDiffers(mac[0], iid[0]) && iid[1..] == mac[1..]
  }

  lemma MacIidIs(iid: seq<byte>, mac: seq<byte>)
    requires ValidMac(mac)
    ensures FromMac(iid, mac) <==> iid == MacIid(mac)
  {
    if |mac| == 2 {
      assert mac == [mac[0], mac[1]];
    } else {
      if |iid| == 8 {
        FlipLocalIs(mac[0], iid[0]);
        assert iid == [iid[0]] + iid[1..];
      }
      assert MacIid(mac)[1..] == mac[1..];
    }
  }

  predicate IidSays(m: int, r: seq<byte>, at: nat, mac: seq<byte>, iid: seq<byte>) {
    match m
    case 1 => at + 8 <= |r| && iid == r[at..at + 8]
    case 2 => at + 2 <= |r| && iid == [0, 0, 0, 0xff, 0xfe, 0, r[at], r[at + 1]]
    case _ => FromMac(iid, mac)
  }

  lemma IidDecodes(m: int, r: seq<byte>, at: nat, mac: seq<byte>)
    requires 1 <= m <= 3 && at + UnicastWidth(m) <= |r| && ValidMac(mac)
    ensures |IidOf(m, r[at..], mac)| == 8 && IidSays(m, r, at, mac, IidOf(m, r[at..], mac))
  {
    if m == 1 {
      assert r[at..][..8] == r[at..at + 8];
    } else if m == 2 {
      assert r[at..][..2] == [r[at], r[at + 1]];
    } else {
      MacIidIs(MacIid(mac), mac);
    }
  }

  // ----- Addresses

  predicate SourceSays(stateful: bool, m: int, ctx: int, r: seq<byte>, at: nat, cs: Contexts, mac: seq<byte>, a: seq<byte>) {
    |a| == 16
    && if m == 0 then
         if stateful then forall i :: 0 <= i < 16 ==> a[i] == 0 else at + 16 <= |r| && a == r[at..at + 16]
       else
         && (if stateful then 0 <= ctx < |cs| && a[..8] == cs[ctx] else a[..8] == [0xfe, 0x80, 0, 0, 0, 0, 0, 0])
         && IidSays(m, r, at, mac, a[8..])
  }

  lemma SourceDecodes(stateful: bool, m: int, ctx: int, r: seq<byte>, at: nat, cs: Contexts, mac: seq<byte>)
    requires 0 <= m <= 3 && 0 <= ctx && at + SourceWidth(stateful, m) <= |r| && ValidMac(mac) && ValidContexts(cs)
    ensures var a := SourceOf(stateful, m, ctx, cs, r[at..], mac);
            && (a.None? <==> stateful && m != 0 && ctx >= |cs|)
            && (a.Some? ==> SourceSays(stateful, m, ctx, r, at, cs, mac, a.value))
  {
    if m > 0 {
      IidDecodes(m, r, at, mac);
    } else if !stateful {
      assert r[at..][..16] == r[at..at + 16];
    }
  }

  predicate MulticastSays(m: int, r: seq<byte>, at: nat, a: seq<byte>) {
    && at + MulticastWidth(m) <= |r| && |a| == 16
    && match m
       case 0 => a == r[at..at + 16]
       case 1 => a == [0xff, r[at], 0, 0, 0, 0, 0, 0, 0, 0, 0, r[at + 1], r[at + 2], r[at + 3], r[at + 4], r[at + 5]]
       case 2 => a == [0xff, 0, 0, r[at], 0, 0, 0, 0, 0, 0, 0, 0, 0, r[at + 1], r[at + 2], r[at + 3]]
       case _ => a == [0xff, 2, 0, 0, 0, 0, 0, 0, 0, 0, 0, 0, 0, 0, 0, r[at]]
  }

  lemma MulticastDecodes(m: int, r: seq<byte>, at: nat)
    requires 0 <= m <= 3 && at + MulticastWidth(m) <= |r|
    ensures MulticastSays(m, r, at, MulticastOf(m, r[at..]))
  {
    if m == 0 {
      assert r[at..][..16] == r[at..at + 16];
    } else if m == 1 {
      assert r[at..][1..6] == [r[at + 1], r[at + 2], r[at + 3], r[at + 4], r[at + 5]];
    } else if m == 2 {
      assert r[at..][1..4] == [r[at + 1], r[at + 2], r[at + 3]];
    }
  }

  predicate DestSays(mc: bool, stateful: bool, m: int, ctx: int, r: seq<byte>, at: nat, cs: Contexts, mac: seq<byte>, a: seq<byte>) {
    |a| == 16
    && if mc then MulticastSays(m, r, at, a)
       else if m == 0 then at + 16 <= |r| && a == r[at..at + 16]
       else
         && (if stateful then 0 <= ctx < |cs| && a[..8] == cs[ctx] else a[..8] == [0xfe, 0x80, 0, 0, 0, 0, 0, 0])
         && IidSays(m, r, at, mac, a[8..])
  }

  lemma DestDecodes(mc: bool, stateful: bool, m: int, ctx: int, r: seq<byte>, at: nat, cs: Contexts, mac: seq<byte>)
    requires 0 <= m <= 3 && 0 <= ctx && at + DestWidth(mc, m) <= |r| && ValidMac(mac) && ValidContexts(cs)
    ensures var a := DestOf(mc, stateful, m, ctx, cs, r[at..], mac);
            && (a.None? <==> stateful && (mc || ctx >= |cs|))
            && (a.Some? ==> DestSays(mc, stateful, m, ctx, r, at, cs, mac, a.value))
  {
    if mc {
      MulticastDecodes(m, r, at);
    } else if m > 0 {
      IidDecodes(m, r, at, mac);
    } else {
      assert r[at..][..16] == r[at..at + 16];
    }
  }

  // ----- The other fields

  predicate TfSays(m: int, r: seq<byte>, at: nat, tc: byte, fl: int) {
    match m
    case 0 => at + 4 <= |r| && tc == r[at] && fl == (r[at + 1] as int) % 16 * 65536 + (r[at + 2] as int) * 256 + (r[at + 3] as int)
    case 1 => at + 3 <= |r| && tc == r[at] / 64 * 64 && fl == (r[at] as int) % 16 * 65536 + (r[at + 1] as int) * 256 + (r[at + 2] as int)
    case 2 => at + 1 <= |r| && tc == r[at] && fl == 0
    case _ => tc == 0 && fl == 0
  }

  predicate HopSays(m: int, r: seq<byte>, at: nat, hop: byte) {
    match m
    case 0 => at < |r| && hop == r[at]
    case 1 => hop == 1
    case 2 => hop == 64
    case _ => hop == 255
  }

  predicate PortsSay(m: int, r: seq<byte>, at: nat, ports: seq<byte>) {
    && at + PortWidth(m) <= |r|
    && match m
       case 0 => ports == r[at..at + 4]
       case 1 => ports == [r[at], r[at + 1], 0xf0, r[at + 2]]
       case 2 => ports == [0xf0, r[at], r[at + 1], r[at + 2]]
       case _ => ports == [0xf0, 0xb0 + r[at] / 16, 0xf0, 0xb0 + r[at] % 16]
  }

  /** The UDP header and payload: 11110, no elided checksum, the port form, ports, checksum; the length is that of the rest. */
  predicate UdpSays(r: seq<byte>, at: nat, u: seq<byte>) {
    && at < |r| && r[at] / 4 == 0x3c && PortsSay(r[at] % 4, r, at + 1, if |u| >= 4 then u[..4] else [])
    && var w := at + 1 + PortWidth(r[at] % 4);
       w + 2 <= |r| && |u| == |r| - (w + 2) + 8 && u[4..6] == Be16(|u|) && u[6..] == r[w..]
  }

  lemma UdpDecodes(r: seq<byte>, at: nat)
    requires at <= |r| && UdpFits(r[at..])
    ensures var u := UdpBody(r[at..]); (u.None? <==> r[at] / 4 != 0x3c) && (u.Some? ==> UdpSays(r, at, u.value))
  {
    var s := r[at..];
    assert s[0] == r[at];
    assert r[at] / 8 == 0x1e && r[at] / 4 % 2 == 0 <==> r[at] / 4 == 0x3c;
    var m := r[at] % 4;
    if r[at] / 4 == 0x3c {
      var w := 1 + PortWidth(m);
      var u := PortsOf(m, s[1..]) + Be16(|s| - (w + 2) + 8) + s[w..];
      assert s[w..] == r[at + w..] && |PortsOf(m, s[1..])| == 4;
      assert u[..4] == PortsOf(m, s[1..]) && u[4..6] == Be16(|s| - (w + 2) + 8) && u[6..] == s[w..];
      PortsDecode(m, r, at + 1, s[1..]);
    }
  }

  lemma PortsDecode(m: int, r: seq<byte>, at: nat, s: seq<byte>)
    requires 0 <= m <= 3 && at + PortWidth(m) <= |r| && s == r[at..]
    ensures PortsSay(m, r, at, PortsOf(m, s))
  {
    if m == 0 { assert s[..4] == r[at..at + 4]; }
  }

  // ----- The whole header

  /** Where the fields stand behind the base bytes: traffic class and flow label, next header, hop limit, addresses, the rest. */
  function TfAt(r: seq<byte>): nat
    requires |r| >= 2
  {
    if r[1] / 128 == 1 then 3 else 2
  }

  function NextAt(r: seq<byte>): nat
    requires |r| >= 2
  {
    TfAt(r) + (match r[0] / 8 % 4 case 0 => 4 case 1 => 3 case 2 => 1 case _ => 0)
  }

  function HopAt(r: seq<byte>): nat
    requires |r| >= 2
  {
    NextAt(r) + if r[0] / 4 % 2 == 0 then 1 else 0
  }

  function SourceAt(r: seq<byte>): nat
    requires |r| >= 2
  {
    HopAt(r) + if r[0] % 4 == 0 then 1 else 0
  }

  function DestAt(r: seq<byte>): nat
    requires |r| >= 2
  {
    SourceAt(r)
    + match r[1] / 16 % 4
      case 0 => if r[1] / 64 % 2 == 1 then 0 else 16
      case 1 => 8
      case 2 => 2
      case _ => 0
  }

  function RestAt(r: seq<byte>): nat
    requires |r| >= 2
  {
    DestAt(r)
    + match r[1] % 4
      case 0 => 16
      case 1 => if r[1] / 8 % 2 == 1 then 6 else 8
      case 2 => if r[1] / 8 % 2 == 1 then 4 else 2
      case _ => if r[1] / 8 % 2 == 1 then 1 else 0
  }

  /** The context numbers for source and destination. */
  function SourceContext(r: seq<byte>): int
    requires |r| >= 2
  {
    if r[1] / 128 == 1 && |r| > 2 then r[2] / 16 else 0
  }

  function DestContext(r: seq<byte>): int
    requires |r| >= 2
  {
    if r[1] / 128 == 1 && |r| > 2 then r[2] % 16 else 0
  }

  /** The octets `r` stand for the packet `p`. */
  predicate Stands(r: seq<byte>, p: seq<byte>, cs: Contexts, smac: seq<byte>, dmac: seq<byte>) {
    && |r| >= 2 && |p| >= 40 && RestAt(r) <= |r| && HopAt(r) <= |r|
    && p[0] / 16 == 6 && p[4..6] == Be16(|p| - 40)
    && TfSays(r[0] / 8 % 4, r, TfAt(r), TrafficClass(p), FlowLabel(p))
    && (if r[0] / 4 % 2 == 1 then p[6] == 17 else p[6] == r[NextAt(r)])
    && HopSays(r[0] % 4, r, HopAt(r), p[7])
    && SourceSays(r[1] / 64 % 2 == 1, r[1] / 16 % 4, SourceContext(r), r, SourceAt(r), cs, smac, p[8..24])
    && DestSays(r[1] / 8 % 2 == 1, r[1] / 4 % 2 == 1, r[1] % 4, DestContext(r), r, DestAt(r), cs, dmac, p[24..40])
    && (if r[0] / 4 % 2 == 1 then UdpSays(r, RestAt(r), p[40..]) else p[40..] == r[RestAt(r)..])
  }

  /** The header asks for what this decoder does not have: a context, stateful multicast, or another header compression. */
  predicate Refused(r: seq<byte>, cs: Contexts)
    requires |r| >= 2 && RestAt(r) <= |r|
  {
    || (r[1] / 64 % 2 == 1 && r[1] / 16 % 4 != 0 && SourceContext(r) >= |cs|)
    || (r[1] / 4 % 2 == 1 && (r[1] / 8 % 2 == 1 || DestContext(r) >= |cs|))
    || (r[0] / 4 % 2 == 1 && RestAt(r) < |r| && r[RestAt(r)] / 4 != 0x3c)
  }

  lemma OffsetsAre(buf: seq<byte>)
    requires Complete(buf)
    ensures var b := BitsOf(buf[0], buf[1]);
            && TfAt(buf) == 2 + Bit(b.cid) && NextAt(buf) == TfAt(buf) + TfWidth(b.tf) && HopAt(buf) == NextAt(buf) + Bit(!b.nh)
            && SourceAt(buf) == 2 + FixedWidth(b) && DestAt(buf) == SourceAt(buf) + SourceWidth(b.sac, b.sam)
            && RestAt(buf) == DestAt(buf) + DestWidth(b.mc, b.dam) <= |buf| && HopAt(buf) <= SourceAt(buf) <= RestAt(buf)
            && (b.nh ==> UdpFits(buf[RestAt(buf)..])) && (b.nh <==> buf[0] / 4 % 2 == 1)
            && (!b.nh ==> NextAt(buf) < |buf|) && (b.hop == 0 ==> HopAt(buf) < |buf|) && (b.cid ==> |buf| > 2)
  {
    CompleteWidths(buf);
    hide UdpFits, Complete;
  }

  lemma BitsSay(buf: seq<byte>)
    requires |buf| >= 2
    ensures var b := BitsOf(buf[0], buf[1]);
            && b.tf == buf[0] / 8 % 4 && (b.nh <==> buf[0] / 4 % 2 == 1) && b.hop == buf[0] % 4 && (b.cid <==> buf[1] / 128 == 1)
            && (b.sac <==> buf[1] / 64 % 2 == 1) && b.sam == buf[1] / 16 % 4 && (b.mc <==> buf[1] / 8 % 2 == 1)
            && (b.dac <==> buf[1] / 4 % 2 == 1) && b.dam == buf[1] % 4
  {
  }

  lemma TfDecodes(m: int, r: seq<byte>, at: nat)
    requires 0 <= m <= 3 && at + TfWidth(m) <= |r|
    ensures var (tc, fl) := TfOf(m, r[at..]); TfSays(m, r, at, tc, fl)
  {
  }

  lemma ContextsAre(buf: seq<byte>, b: Bits)
    requires |buf| >= 2 && b == BitsOf(buf[0], buf[1]) && (b.cid ==> |buf| > 2)
    ensures var ctx: int := if b.cid then buf[2] else 0; ctx / 16 == SourceContext(buf) && ctx % 16 == DestContext(buf)
  {
  }

  lemma FixedDecodes(buf: seq<byte>)
    requires Complete(buf)
    ensures var (b, f) := (BitsOf(buf[0], buf[1]), FixedOf(BitsOf(buf[0], buf[1]), buf[2..]));
            && f.ctx / 16 == SourceContext(buf) && f.ctx % 16 == DestContext(buf)
            && TfSays(b.tf, buf, TfAt(buf), f.tf.0, f.tf.1) && HopSays(b.hop, buf, HopAt(buf), f.hop) && HopAt(buf) <= |buf|
            && (if b.nh then f.nexth == 17 else NextAt(buf) < |buf| && f.nexth == buf[NextAt(buf)])
  {
    assert |buf| >= 2;
    hide UdpFits, Complete, FixedOf, BitsOf, TfOf, TfSays, TfAt, NextAt, HopAt, SourceAt, DestAt, RestAt, SourceContext, DestContext,
      TfWidth, SourceWidth, DestWidth, FixedWidth;
    var b := BitsOf(buf[0], buf[1]);
    OffsetsAre(buf);
    CompleteWidths(buf);
    FixedAt(buf, b);
    TfDecodes(b.tf, buf, TfAt(buf));
    ContextsAre(buf, b);
  }

  lemma PacketFields(tc: byte, fl: int, next: byte, hop: byte, src: seq<byte>, dst: seq<byte>, body: seq<byte>)
    requires 0 <= fl < 0x10_0000 && |src| == 16 && |dst| == 16
    ensures var p := Packet((tc, fl), next, hop, src, dst, body);
            && |p| == 40 + |body| && p[0] / 16 == 6 && p[4..6] == Be16(|body|) && p[6] == next && p[7] == hop
            && TrafficClass(p) == tc && FlowLabel(p) == fl && p[8..24] == src && p[24..40] == dst && p[40..] == body
  {
    var p := Packet((tc, fl), next, hop, src, dst, body);
    assert p[..4] == [0x60 + tc / 16, tc % 16 * 16 + fl / 65536, fl / 256 % 256, fl % 256];
    assert p[0] == p[..4][0] && p[1] == p[..4][1] && p[2] == p[..4][2] && p[3] == p[..4][3];
    ClassIs(tc, fl);
  }

  lemma ClassIs(tc: byte, fl: int)
    requires 0 <= fl < 0x10_0000
    ensures var (a: int, b: int) := (0x60 + tc / 16, tc % 16 * 16 + fl / 65536);
            && a / 16 == 6 && a % 16 * 16 + b / 16 == tc && b % 16 == fl / 65536
            && b % 16 * 65536 + fl / 256 % 256 * 256 + fl % 256 == fl
  {
    FlowRound(fl);
  }

  /** For every buffer that holds what it announces: the decoder refuses exactly what it must, and else yields what the octets stand for. */
  lemma DecodesByTheTables(buf: seq<byte>, cs: Contexts, smac: seq<byte>, dmac: seq<byte>)
    requires Complete(buf) && ValidContexts(cs) && ValidMac(smac) && ValidMac(dmac)
    ensures RestAt(buf) <= |buf| && (Decompress(buf, cs, smac, dmac).None? <==> Refused(buf, cs))
    ensures var p := Decompress(buf, cs, smac, dmac); p.Some? ==> Stands(buf, p.value, cs, smac, dmac)
  {
    assert |buf| >= 2;
    hide Complete, FixedOf, FixedWidth, SourceOf, DestOf, UdpBody, UdpFits, SourceWidth, DestWidth, TfWidth, HasParts, Packet, BitsOf,
      TfSays, HopSays, SourceSays, DestSays, UdpSays, TfAt, NextAt, HopAt, SourceAt, DestAt, RestAt, SourceContext, DestContext,
      TrafficClass, FlowLabel, Decompress, Stands, Refused;
    var b := BitsOf(buf[0], buf[1]);
    OffsetsAre(buf);
    CompleteParts(buf);
    var f := FixedOf(b, buf[2..]);
    FixedDecodes(buf);
    DecompressAt(buf, cs, smac, dmac, b, f, SourceAt(buf), DestAt(buf), RestAt(buf));
    SourceDecodes(b.sac, b.sam, f.ctx / 16, buf, SourceAt(buf), cs, smac);
    DestDecodes(b.mc, b.dac, b.dam, f.ctx % 16, buf, DestAt(buf), cs, dmac);
    var src := SourceOf(b.sac, b.sam, f.ctx / 16, cs, buf[SourceAt(buf)..], smac);
    var dst := DestOf(b.mc, b.dac, b.dam, f.ctx % 16, cs, buf[DestAt(buf)..], dmac);
    BodyDecodes(buf, RestAt(buf), b.nh);
    var body := if b.nh then UdpBody(buf[RestAt(buf)..]) else Some(buf[RestAt(buf)..]);
    RefusedIs(buf, cs, b);
    if src.Some? && dst.Some? && body.Some? {
      StandsIs(buf, cs, smac, dmac, b, f, src.value, dst.value, body.value);
    }
  }

  lemma BodyDecodes(r: seq<byte>, at: nat, nh: bool)
    requires at <= |r| && (nh ==> UdpFits(r[at..]))
    ensures var u := if nh then UdpBody(r[at..]) else Some(r[at..]);
            && (u.None? <==> nh && at < |r| && r[at] / 4 != 0x3c)
            && (u.Some? ==> if nh then UdpSays(r, at, u.value) else u.value == r[at..])
  {
    hide UdpBody, UdpSays, UdpFits;
    if nh { UdpDecodes(r, at); UdpPresent(r[at..]); }
  }

  lemma RefusedIs(buf: seq<byte>, cs: Contexts, b: Bits)
    requires |buf| >= 2 && RestAt(buf) <= |buf| && b == BitsOf(buf[0], buf[1])
    ensures Refused(buf, cs) <==>
            || (b.sac && b.sam != 0 && SourceContext(buf) >= |cs|)
            || (b.dac && (b.mc || DestContext(buf) >= |cs|))
            || (b.nh && RestAt(buf) < |buf| && buf[RestAt(buf)] / 4 != 0x3c)
  {
    hide BitsOf, RestAt, SourceContext, DestContext;
    BitsSay(buf);
  }

  lemma StandsIs(buf: seq<byte>, cs: Contexts, smac: seq<byte>, dmac: seq<byte>, b: Bits, f: Fixed,
                 src: seq<byte>, dst: seq<byte>, body: seq<byte>)
    requires |buf| >= 2 && b == BitsOf(buf[0], buf[1]) && RestAt(buf) <= |buf| && HopAt(buf) <= |buf| && 0 <= f.tf.1 < 0x10_0000
    requires TfSays(b.tf, buf, TfAt(buf), f.tf.0, f.tf.1) && HopSays(b.hop, buf, HopAt(buf), f.hop)
    requires if b.nh then f.nexth == 17 else NextAt(buf) < |buf| && f.nexth == buf[NextAt(buf)]
    requires SourceSays(b.sac, b.sam, SourceContext(buf), buf, SourceAt(buf), cs, smac, src)
    requires DestSays(b.mc, b.dac, b.dam, DestContext(buf), buf, DestAt(buf), cs, dmac, dst)
    requires if b.nh then UdpSays(buf, RestAt(buf), body) else body == buf[RestAt(buf)..]
    ensures Stands(buf, Packet(f.tf, f.nexth, f.hop, src, dst, body), cs, smac, dmac)
  {
    hide BitsOf, TfSays, HopSays, SourceSays, DestSays, UdpSays, TfAt, NextAt, HopAt, SourceAt, DestAt, RestAt, SourceContext,
      DestContext, TrafficClass, FlowLabel, Packet, Be16;
    BitsSay(buf);
    SourceIs16(b.sac, b.sam, SourceContext(buf), buf, SourceAt(buf), cs, smac, src);
    DestIs16(b.mc, b.dac, b.dam, DestContext(buf), buf, DestAt(buf), cs, dmac, dst);
    PacketFields(f.tf.0, f.tf.1, f.nexth, f.hop, src, dst, body);
  }

  /** So the compressed form of a packet that survives stands for that packet. */
  lemma CompressedStands(p: seq<byte>, cs: Contexts, smac: seq<byte>, dmac: seq<byte>)
    requires Consistent(p) && ValidContexts(cs) && ValidMac(smac) && ValidMac(dmac) && Survives(p, cs)
    ensures Stands(Compress(p, cs, smac, dmac), p, cs, smac, dmac)
  {
    hide Compress, Decompress, Complete, Survives, Stands;
    RoundTrip(p, cs, smac, dmac);
    DecodesByTheTables(Compress(p, cs, smac, dmac), cs, smac, dmac);
  }

  lemma UdpPresent(r: seq<byte>)
    requires UdpFits(r)
    ensures |r| > 0
  {
  }

  lemma SourceIs16(st: bool, m: int, ctx: int, r: seq<byte>, at: nat, cs: Contexts, mac: seq<byte>, a: seq<byte>)
    requires SourceSays(st, m, ctx, r, at, cs, mac, a)
    ensures |a| == 16
  {
  }

  lemma DestIs16(mc: bool, st: bool, m: int, ctx: int, r: seq<byte>, at: nat, cs: Contexts, mac: seq<byte>, a: seq<byte>)
    requires DestSays(mc, st, m, ctx, r, at, cs, mac, a)
    ensures |a| == 16
  {
  }

  /** With both identifiers elided the addresses are fe80::/64 followed by the link addresses with just that bit changed. */
  lemma ElidedComesFromMac(buf: seq<byte>, cs: Contexts, smac: seq<byte>, dmac: seq<byte>)
    requires Complete(buf) && ValidContexts(cs) && |smac| == 8 && |dmac| == 8
    requires buf[1] % 128 == 0x33
    ensures var r := Decompress(buf, cs, smac, dmac);
            r.Some? ==>
              && |r.value| >= 40 && r.value[8..16] == [0xfe, 0x80, 0, 0, 0, 0, 0, 0] == r.value[24..32]
              && LocalBitDiffers(smac[0], r.value[16]) && r.value[17..24] == smac[1..]
              && LocalBitDiffers(dmac[0], r.value[32]) && r.value[33..40] == dmac[1..]
  {
    assert |buf| >= 2;
    hide Complete, Decompress, TfSays, HopSays, UdpSays, Refused, SourceSays, DestSays, LocalBitDiffers, RestAt, TrafficClass, FlowLabel;
    DecodesByTheTables(buf, cs, smac, dmac);
    var r := Decompress(buf, cs, smac, dmac);
    ElidedBits(buf[1]);
    if r.Some? {
      ElidedSource(buf, SourceAt(buf), SourceContext(buf), cs, smac, r.value);
      ElidedDest(buf, DestAt(buf), DestContext(buf), cs, dmac, r.value);
    }
  }

  lemma ElidedBits(b: byte)
    requires b % 128 == 0x33
    ensures b / 64 % 2 == 0 && b / 16 % 4 == 3 && b / 8 % 2 == 0 && b / 4 % 2 == 0 && b % 4 == 3
  {
    assert b == 0x33 || b == 0xb3;
  }

  lemma ElidedSource(r: seq<byte>, at: nat, ctx: int, cs: Contexts, mac: seq<byte>, p: seq<byte>)
    requires |p| >= 40 && |mac| == 8 && SourceSays(false, 3, ctx, r, at, cs, mac, p[8..24])
    ensures p[8..16] == [0xfe, 0x80, 0, 0, 0, 0, 0, 0] && LocalBitDiffers(mac[0], p[16]) && p[17..24] == mac[1..]
  {
    assert p[8..24][..8] == p[8..16] && p[8..24][8..] == p[16..24] && p[16..24][0] == p[16] && p[16..24][1..] == p[17..24];
  }

  lemma ElidedDest(r: seq<byte>, at: nat, ctx: int, cs: Contexts, mac: seq<byte>, p: seq<byte>)
    requires |p| >= 40 && |mac| == 8 && DestSays(false, false, 3, ctx, r, at, cs, mac, p[24..40])
    ensures p[24..32] == [0xfe, 0x80, 0, 0, 0, 0, 0, 0] && LocalBitDiffers(mac[0], p[32]) && p[33..40] == mac[1..]
  {
    assert p[24..40][..8] == p[24..32] && p[24..40][8..] == p[32..40] && p[32..40][0] == p[32] && p[32..40][1..] == p[33..40];
  }

  /** The link address 00:12:4b:00:01:02:03:04 stands for the identifier 212:4b00:102:304. */
  lemma ElidedInstance()
    ensures FromMac([0x02, 0x12, 0x4b, 0, 1, 2, 3, 4], [0, 0x12, 0x4b, 0, 1, 2, 3, 4])
  {
    assert [0x02, 0x12, 0x4b, 0, 1, 2, 3, 4][1..] == [0x12, 0x4b, 0, 1, 2, 3, 4];
    assert [0, 0x12, 0x4b, 0, 1, 2, 3, 4][1..] == [0x12, 0x4b, 0, 1, 2, 3, 4];
  }

  // ----- The encoder takes the shortest form of every field

  lemma ShortestTf(tc: byte, fl: int, m: int, r: seq<byte>)
    requires 0 <= fl < 0x10_0000 && 0 <= m <= 3 && TfSays(m, r, 0, tc, fl)
    ensures |TfBytes(tc, fl)| <= TfWidth(m)
  {
    TfRound(tc, fl, []);
    hide TfBytes, TfOf;
  }

  lemma ShortestHop(hop: byte, m: int, r: seq<byte>)
    requires 0 <= m <= 3 && HopSays(m, r, 0, hop)
    ensures HopMode(hop) == 0 ==> m == 0
    ensures HopSays(HopMode(hop), [hop], 0, hop)
  {
  }

  lemma ShortestIid(a: seq<byte>, mac: seq<byte>, m: int, r: seq<byte>)
    requires |a| == 16 && ValidMac(mac) && 1 <= m <= 3 && IidSays(m, r, 0, mac, a[8..])
    ensures UnicastWidth(AddressMode(a, mac)) <= UnicastWidth(m)
  {
    MacIidIs(a[8..], mac);
    if m == 2 { assert a[8..14] == a[8..][..6] == SHORT_IID; }
  }

  /** For multicast addresses this holds but for those that only the misplaced octet of the 32-bit form can spell. */
  lemma ShortestMulticast(a: seq<byte>, m: int, r: seq<byte>)
    requires |a| == 16 && IsMulticast(a) && 0 <= m <= 3 && MulticastSays(m, r, 0, a)
    ensures MulticastWidth(MulticastMode(a)) <= MulticastWidth(m) <==> m != 2 || a[3] == 0
  {
    hide IsMulticast;
    if m == 3 {
      assert a[..15] == [0xff, 2, 0, 0, 0, 0, 0, 0, 0, 0, 0, 0, 0, 0, 0];
    } else if m == 2 {
      assert a[2..8] == [0, a[3], 0, 0, 0, 0] && a[8..13] == [0, 0, 0, 0, 0];
      assert a[2..8][1] == a[3];
      assert a[..15][1] == 0;
    } else if m == 1 {
      assert a[2..8] == [0, 0, 0, 0, 0, 0] && a[8..11] == [0, 0, 0];
    }
  }

  lemma ShortestPorts(u: seq<byte>, m: int, r: seq<byte>)
    requires |u| >= 8 && 0 <= m <= 3 && PortsSay(m, r, 0, u[..4])
    ensures PortWidth(PortMode(u)) <= PortWidth(m) && |UdpBytes(u)| == 3 + PortWidth(PortMode(u))
  {
    assert u[..4][0] == u[0] && u[..4][1] == u[1] && u[..4][2] == u[2] && u[..4][3] == u[3];
  }

  /** A form of the source address that needs no context is no shorter than the one chosen without a context. */
  lemma ShortestSource(a: seq<byte>, mac: seq<byte>, stateful: bool, m: int, r: seq<byte>, cs: Contexts)
    requires |a| == 16 && ValidMac(mac) && 0 <= m <= 3 && (stateful ==> m == 0) && SourceSays(stateful, m, 0, r, 0, cs, mac, a)
    ensures |SourceField(a, -1, mac).bytes| <= SourceWidth(stateful, m)
  {
    if m > 0 {
      assert a[0] == a[..8][0] && a[1] == a[..8][1];
      ShortestIid(a, mac, m, r);
    }
    hide IidSays;
  }

  lemma ShortestDest(a: seq<byte>, mac: seq<byte>, m: int, r: seq<byte>, cs: Contexts)
    requires |a| == 16 && !IsMulticast(a) && ValidMac(mac) && 0 <= m <= 3 && DestSays(false, false, m, 0, r, 0, cs, mac, a)
    ensures |DestField(a, -1, mac).bytes| <= UnicastWidth(m)
  {
    if m > 0 {
      assert a[0] == a[..8][0] && a[1] == a[..8][1];
      ShortestIid(a, mac, m, r);
    }
    hide IidSays;
  }

  /** A context is used whenever there is one, and then only the shortest form of the identifier is carried. */
  lemma ContextIsUsed(a: seq<byte>, ctx: int, mac: seq<byte>, m: int, r: seq<byte>)
    requires |a| == 16 && 0 <= ctx && ValidMac(mac) && 1 <= m <= 3 && IidSays(m, r, 0, mac, a[8..])
    ensures SourceField(a, ctx, mac).stateful && |SourceField(a, ctx, mac).bytes| <= UnicastWidth(m)
    ensures !IsMulticast(a) ==> DestField(a, ctx, mac).stateful && |DestField(a, ctx, mac).bytes| <= UnicastWidth(m)
  {
    ShortestIid(a, mac, m, r);
    hide IidSays;
  }

  // ----- Which packets survive, octet by octet

  predicate HasPrefix(cs: Contexts, prefix: seq<byte>) {
    exists i :: 0 <= i < |cs| && cs[i] == prefix
  }

  /** An address of fe80::/10 outside fe80::/64. */
  predicate FarLinkLocal(a: seq<byte>) {
    |a| == 16 && a[0] == 0xfe && 0x80 <= a[1] < 0xc0 && a[..8] != [0xfe, 0x80, 0, 0, 0, 0, 0, 0]
  }

  /** An address ffXX::YY:YYYY that is not ff02::YY. */
  predicate ShortMulticast(a: seq<byte>) {
    && |a| == 16 && a[0] == 0xff && (forall i :: 2 <= i < 13 ==> a[i] == 0)
    && !(a[1] == 2 && a[13] == 0 && a[14] == 0)
  }

  lemma SurvivesMeans(p: seq<byte>, cs: Contexts)
    requires |p| >= 40
    ensures Survives(p, cs) <==>
            && (FarLinkLocal(p[8..24]) ==> HasPrefix(cs, p[8..16]))
            && (FarLinkLocal(p[24..40]) ==> HasPrefix(cs, p[24..32]))
            && (p[24] == 0xff ==> !HasPrefix(cs, p[24..32]) && (ShortMulticast(p[24..40]) ==> p[25] == 0))
  {
    var (s, d) := (p[8..24], p[24..40]);
    assert s[..8] == p[8..16] && d[..8] == p[24..32] && d[0] == p[24] && d[1] == p[25];
    LookupMeans(cs, s[..8]);
    LookupMeans(cs, d[..8]);
    MulticastModeMeans(d);
    hide MulticastMode, Lookup, HasPrefix, ShortMulticast;
  }

  lemma LookupMeans(cs: Contexts, prefix: seq<byte>)
    ensures Lookup(cs, prefix) < 0 <==> !HasPrefix(cs, prefix)
  {
  }

  lemma MulticastModeMeans(a: seq<byte>)
    requires |a| == 16
    ensures a[0] == 0xff ==> (MulticastMode(a) == 2 <==> ShortMulticast(a))
  {
    var (x, y, z) := (a[..15], a[2..8], a[8..13]);
    assert forall i :: 0 <= i < 15 ==> x[i] == a[i];
    assert forall i :: 2 <= i < 8 ==> a[i] == y[i - 2];
    assert forall i :: 8 <= i < 13 ==> a[i] == z[i - 8];
    assert y == [0, 0, 0, 0, 0, 0] && z == [0, 0, 0, 0, 0] <==> forall i :: 2 <= i < 13 ==> a[i] == 0 by {
      if forall i :: 2 <= i < 13 ==> a[i] == 0 {
        assert y == [0, 0, 0, 0, 0, 0] && z == [0, 0, 0, 0, 0];
      }
    }
    if forall i :: 2 <= i < 13 ==> a[i] == 0 {
      assert x == [0xff, 2, 0, 0, 0, 0, 0, 0, 0, 0, 0, 0, 0, 0, 0] <==> a[0] == 0xff && a[1] == 2 && a[13] == 0 && a[14] == 0;
    }
  }

  // ----- The traffic class

  /** The octet of section 3.2.1 of RFC 6282: the two ECN bits come before the DSCP. */
  function EcnFirst(tc: byte): byte { tc % 4 * 64 + tc / 4 }

  /** The traffic class goes out as it stands; that is the octet of the standard exactly when it is its own rotation. */
  lemma ClassAsItStands(tc: byte)
    requires tc != 0
    ensures TfBytes(tc, 0) == [EcnFirst(tc)] <==> EcnFirst(tc) == tc
  {
  }

  /** A packet marked as having met congestion, with no DSCP, goes out with the octet for DSCP 3. */
  lemma EcnIsMisplaced()
    ensures TfBytes(3, 0) == [3] && EcnFirst(3) == 192 && EcnFirst(12) == 3
  {
  }
}
