/**
 6LoWPAN from end to end: a packet is compressed, fragmented, reassembled and decompressed, over a link that delivers
 the fragments of one datagram in order.
 */
module Lowpan {
  import opened Bytes
  import opened Iphc
  import opened IphcCode
  import opened LowpanFrag

  /** Frame control, sequence number, two PAN identifiers and the two addresses. */
  function LinkLength(smac: seq<byte>, dmac: seq<byte>): int { 7 + |smac| + |dmac| }

  lemma LinkLengthIs(smac: seq<byte>, dmac: seq<byte>)
    requires ValidMac(smac) && ValidMac(dmac)
    ensures LinkHeader(LinkLength(smac, dmac))
  {
  }

  /** What lowpan6_frag leaves uncompressed. */
  function PayloadLength(p: seq<byte>): int
    requires |p| >= 40
  {
    |p| - if p[6] == UDP then 48 else 40
  }

  /** The frames of a compressed packet. */
  function Frames(d: seq<byte>, tag: int, link: int): seq<Frame>
    requires LinkHeader(link)
  {
    Widths(link);
    if |d| <= 124 - link then [Whole(d)] else Fragments(d, tag, link)
  }

  // ----- How long the parts are

  lemma HeaderLength(p: seq<byte>, cs: Contexts, smac: seq<byte>, dmac: seq<byte>)
    requires Consistent(p) && ValidContexts(cs) && ValidMac(smac) && ValidMac(dmac)
    ensures var c := Compress(p, cs, smac, dmac);
            && |c| >= 2
            && var (b, w) := (BitsOf(c[0], c[1]), 2 + InlineWidth(BitsOf(c[0], c[1])));
               w <= 41 && |c| == w + |Tail(p)| && c[w..] == Tail(p) && b.nh == (p[6] == UDP) && c[0] as int / 32 == 3
  {
    hide SourceField, DestField, TfBytes, TfMode, HopMode, TrafficClass, FlowLabel, Lookup, ContextByte, Base0, Base1, BitsOf,
      Assemble, UdpFits, FixedOf, FixedWidth, SourceWidth, DestWidth, TfWidth, Tail, Compress, InlineWidth;
    var sctx, dctx := Lookup(cs, Src(p)[..8]), Lookup(cs, Dst(p)[..8]);
    var cid := ContextByte(sctx, dctx);
    var s := SourceField(Src(p), sctx, smac);
    var d := DestField(Dst(p), dctx, dmac);
    SourceRound(Src(p), sctx, cs, smac, []);
    DestRound(Dst(p), dctx, cs, dmac, []);
    var tf := TfMode(TrafficClass(p), FlowLabel(p));
    BitsRound(tf, p[6] == UDP, HopMode(p[7]), cid != 0, s, IsMulticast(Dst(p)), d);
    var b := Bits(tf, p[6] == UDP, HopMode(p[7]), cid != 0, s.stateful, s.mode, IsMulticast(Dst(p)), d.stateful, d.mode);
    var z := s.bytes + (d.bytes + Tail(p));
    FixedRound(p, cid, z, b);
    var c := Compress(p, cs, smac, dmac);
    CompressIs(p, cs, smac, dmac);
    RestRound(c, b, z);
    DropFronts(s.bytes, d.bytes, Tail(p));
    InlineIsShort(b);
    BaseIsDispatch(tf, p[6] == UDP, HopMode(p[7]));
  }

  lemma InlineIsShort(b: Bits)
    ensures InlineWidth(b) <= 39
  {
  }

  lemma BaseIsDispatch(tf: int, nh: bool, hop: int)
    requires 0 <= tf <= 3 && 0 <= hop <= 3
    ensures Base0(tf, nh, hop) as int / 32 == 3
  {
  }

  /** The length of the packet that a buffer decompresses to. */
  function OutLength(buf: seq<byte>): int
    requires Complete(buf)
  {
    var b := BitsOf(buf[0], buf[1]);
    var w := 2 + InlineWidth(b);
    40 + |buf| - w + if b.nh then 5 - PortWidth(buf[w] % 4) else 0
  }

  lemma DecodedLength(buf: seq<byte>, cs: Contexts, smac: seq<byte>, dmac: seq<byte>)
    requires Complete(buf) && ValidContexts(cs) && ValidMac(smac) && ValidMac(dmac)
    ensures var r := Decompress(buf, cs, smac, dmac); r.Some? ==> |r.value| == OutLength(buf)
  {
    CompleteParts(buf);
    var b := BitsOf(buf[0], buf[1]);
    var f := FixedOf(b, buf[2..]);
    var w := SourceWidth(b.sac, b.sam) + DestWidth(b.mc, b.dam);
    assert InlineWidth(b) == FixedWidth(b) + w;
    DropTwice(buf, 2, FixedWidth(b), w);
    assert f.rest[w..] == buf[2 + InlineWidth(b)..];
    assert b.nh ==> f.rest[w..][0] == buf[2 + InlineWidth(b)];
    hide BitsOf, FixedOf, FixedWidth, InlineWidth, TfWidth;
    AssembledLength(b, f, cs, smac, dmac);
  }

  lemma AssembledLength(b: Bits, f: Fixed, cs: Contexts, smac: seq<byte>, dmac: seq<byte>)
    requires 0 <= b.sam <= 3 && 0 <= b.dam <= 3 && 0 <= f.tf.1 < 0x10_0000
    requires ValidContexts(cs) && ValidMac(smac) && ValidMac(dmac)
    requires var w := SourceWidth(b.sac, b.sam) + DestWidth(b.mc, b.dam); w <= |f.rest| && (b.nh ==> UdpFits(f.rest[w..]))
    ensures var r := f.rest[SourceWidth(b.sac, b.sam) + DestWidth(b.mc, b.dam)..];
            var a := Assemble(b, f, cs, smac, dmac);
            a.Some? ==> |a.value| == 40 + |r| + if b.nh then 5 - PortWidth(r[0] % 4) else 0
  {
    var sw := SourceWidth(b.sac, b.sam);
    var r := f.rest[sw + DestWidth(b.mc, b.dam)..];
    var src := SourceOf(b.sac, b.sam, f.ctx / 16, cs, f.rest, smac);
    var dst := DestOf(b.mc, b.dac, b.dam, f.ctx % 16, cs, f.rest[sw..], dmac);
    SourceLength(b.sac, b.sam, f.ctx / 16, cs, f.rest, smac);
    DestLength(b.mc, b.dac, b.dam, f.ctx % 16, cs, f.rest[sw..], dmac);
    if b.nh { BodyLength(r); }
    hide SourceOf, DestOf, UdpBody, UdpFits, SourceWidth, DestWidth;
  }

  lemma BodyLength(r: seq<byte>)
    requires UdpFits(r)
    ensures UdpBody(r).Some? ==> |UdpBody(r).value| == |r| + 5 - PortWidth(r[0] % 4)
  {
  }

  lemma SourceLength(stateful: bool, m: int, ctx: int, cs: Contexts, r: seq<byte>, mac: seq<byte>)
    requires 0 <= m <= 3 && 0 <= ctx && |r| >= SourceWidth(stateful, m) && ValidMac(mac) && ValidContexts(cs)
    ensures var a := SourceOf(stateful, m, ctx, cs, r, mac); a.Some? ==> |a.value| == 16
  {
  }

  lemma DestLength(mc: bool, stateful: bool, m: int, ctx: int, cs: Contexts, r: seq<byte>, mac: seq<byte>)
    requires 0 <= m <= 3 && 0 <= ctx && |r| >= DestWidth(mc, m) && ValidMac(mac) && ValidContexts(cs)
    ensures var a := DestOf(mc, stateful, m, ctx, cs, r, mac); a.Some? ==> |a.value| == 16
  {
  }

  /** The decompressed packet is as long as the original one whether or not its addresses survive. */
  lemma OutLengthIs(p: seq<byte>, cs: Contexts, smac: seq<byte>, dmac: seq<byte>)
    requires Consistent(p) && ValidContexts(cs) && ValidMac(smac) && ValidMac(dmac)
    ensures var c := Compress(p, cs, smac, dmac); Complete(c) && OutLength(c) == |p|
  {
    RoundTrip(p, cs, smac, dmac);
    HeaderLength(p, cs, smac, dmac);
    TailLength(p);
    hide Compress, BitsOf, InlineWidth, Tail, Decompress, Survives, UdpFits;
  }

  lemma TailLength(p: seq<byte>)
    requires Consistent(p)
    ensures |Tail(p)| == |p| - 40 - if p[6] == UDP then 5 - PortWidth(Tail(p)[0] % 4) else 0
    ensures p[6] == UDP ==> Tail(p) != [] && UdpFits(Tail(p)) && |UdpBytes(p[40..])| <= 7
  {
    if p[6] == UDP {
      UdpRound(p[40..]);
      var m := PortMode(p[40..]);
      assert UdpBytes(p[40..])[0] == 0xf0 + m && (0xf0 + m) % 4 == m;
      assert p[40..][8..] == p[48..];
    }
  }

  /** A prefix that holds the whole header decompresses to a packet that is shorter by what is missing. */
  lemma PrefixIsShorter(c: seq<byte>, n: nat)
    requires Complete(c) && 2 + InlineWidth(BitsOf(c[0], c[1])) + 7 <= n <= |c|
    ensures Complete(c[..n]) && OutLength(c[..n]) == OutLength(c) - (|c| - n)
  {
    var (b, d) := (BitsOf(c[0], c[1]), c[..n]);
    var w := 2 + InlineWidth(b);
    assert d[0] == c[0] && d[1] == c[1] && d[w] == c[w];
    hide BitsOf, InlineWidth;
    assert c[w..][0] == c[w] && d[w..][0] == c[w];
  }

  // ----- From end to end

  lemma OneFrame(t: Table, from: seq<byte>, d: seq<byte>)
    ensures OnFrames(t, from, [Whole(d)]) == (t, [d])
  {
    OnFramesStep(t, from, Whole(d), [], t, Some(d));
    assert [Whole(d)] + [] == [Whole(d)] && [d] + [] == [d];
  }

  /** What arrives: the datagram, or its first two fragments if it is too long for its size field. */
  lemma Arrives(t: Table, from: seq<byte>, d: seq<byte>, tag: int, link: int)
    requires LinkHeader(link) && |d| <= 0x7ff + 48
    requires from in t ==> t[from].tag != tag || t[from].size != |d| % SIZES
    ensures var out := OnFrames(t, from, Frames(d, tag, link)).1;
            && |out| == 1 && |out[0]| <= |d| && out[0] == d[..|out[0]|]
            && (|d| < SIZES ==> out[0] == d) && (|d| >= SIZES ==> 48 <= |out[0]| < |d|)
  {
    Widths(link);
    hide OnFrames, Fragments, First, Later;
    if |d| <= 124 - link {
      OneFrame(t, from, d);
    } else if |d| < SIZES {
      FragmentsDeliver(t, from, d, tag, link);
    } else {
      LongIsCut(t, from, d, tag, link);
    }
  }

  /**
   A packet that is compressed, fragmented, reassembled and decompressed comes back octet for octet exactly when its
   addresses survive compression and its compressed form is shorter than 2048 octets.
   */
  lemma EndToEnd(p: seq<byte>, cs: Contexts, smac: seq<byte>, dmac: seq<byte>, tag: int, t: Table)
    requires Consistent(p) && ValidContexts(cs) && ValidMac(smac) && ValidMac(dmac) && PayloadLength(p) <= 0x7ff
    requires smac in t ==> t[smac].tag != tag || t[smac].size != |Compress(p, cs, smac, dmac)| % SIZES
    ensures LinkHeader(LinkLength(smac, dmac))
    ensures var d := Compress(p, cs, smac, dmac);
            var out := OnFrames(t, smac, Frames(d, tag, LinkLength(smac, dmac))).1;
            && |out| == 1 && Complete(out[0]) && out[0][0] as int / 32 == 3
            && (Decompress(out[0], cs, smac, dmac) == Some(p) <==> Survives(p, cs) && |d| < SIZES)
  {
    LinkLengthIs(smac, dmac);
    var (d, link) := (Compress(p, cs, smac, dmac), LinkLength(smac, dmac));
    HeaderLength(p, cs, smac, dmac);
    OutLengthIs(p, cs, smac, dmac);
    CompressedLength(p, cs, smac, dmac);
    hide Compress, Decompress, OnFrames, Frames, Survives, BitsOf, InlineWidth, OutLength, Complete, Tail, LinkLength, Consistent;
    Arrives(t, smac, d, tag, link);
    var c := OnFrames(t, smac, Frames(d, tag, link)).1[0];
    if |d| < SIZES {
      RoundTrip(p, cs, smac, dmac);
    } else {
      PrefixIsShorter(d, |c|);
      DecodedLength(c, cs, smac, dmac);
    }
  }

  lemma CompressedLength(p: seq<byte>, cs: Contexts, smac: seq<byte>, dmac: seq<byte>)
    requires Consistent(p) && ValidContexts(cs) && ValidMac(smac) && ValidMac(dmac)
    ensures PayloadLength(p) <= |Compress(p, cs, smac, dmac)| <= PayloadLength(p) + 48
  {
    HeaderLength(p, cs, smac, dmac);
    TailLength(p);
    hide Compress, BitsOf, InlineWidth, UdpBytes;
  }

  /** lowpan6_frag from the packet to its frames. */
  method SendPacket(p: seq<byte>, cs: Contexts, smac: seq<byte>, dmac: seq<byte>, tag: int) returns (r: Sent)
    requires Consistent(p) && ValidContexts(cs) && ValidMac(smac) && ValidMac(dmac)
    ensures LinkHeader(LinkLength(smac, dmac))
    ensures r == if PayloadLength(p) > 0x7ff then TooLong
                 else Sent(Frames(Compress(p, cs, smac, dmac), tag, LinkLength(smac, dmac)))
  {
    LinkLengthIs(smac, dmac);
    CompressedLength(p, cs, smac, dmac);
    hide Compress, Fragments;
    var header, payload := BuildHeader(p, cs, smac, dmac);
    r := Send(header, payload, LinkLength(smac, dmac), tag);
  }
}
