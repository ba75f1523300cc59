/** The encoder and the decoder of lowpan6.c as they run: octets read and written one field at a time, bits set one by one. */
module IphcCode {
  import opened Bytes
  import opened BitOps
  import opened Iphc

  // ----- Addresses

  /** lowpan6_context_lookup */
  method ContextLookup(cs: Contexts, prefix: seq<byte>) returns (i: int)
    ensures i == Lookup(cs, prefix)
  {
    i := 0;
    while i < |cs|
      invariant 0 <= i <= |cs| && Lookup(cs, prefix) == Lookup(cs, prefix, i)
    {
      if cs[i] == prefix { return; }
      i := i + 1;
    }
    i := -1;
  }

  predicate Zeros(a: seq<byte>, lo: nat, hi: nat)
    requires lo <= hi <= |a|
  {
    forall i :: lo <= i < hi ==> a[i] == 0
  }

  /** 0x000000ff followed by 0xfe00 in the high half of the last word. */
  predicate ShortForm(a: seq<byte>)
    requires |a| == 16
  {
    a[8] == 0 && a[9] == 0 && a[10] == 0 && a[11] == 0xff && a[12] == 0xfe && a[13] == 0
  }

  /** lowpan6_get_address_mode */
  method AddressModeOf(a: seq<byte>, mac: seq<byte>) returns (m: int)
    requires |a| == 16
    ensures m == AddressMode(a, mac)
  {
    assert ShortForm(a) <==> a[8..14] == SHORT_IID;
    if |mac| == 2 {
      assert MacIid(mac) == SHORT_IID + mac;
      assert a[8..] == MacIid(mac) <==> ShortForm(a) && a[14] == mac[0] && a[15] == mac[1];
      if ShortForm(a) && a[14] == mac[0] && a[15] == mac[1] { return 3; }
    } else if |mac| == 8 {
      LongIid(a, mac);
      if a[8] == FlipLocal(mac[0]) && a[9] == mac[1] && a[10] == mac[2] && a[11] == mac[3] && a[12] == mac[4] && a[13] == mac[5]
        && a[14] == mac[6] && a[15] == mac[7] { return 3; }
    }
    if ShortForm(a) { return 2; }
    m := 1;
  }

  lemma LongIid(a: seq<byte>, mac: seq<byte>)
    requires |a| == 16 && |mac| == 8
    ensures a[8..] == MacIid(mac) <==>
            && a[8] == FlipLocal(mac[0]) && a[9] == mac[1] && a[10] == mac[2] && a[11] == mac[3] && a[12] == mac[4]
            && a[13] == mac[5] && a[14] == mac[6] && a[15] == mac[7]
  {
    var (s, r) := (a[8..], MacIid(mac));
    assert s[0] == a[8] && s[1] == a[9] && s[2] == a[10] && s[3] == a[11] && s[4] == a[12] && s[5] == a[13] && s[6] == a[14] && s[7] == a[15];
    assert r[1] == mac[1] && r[2] == mac[2] && r[3] == mac[3] && r[4] == mac[4] && r[5] == mac[5] && r[6] == mac[6] && r[7] == mac[7];
  }

  lemma ZerosAre(a: seq<byte>, lo: nat, hi: nat, z: seq<byte>)
    requires lo <= hi <= |a| && |z| == hi - lo && forall i :: 0 <= i < |z| ==> z[i] == 0
    ensures Zeros(a, lo, hi) <==> a[lo..hi] == z
  {
    if a[lo..hi] == z {
      forall i | lo <= i < hi ensures a[i] == 0 { assert a[i] == a[lo..hi][i - lo]; }
    }
  }

  lemma LinkMulticast(a: seq<byte>)
    requires |a| == 16
    ensures a[0] == 0xff && a[1] == 2 && Zeros(a, 2, 15) <==> a[..15] == [0xff, 2, 0, 0, 0, 0, 0, 0, 0, 0, 0, 0, 0, 0, 0]
  {
    ZerosAre(a, 2, 15, [0, 0, 0, 0, 0, 0, 0, 0, 0, 0, 0, 0, 0]);
    assert a[..15] == [a[0], a[1]] + a[2..15];
    assert [0xff, 2, 0, 0, 0, 0, 0, 0, 0, 0, 0, 0, 0, 0, 0] == [0xff, 2] + [0, 0, 0, 0, 0, 0, 0, 0, 0, 0, 0, 0, 0];
  }

  /** lowpan6_get_address_mode_mc, word by word. */
  method MulticastModeOf(a: seq<byte>) returns (m: int)
    requires |a| == 16
    ensures m == MulticastMode(a)
  {
    hide Zeros;
    LinkMulticast(a);
    ZerosAre(a, 2, 8, [0, 0, 0, 0, 0, 0]);
    ZerosAre(a, 8, 13, [0, 0, 0, 0, 0]);
    ZerosAre(a, 8, 11, [0, 0, 0]);
    if a[0] == 0xff && a[1] == 2 && Zeros(a, 2, 15) { return 3; }
    if a[0] == 0xff && Zeros(a, 2, 8) {
      if Zeros(a, 8, 13) { return 2; }
      if Zeros(a, 8, 11) { return 1; }
    }
    m := 0;
  }

  // ----- The encoder

  /** Which contexts the two addresses have, and the base byte and extension that say so. */
  method EncodeContexts(cs: Contexts, src: seq<byte>, dst: seq<byte>) returns (b1: nat, cid: nat)
    requires |cs| <= 16
    ensures cid == ContextByte(Lookup(cs, src), Lookup(cs, dst))
    ensures b1 == Bit(cid != 0) * 128 + Bit(Lookup(cs, src) >= 0) * 64 + Bit(Lookup(cs, dst) >= 0) * 4
  {
    hide Lookup, Or, Pow2;
    Powers();
    b1, cid := 0, 0;
    var s := ContextLookup(cs, src);
    if s >= 0 {
      OrZero(0x40);
      OrZero(s * 16);
      b1, cid := Or(b1, 0x40), Or(cid, s * 16);
    }
    var d := ContextLookup(cs, dst);
    if d >= 0 {
      OrLow(b1 / 8, 4, 3);
      OrLow(cid / 16, d, 4);
      b1, cid := Or(b1, 0x04), Or(cid, d);
    }
    if cid != 0 {
      OrLow(1, b1, 7);
      b1 := Or(b1, 0x80);
    }
  }

  /** Traffic class and flow label. */
  method EncodeTf(tc: byte, fl: int) returns (b0: nat, bytes: seq<byte>)
    requires 0 <= fl < 0x10_0000
    ensures b0 == 0x60 + TfMode(tc, fl) * 8 && bytes == TfBytes(tc, fl)
  {
    hide Or, Pow2;
    Powers();
    b0, bytes := 0x60, [];
    if fl == 0 {
      OrLow(3, 0x10, 5);
      b0 := Or(b0, 0x10);
      if tc == 0 {
        OrLow(7, 0x08, 4);
        b0 := Or(b0, 0x08);
      } else {
        bytes := [tc];
      }
    } else if tc % 64 == 0 {
      OrLow(6, 0x08, 4);
      OrLow(tc / 64, fl / 65536 % 16, 6);
      b0 := Or(b0, 0x08);
      bytes := [Or(tc / 64 * 64, fl / 65536 % 16), fl / 256 % 256, fl % 256];
    } else {
      bytes := [tc, fl / 65536 % 16, fl / 256 % 256, fl % 256];
    }
  }

  /** The source address; `c`, `s` and `e` are the bits that are set already. */
  method EncodeSource(b1: nat, a: seq<byte>, mac: seq<byte>, ghost ctx: int, ghost c: bool, ghost e: bool)
    returns (r: nat, bytes: seq<byte>)
    requires |a| == 16 && b1 == Bit(c) * 128 + Bit(ctx >= 0) * 64 + Bit(e) * 4
    ensures var f := SourceField(a, ctx, mac);
            r == Bit(c) * 128 + Bit(f.stateful) * 64 + f.mode * 16 + Bit(e) * 4 && bytes == f.bytes
  {
    hide Or, Pow2, IsAny, AddressMode;
    Powers();
    r, bytes := b1, [];
    if b1 / 64 % 2 == 1 || IsLinkLocal(a) {
      var i;
      i, bytes := EncodeUnicast(a, mac);
      OrGap(Bit(c) * 2 + Bit(ctx >= 0), Bit(e) * 4, i, 2, 4);
      r := Or(b1, i * 16);
    } else if IsAny(a) {
      OrGap(Bit(c), Bit(e) * 4, 1, 1, 6);
      r := Or(b1, 0x40);
    } else {
      bytes := a;
    }
  }

  /** The mode and the octets of a multicast address. */
  method EncodeMulticast(a: seq<byte>) returns (i: int, bytes: seq<byte>)
    requires |a| == 16 && IsMulticast(a)
    ensures forall ctx: int, mac: seq<byte> ::
              DestField(a, ctx, mac).mode == i == MulticastMode(a) && DestField(a, ctx, mac).bytes == bytes
  {
    hide MulticastMode;
    i := MulticastModeOf(a);
    bytes := [];
    if i == 0 {
      bytes := a;
    } else if i == 1 {
      bytes := [a[1]] + a[11..16];
    } else if i == 2 {
      bytes := [a[1]] + a[13..16];
    } else {
      bytes := [a[15]];
    }
  }

  /** The mode and the octets of a unicast address that has a context or is link-local. */
  method EncodeUnicast(a: seq<byte>, mac: seq<byte>) returns (i: int, bytes: seq<byte>)
    requires |a| == 16
    ensures i == AddressMode(a, mac) && bytes == UnicastBytes(a, i)
  {
    hide AddressMode;
    i := AddressModeOf(a, mac);
    bytes := [];
    if i == 1 {
      bytes := a[8..16];
    } else if i == 2 {
      bytes := a[14..16];
    }
  }

  lemma DestIs(a: seq<byte>, ctx: int, mac: seq<byte>)
    requires |a| == 16
    ensures var f := DestField(a, ctx, mac);
            && f.stateful == (ctx >= 0) && (IsMulticast(a) ==> 0 <= f.mode <= 3)
            && (!IsMulticast(a) ==>
                  if ctx >= 0 || IsLinkLocal(a) then f.mode == AddressMode(a, mac) && f.bytes == UnicastBytes(a, f.mode)
                  else f.mode == 0 && f.bytes == a)
  {
    hide AddressMode;
  }

  /** The destination address. */
  method EncodeDest(b1: nat, a: seq<byte>, mac: seq<byte>, ghost ctx: int, ghost high: nat) returns (r: nat, bytes: seq<byte>)
    requires |a| == 16 && b1 == high * 16 + Bit(ctx >= 0) * 4
    ensures var f := DestField(a, ctx, mac);
            r == high * 16 + Bit(IsMulticast(a)) * 8 + Bit(f.stateful) * 4 + f.mode && bytes == f.bytes
  {
    hide Or, Pow2, AddressMode, MulticastMode, DestField, UnicastBytes;
    Powers();
    DestIs(a, ctx, mac);
    r, bytes := b1, [];
    var i;
    if IsMulticast(a) {
      OrGap(high, Bit(ctx >= 0) * 4, 1, 1, 3);
      r := Or(r, 0x08);
      i, bytes := EncodeMulticast(a);
      assert DestField(a, ctx, mac).mode == i;
      OrLow(high * 4 + 2 + Bit(ctx >= 0), i, 2);
      r := Or(r, i);
    } else if b1 / 4 % 2 == 1 || IsLinkLocal(a) {
      i, bytes := EncodeUnicast(a, mac);
      OrLow(high * 4 + Bit(ctx >= 0), i, 2);
      r := Or(r, i);
    } else {
      bytes := a;
    }
  }

  /** The UDP header: ports as short as they can be, no length, the checksum. */
  method EncodeUdp(u: seq<byte>) returns (bytes: seq<byte>)
    requires |u| >= 8
    ensures bytes == UdpBytes(u)
  {
    hide Or, Pow2;
    Powers();
    if u[0] == 0xf0 && u[1] / 16 == 0xb && u[2] == 0xf0 && u[3] / 16 == 0xb {
      OrLow(0x3c, 3, 2);
      OrLow(u[1] % 16, u[3] % 16, 4);
      bytes := [Or(0xf0, 3), Or(u[1] % 16 * 16, u[3] % 16)];
    } else if u[0] == 0xf0 {
      OrLow(0x3c, 2, 2);
      bytes := [Or(0xf0, 2), u[1], u[2], u[3]];
    } else if u[2] == 0xf0 {
      OrLow(0x3c, 1, 2);
      bytes := [Or(0xf0, 1), u[0], u[1], u[3]];
    } else {
      bytes := [0xf0, u[0], u[1], u[2], u[3]];
      assert bytes == [0xf0] + u[..4];
    }
    bytes := bytes + [u[6], u[7]];
  }

  /** A 32-bit word in network order. */
  function Word32(a: int, b: int, c: int, d: int): int { ((a * 256 + b) * 256 + c) * 256 + d }

  lemma FirstWord(p: seq<byte>)
    requires |p| >= 40
    ensures var w := Word32(p[0], p[1], p[2], p[3]);
            w / 0x10_0000 % 256 == TrafficClass(p) && w % 0x10_0000 == FlowLabel(p)
  {
    var (a: int, b: int, c: int, d: int) := (p[0], p[1], p[2], p[3]);
    var w := Word32(a, b, c, d);
    assert w == (a * 16 + b / 16) * 0x10_0000 + (b % 16 * 65536 + c * 256 + d);
    assert w / 0x10_0000 == a * 16 + b / 16;
    assert (a * 16 + b / 16) % 256 == a % 16 * 16 + b / 16;
  }

  lemma HeadTwo(c: seq<byte>)
    requires |c| >= 2
    ensures c == [c[0], c[1]] + c[2..]
  {
  }

  lemma TailIs(p: seq<byte>)
    requires |p| >= 40 && (p[6] == UDP ==> |p| >= 48)
    ensures Tail(p) == if p[6] == UDP then UdpBytes(p[40..]) + p[40..][8..] else p[40..]
    ensures p[6] == UDP ==> p[40..][8..] == p[48..]
  {
    hide UdpBytes;
  }

  lemma FieldModes(p: seq<byte>, cs: Contexts, smac: seq<byte>, dmac: seq<byte>)
    requires |p| >= 40
    ensures 0 <= SourceField(Src(p), Lookup(cs, Src(p)[..8]), smac).mode <= 3
    ensures 0 <= DestField(Dst(p), Lookup(cs, Dst(p)[..8]), dmac).mode <= 3
  {
  }

  /** The hop limit bits and octet. */
  method EncodeHop(b0: nat, hop: byte, ghost high: nat) returns (r: nat, bytes: seq<byte>)
    requires b0 == high * 4
    ensures r == b0 + HopMode(hop) && bytes == if HopMode(hop) != 0 then [] else [hop]
  {
    hide Or, Pow2;
    Powers();
    r, bytes := b0, [];
    if hop == 255 {
      OrLow(high, 3, 2);
      r := Or(r, 0x03);
    } else if hop == 64 {
      OrLow(high, 2, 2);
      r := Or(r, 0x02);
    } else if hop == 1 {
      OrLow(high, 1, 2);
      r := Or(r, 0x01);
    } else {
      bytes := [hop];
    }
  }

  /** The next header bit and octet. */
  method EncodeNext(b0: nat, next: byte, ghost high: nat) returns (r: nat, bytes: seq<byte>)
    requires b0 == high * 8
    ensures r == b0 + Bit(next == UDP) * 4 && bytes == if next == UDP then [] else [next]
  {
    hide Or, Pow2;
    Powers();
    r, bytes := b0, [];
    if next == UDP {
      OrLow(high, 4, 3);
      r := Or(r, 0x04);
    } else {
      bytes := [next];
    }
  }

  lemma BasesAre(tf: int, nh: bool, hop: int, cid: bool, s: Carried, mc: bool, d: Carried)
    requires 0 <= tf <= 3 && 0 <= hop <= 3 && 0 <= s.mode <= 3 && 0 <= d.mode <= 3
    ensures Base0(tf, nh, hop) == 0x60 + tf * 8 + Bit(nh) * 4 + hop
    ensures Base1(cid, s, mc, d) ==
            (Bit(cid) * 8 + Bit(s.stateful) * 4 + s.mode) * 16 + Bit(mc) * 8 + Bit(d.stateful) * 4 + d.mode
  {
  }

  /** The inline octets before the addresses. */
  function Leading(cid: byte, tc: byte, fl: int, next: byte, hop: byte): seq<byte>
    requires 0 <= fl < 0x10_0000
  {
    (if cid != 0 then [cid] else []) + TfBytes(tc, fl) + (if next == UDP then [] else [next]) + (if HopMode(hop) != 0 then [] else [hop])
  }

  /** The base bytes as far as they do not depend on addresses, and the inline octets before them. */
  method EncodeLeading(p: seq<byte>, cid: byte) returns (b0: nat, inline: seq<byte>)
    requires |p| >= 40
    ensures b0 == Base0(TfMode(TrafficClass(p), FlowLabel(p)), p[6] == UDP, HopMode(p[7]))
    ensures inline == Leading(cid, TrafficClass(p), FlowLabel(p), p[6], p[7])
  {
    hide TfBytes, TfMode, HopMode, Word32, TrafficClass, FlowLabel;
    FirstWord(p);
    var word := Word32(p[0], p[1], p[2], p[3]);
    var tc, fl := word / 0x10_0000 % 256, word % 0x10_0000;
    var x, y, z;
    b0, x := EncodeTf(tc, fl);
    b0, y := EncodeNext(b0, p[6], 12 + TfMode(tc, fl));
    b0, z := EncodeHop(b0, p[7], (12 + TfMode(tc, fl)) * 2 + Bit(p[6] == UDP));
    inline := [];
    if cid != 0 { inline := [cid]; }
    inline := inline + x + y + z;
  }

  lemma Regroup4(a: seq<byte>, b: seq<byte>, c: seq<byte>, d: seq<byte>, z: seq<byte>)
    ensures (a + b + c + d) + z == a + (b + (c + (d + z)))
  {
  }

  /** The compressed packet is base bytes, leading octets, addresses and the rest. */
  lemma CompressParts(p: seq<byte>, cs: Contexts, smac: seq<byte>, dmac: seq<byte>, cid: byte, s: Carried, d: Carried)
    requires Sendable(p) && |cs| <= 16 && cid == ContextByte(Lookup(cs, Src(p)[..8]), Lookup(cs, Dst(p)[..8]))
    requires s == SourceField(Src(p), Lookup(cs, Src(p)[..8]), smac) && d == DestField(Dst(p), Lookup(cs, Dst(p)[..8]), dmac)
    ensures 0 <= s.mode <= 3 && 0 <= d.mode <= 3
    ensures var (tc, fl) := (TrafficClass(p), FlowLabel(p));
            Compress(p, cs, smac, dmac) ==
            [Base0(TfMode(tc, fl), p[6] == UDP, HopMode(p[7])), Base1(cid != 0, s, IsMulticast(Dst(p)), d)]
            + (Leading(cid, tc, fl, p[6], p[7]) + (s.bytes + (d.bytes + Tail(p))))
  {
    hide SourceField, DestField, TfBytes, TrafficClass, FlowLabel, Lookup, ContextByte, HopMode, TfMode, Compress, Base0, Base1, Tail;
    FieldModes(p, cs, smac, dmac);
    CompressIs(p, cs, smac, dmac);
    var (tc, fl, e) := (TrafficClass(p), FlowLabel(p), Compress(p, cs, smac, dmac));
    Regroup4(if cid != 0 then [cid] else [], TfBytes(tc, fl), if p[6] == UDP then [] else [p[6]],
             if HopMode(p[7]) != 0 then [] else [p[7]], s.bytes + (d.bytes + Tail(p)));
    HeadTwo(e);
  }

  /** The header part of lowpan6_frag: base bytes and inline octets, in the order in which the buffer is filled. */
  method BuildHeader(p: seq<byte>, cs: Contexts, smac: seq<byte>, dmac: seq<byte>) returns (buffer: seq<byte>, payload: seq<byte>)
    requires Sendable(p) && |cs| <= 16
    ensures buffer + payload == Compress(p, cs, smac, dmac)
    ensures payload == p[if p[6] == UDP then 48 else 40..]
  {
    hide SourceField, DestField, TrafficClass, FlowLabel, Lookup, UdpBytes, ContextByte, HopMode, TfMode, Compress, Base0, Base1, Tail,
      Leading;
    ghost var sctx, dctx := Lookup(cs, Src(p)[..8]), Lookup(cs, Dst(p)[..8]);
    ghost var s, d := SourceField(Src(p), sctx, smac), DestField(Dst(p), dctx, dmac);
    var b1, cid := EncodeContexts(cs, p[8..24][..8], p[24..40][..8]);
    CompressParts(p, cs, smac, dmac, cid, s, d);
    var b0, inline := EncodeLeading(p, cid);
    BasesAre(TfMode(TrafficClass(p), FlowLabel(p)), p[6] == UDP, HopMode(p[7]), cid != 0, s, IsMulticast(Dst(p)), d);
    var x, y, z;
    b1, x := EncodeSource(b1, p[8..24], smac, sctx, cid != 0, dctx >= 0);
    b1, y := EncodeDest(b1, p[24..40], dmac, dctx, Bit(cid != 0) * 8 + Bit(s.stateful) * 4 + s.mode);
    payload, z := p[40..], [];
    TailIs(p);
    if p[6] == UDP {
      z := EncodeUdp(payload);
      payload := payload[8..];
    }
    buffer := [b0, b1] + (inline + x + y + z);
    assert Tail(p) == z + payload;
    Regroup4(inline, x, y, z, payload);
    Regroup([b0, b1], inline + x + y + z, payload);
  }

  // ----- The decoder

  lemma Join3(h: nat, m: nat, l: nat)
    requires m < 256 && l < 256
    ensures Or(Or(h * 0x1_0000, m * 256), l) == h * 0x1_0000 + m * 256 + l
  {
    hide Or, Pow2;
    Powers();
    OrLow(h, m * 256, 16);
    OrLow(h * 256 + m, l, 8);
  }

  /** Traffic class and flow label, with the running offset. */
  method DecodeTf(buf: seq<byte>, offset0: nat) returns (tc: byte, fl: int, offset: nat)
    requires |buf| > 0 && offset0 + TfWidth(buf[0] / 8 % 4) <= |buf|
    ensures (tc, fl) == TfOf(buf[0] / 8 % 4, buf[offset0..]) && offset == offset0 + TfWidth(buf[0] / 8 % 4)
  {
    hide Or;
    var m := buf[0] / 8 % 4;
    offset := offset0;
    ghost var r := buf[offset..];
    if m == 0 {
      tc := buf[offset];
      Join3(buf[offset + 1] % 16, buf[offset + 2], buf[offset + 3]);
      fl := Or(Or(buf[offset + 1] as int % 16 * 0x1_0000, buf[offset + 2] as int * 256), buf[offset + 3]);
      assert r[0] == buf[offset] && r[1] == buf[offset + 1] && r[2] == buf[offset + 2] && r[3] == buf[offset + 3];
      offset := offset + 4;
    } else if m == 1 {
      tc := buf[offset] / 64 * 64;
      Join3(buf[offset] % 16, buf[offset + 1], buf[offset + 2]);
      fl := Or(Or(buf[offset] as int % 16 * 0x1_0000, buf[offset + 1] as int * 256), buf[offset + 2]);
      assert r[0] == buf[offset] && r[1] == buf[offset + 1] && r[2] == buf[offset + 2];
      offset := offset + 3;
    } else if m == 2 {
      tc, fl := buf[offset], 0;
      assert r[0] == buf[offset];
      offset := offset + 1;
    } else {
      tc, fl := 0, 0;
    }
  }

  /** Next header and hop limit, with the running offset. */
  method DecodeNextHop(buf: seq<byte>, offset0: nat) returns (next: byte, hop: byte, offset: nat)
    requires |buf| > 0 && offset0 + Bit(buf[0] / 4 % 2 == 0) + Bit(buf[0] % 4 == 0) <= |buf|
    ensures next == if buf[0] / 4 % 2 == 1 then UDP else buf[offset0]
    ensures var o := offset0 + Bit(buf[0] / 4 % 2 == 0);
            && hop == (match buf[0] % 4 case 0 => buf[o] case 1 => 1 case 2 => 64 case _ => 255)
            && offset == o + Bit(buf[0] % 4 == 0)
  {
    offset := offset0;
    next, hop := UDP, 255;
    if buf[0] / 4 % 2 == 0 {
      next := buf[offset];
      offset := offset + 1;
    }
    if buf[0] % 4 == 0 {
      hop := buf[offset];
      offset := offset + 1;
    } else if buf[0] % 4 == 1 {
      hop := 1;
    } else if buf[0] % 4 == 2 {
      hop := 64;
    }
  }

  /** The fields read at running offsets are those of the octets that follow one another. */
  lemma FixedAt(buf: seq<byte>, b: Bits)
    requires 0 <= b.tf <= 3 && 0 <= b.hop <= 3 && 2 + FixedWidth(b) <= |buf|
    ensures var o1 := 2 + Bit(b.cid);
            var o2 := o1 + TfWidth(b.tf);
            var o3 := o2 + Bit(!b.nh);
            var o4 := o3 + Bit(b.hop == 0);
            && o4 == 2 + FixedWidth(b) && o4 <= |buf| && |buf[o1..]| >= TfWidth(b.tf)
            && FixedOf(b, buf[2..]) ==
               Fixed(if b.cid then buf[2] else 0, TfOf(b.tf, buf[o1..]), if b.nh then UDP else buf[o2],
                     if b.hop == 0 then buf[o3] else if b.hop == 1 then 1 else if b.hop == 2 then 64 else 255, buf[o4..])
  {
    var o1 := 2 + Bit(b.cid);
    var o2 := o1 + TfWidth(b.tf);
    var o3 := o2 + Bit(!b.nh);
    DropMore(buf, 2, Bit(b.cid));
    DropMore(buf, o1, TfWidth(b.tf));
    DropMore(buf, o2, Bit(!b.nh));
    DropMore(buf, o3, Bit(b.hop == 0));
    hide TfOf, TfWidth;
  }

  /** The fields before the addresses, with the running offset. */
  method DecodeFixed(buf: seq<byte>) returns (f: Fixed, offset: nat)
    requires Complete(buf)
    ensures f == FixedOf(BitsOf(buf[0], buf[1]), buf[2..])
    ensures offset == 2 + FixedWidth(BitsOf(buf[0], buf[1])) && f.rest == buf[offset..]
  {
    hide TfOf, TfWidth, SourceWidth, DestWidth, UdpFits, FixedOf;
    CompleteWidths(buf);
    FixedAt(buf, BitsOf(buf[0], buf[1]));
    offset := 2;
    var ctx := 0;
    if buf[1] / 128 % 2 == 1 {
      ctx := buf[2];
      offset := offset + 1;
    }
    var tc, fl, next, hop;
    tc, fl, offset := DecodeTf(buf, offset);
    next, hop, offset := DecodeNextHop(buf, offset);
    f := Fixed(ctx, (tc, fl), next, hop, buf[offset..]);
  }

  /** The context extension is there if the base bytes announce it. */
  predicate HasContext(buf: seq<byte>) {
    |buf| >= 2 && (buf[1] / 128 == 1 ==> |buf| >= 3)
  }

  function ContextOf(buf: seq<byte>): byte
    requires HasContext(buf)
  {
    if buf[1] / 128 == 1 then buf[2] else 0
  }

  /** The interface identifier in mode 1, 2 or 3; modes 1 and 2 take it from the buffer. */
  method DecodeIid(buf: seq<byte>, offset0: nat, m: int, mac: seq<byte>) returns (iid: seq<byte>, offset: nat)
    requires 1 <= m <= 3 && offset0 + UnicastWidth(m) <= |buf| && ValidMac(mac)
    ensures iid == IidOf(m, buf[offset0..], mac) && offset == offset0 + UnicastWidth(m)
  {
    offset := offset0;
    if m == 1 {
      iid := buf[offset..offset + 8];
      offset := offset + 8;
    } else if m == 2 {
      iid := [0, 0, 0, 0xff, 0xfe, 0, buf[offset], buf[offset + 1]];
      assert buf[offset0..][..2] == [buf[offset], buf[offset + 1]];
      offset := offset + 2;
    } else if |mac| == 2 {
      iid := [0, 0, 0, 0xff, 0xfe, 0, mac[0], mac[1]];
      assert mac == [mac[0], mac[1]];
    } else {
      iid := [FlipLocal(mac[0]), mac[1], mac[2], mac[3], mac[4], mac[5], mac[6], mac[7]];
      assert mac[1..] == [mac[1], mac[2], mac[3], mac[4], mac[5], mac[6], mac[7]];
    }
  }

  /** The source address; None stands for the error return. */
  method DecodeSource(buf: seq<byte>, offset0: nat, cs: Contexts, mac: seq<byte>) returns (src: Option<seq<byte>>, offset: nat)
    requires HasContext(buf)
    requires var (st, m) := (buf[1] / 64 % 2 == 1, buf[1] / 16 % 4); offset0 + SourceWidth(st, m) <= |buf|
    requires ValidMac(mac)
    ensures var (st, m) := (buf[1] / 64 % 2 == 1, buf[1] / 16 % 4);
            && src == SourceOf(st, m, ContextOf(buf) / 16, cs, buf[offset0..], mac)
            && (src.Some? ==> offset == offset0 + SourceWidth(st, m))
  {
    hide IidOf;
    var m := buf[1] / 16 % 4;
    offset := offset0;
    if buf[1] / 64 % 2 == 0 {
      if m == 0 {
        src := Some(buf[offset..offset + 16]);
        assert buf[offset0..][..16] == buf[offset..offset + 16];
        offset := offset + 16;
      } else {
        var iid;
        iid, offset := DecodeIid(buf, offset, m, mac);
        src := Some([0xfe, 0x80, 0, 0, 0, 0, 0, 0] + iid);
      }
    } else if m == 0 {
      src := Some([0, 0, 0, 0, 0, 0, 0, 0, 0, 0, 0, 0, 0, 0, 0, 0]);
      assert src.value == seq(16, i => 0);
    } else {
      var i := 0;
      if buf[1] / 128 == 1 { i := buf[2] / 16 % 16; }
      if i >= |cs| { return None, offset; }
      var iid;
      iid, offset := DecodeIid(buf, offset, m, mac);
      src := Some(cs[i] + iid);
    }
  }

  /** The destination address; None stands for the error returns. */
  method DecodeDest(buf: seq<byte>, offset0: nat, cs: Contexts, mac: seq<byte>) returns (dst: Option<seq<byte>>, offset: nat)
    requires HasContext(buf)
    requires offset0 + DestWidth(buf[1] / 8 % 2 == 1, buf[1] % 4) <= |buf| && ValidMac(mac)
    ensures var (mc, st, m) := (buf[1] / 8 % 2 == 1, buf[1] / 4 % 2 == 1, buf[1] % 4);
            && dst == DestOf(mc, st, m, ContextOf(buf) % 16, cs, buf[offset0..], mac)
            && (dst.Some? ==> offset == offset0 + DestWidth(mc, m))
  {
    hide IidOf;
    var m := buf[1] % 4;
    offset := offset0;
    if buf[1] / 8 % 2 == 1 {
      if buf[1] / 4 % 2 == 1 { return None, offset; }
      var a;
      a, offset := DecodeMulticast(buf, offset, m);
      dst := Some(a);
      return;
    }
    var prefix := [0xfe, 0x80, 0, 0, 0, 0, 0, 0];
    if buf[1] / 4 % 2 == 1 {
      var i := 0;
      if buf[1] / 128 == 1 { i := buf[2] % 16; }
      if i >= |cs| { return None, offset; }
      prefix := cs[i];
    }
    if m == 0 {
      dst := Some(buf[offset..offset + 16]);
      assert buf[offset0..][..16] == buf[offset..offset + 16];
      offset := offset + 16;
    } else {
      var iid;
      iid, offset := DecodeIid(buf, offset, m, mac);
      dst := Some(prefix + iid);
    }
  }

  /** A multicast address in its four forms. */
  method DecodeMulticast(buf: seq<byte>, offset0: nat, m: int) returns (a: seq<byte>, offset: nat)
    requires 0 <= m <= 3 && offset0 + MulticastWidth(m) <= |buf|
    ensures a == MulticastOf(m, buf[offset0..]) && offset == offset0 + MulticastWidth(m)
  {
    offset := offset0;
    ghost var r := buf[offset..];
    if m == 0 {
      a := buf[offset..offset + 16];
      offset := offset + 16;
    } else if m == 1 {
      a := [0xff, buf[offset], 0, 0, 0, 0, 0, 0, 0, 0, 0] + buf[offset + 1..offset + 6];
      assert r[0] == buf[offset] && r[1..6] == buf[offset + 1..offset + 6];
      offset := offset + 6;
    } else if m == 2 {
      a := [0xff, 0, 0, buf[offset], 0, 0, 0, 0, 0, 0, 0, 0, 0] + buf[offset + 1..offset + 4];
      assert r[0] == buf[offset] && r[1..4] == buf[offset + 1..offset + 4];
      offset := offset + 4;
    } else {
      a := [0xff, 2, 0, 0, 0, 0, 0, 0, 0, 0, 0, 0, 0, 0, 0, buf[offset]];
      assert r[0] == buf[offset];
      offset := offset + 1;
    }
  }

  /** The two ports, with the running offset. */
  method DecodePorts(buf: seq<byte>, offset0: nat, i: int) returns (ports: seq<byte>, offset: nat)
    requires 0 <= i <= 3 && offset0 + PortWidth(i) <= |buf|
    ensures ports == PortsOf(i, buf[offset0..]) && offset == offset0 + PortWidth(i)
  {
    offset := offset0;
    ghost var s := buf[offset0..];
    assert forall k :: 0 <= k < |s| ==> s[k] == buf[offset0 + k];
    if i == 0 {
      ports := [buf[offset], buf[offset + 1], buf[offset + 2], buf[offset + 3]];
      assert ports == s[..4];
      offset := offset + 4;
    } else if i == 1 {
      ports := [buf[offset], buf[offset + 1], 0xf0, buf[offset + 2]];
      offset := offset + 3;
    } else if i == 2 {
      ports := [0xf0, buf[offset], buf[offset + 1], buf[offset + 2]];
      offset := offset + 3;
    } else {
      ports := [0xf0, 0xb0 + buf[offset] / 16, 0xf0, 0xb0 + buf[offset] % 16];
      offset := offset + 1;
    }
  }

  lemma UdpParts(buf: seq<byte>, o: nat, i: int)
    requires 0 <= i <= 3 && o + 3 + PortWidth(i) <= |buf|
    ensures buf[o..][1..] == buf[o + 1..]
    ensures var e := o + 1 + PortWidth(i); buf[o..][1 + PortWidth(i)..] == [buf[e], buf[e + 1]] + buf[e + 2..]
  {
  }

  /** The UDP header and what follows it; None stands for the error returns. */
  method DecodeUdp(buf: seq<byte>, offset0: nat) returns (body: Option<seq<byte>>)
    requires offset0 <= |buf| && UdpFits(buf[offset0..])
    ensures body == UdpBody(buf[offset0..])
  {
    var offset := offset0;
    var nhc := buf[offset];
    assert buf[offset0..][0] == nhc;
    if nhc / 8 != 0x1e { return None; }
    if nhc / 4 % 2 == 1 { return None; }
    assert nhc / 4 == 0x3c;
    var i := nhc % 4;
    hide PortsOf, PortWidth;
    UdpParts(buf, offset0, i);
    var ports;
    ports, offset := DecodePorts(buf, offset + 1, i);
    var check := [buf[offset], buf[offset + 1]];
    offset := offset + 2;
    var len := |buf| - offset + 8;
    body := Some(ports + [len / 256 % 256, len % 256] + check + buf[offset..]);
    Regroup(ports + [len / 256 % 256, len % 256], check, buf[offset..]);
  }

  /** The octets of a word from its parts. */
  lemma WordOctets(a: nat, b: nat, c: nat, d: nat)
    requires b < 256 && c < 256 && d < 256
    ensures var w := Word32(a, b, c, d); w / 0x100_0000 == a && w / 0x1_0000 % 256 == b && w / 256 % 256 == c && w % 256 == d
  {
    var w := Word32(a, b, c, d);
    assert w / 256 == (a * 256 + b) * 256 + c;
    assert w / 0x1_0000 == a * 256 + b;
    assert w / 0x100_0000 == a;
  }

  lemma VersionWord(tc: byte, fl: int)
    requires 0 <= fl < 0x10_0000
    ensures var w := 6 * 0x1000_0000 + tc as int * 0x10_0000 + fl;
            && w / 0x100_0000 == 0x60 + tc / 16 && w / 0x1_0000 % 256 == tc % 16 * 16 + fl / 65536
            && w / 256 % 256 == fl / 256 % 256 && w % 256 == fl % 256
  {
    var t: int := tc;
    var (a, b, c, d) := (0x60 + t / 16, t % 16 * 16 + fl / 65536, fl / 256 % 256, fl % 256);
    assert t == t / 16 * 16 + t % 16 && fl == fl / 65536 * 65536 + c * 256 + d;
    assert Word32(a, b, c, d) == 6 * 0x1000_0000 + t * 0x10_0000 + fl;
    hide Word32;
    WordOctets(a, b, c, d);
  }

  /** The octets of the packet, from its fields. */
  method PutPacket(tc: byte, fl: int, next: byte, hop: byte, src: seq<byte>, dst: seq<byte>, body: seq<byte>) returns (r: seq<byte>)
    requires 0 <= fl < 0x10_0000
    ensures r == Packet((tc, fl), next, hop, src, dst, body)
  {
    var w := 6 * 0x1000_0000 + tc as int * 0x10_0000 + fl;
    VersionWord(tc, fl);
    var plen := |body|;
    r := [w / 0x100_0000, w / 0x1_0000 % 256, w / 256 % 256, w % 256] + [plen / 256 % 256, plen % 256] + [next, hop] + src + dst + body;
  }

  lemma DropMore(buf: seq<byte>, o: nat, n: nat)
    requires o + n <= |buf|
    ensures buf[o..][n..] == buf[o + n..]
  {
  }

  /** The packet, with its parts at their offsets in the buffer. */
  function DecodeAt(b: Bits, f: Fixed, buf: seq<byte>, o1: nat, o2: nat, o3: nat, cs: Contexts, smac: seq<byte>, dmac: seq<byte>):
    Option<seq<byte>>
    requires 0 <= b.sam <= 3 && 0 <= b.dam <= 3 && 0 <= f.tf.1 < 0x10_0000 && (|smac| == 2 || |smac| == 8) && (|dmac| == 2 || |dmac| == 8)
    requires o2 == o1 + SourceWidth(b.sac, b.sam) && o3 == o2 + DestWidth(b.mc, b.dam) <= |buf| && (b.nh ==> UdpFits(buf[o3..]))
  {
    var src := SourceOf(b.sac, b.sam, f.ctx / 16, cs, buf[o1..], smac);
    var dst := DestOf(b.mc, b.dac, b.dam, f.ctx % 16, cs, buf[o2..], dmac);
    var body := if b.nh then UdpBody(buf[o3..]) else Some(buf[o3..]);
    if src.None? || dst.None? || body.None? then None
    else Some(Packet(f.tf, f.nexth, f.hop, src.value, dst.value, body.value))
  }

  lemma AssembleAt(b: Bits, f: Fixed, buf: seq<byte>, o1: nat, o2: nat, o3: nat, cs: Contexts, smac: seq<byte>, dmac: seq<byte>)
    requires 0 <= b.sam <= 3 && 0 <= b.dam <= 3 && 0 <= f.tf.1 < 0x10_0000 && ValidMac(smac) && ValidMac(dmac)
    requires o2 == o1 + SourceWidth(b.sac, b.sam) && o3 == o2 + DestWidth(b.mc, b.dam) <= |buf| && (b.nh ==> UdpFits(buf[o3..]))
    requires f.rest == buf[o1..]
    ensures var w := SourceWidth(b.sac, b.sam) + DestWidth(b.mc, b.dam); w <= |f.rest| && (b.nh ==> UdpFits(f.rest[w..]))
    ensures Assemble(b, f, cs, smac, dmac) == DecodeAt(b, f, buf, o1, o2, o3, cs, smac, dmac)
  {
    hide SourceOf, DestOf, UdpBody, SourceWidth, DestWidth, UdpFits, Packet;
    DropMore(buf, o1, o2 - o1);
    DropMore(buf, o1, o3 - o1);
  }

  lemma PartsAt(b: Bits, buf: seq<byte>)
    requires HasParts(b, buf)
    ensures var o1 := 2 + FixedWidth(b);
            var o3 := o1 + SourceWidth(b.sac, b.sam) + DestWidth(b.mc, b.dam);
            && o3 <= |buf| && buf[2..][FixedWidth(b)..] == buf[o1..] && (b.nh ==> UdpFits(buf[o3..]))
  {
    DropMore(buf, 2, FixedWidth(b));
    hide UdpFits;
    DropMore(buf, 2 + FixedWidth(b), SourceWidth(b.sac, b.sam) + DestWidth(b.mc, b.dam));
  }

  lemma DecompressAt(buf: seq<byte>, cs: Contexts, smac: seq<byte>, dmac: seq<byte>, b: Bits, f: Fixed, o1: nat, o2: nat, o3: nat)
    requires Complete(buf) && ValidMac(smac) && ValidMac(dmac) && b == BitsOf(buf[0], buf[1]) && HasParts(b, buf)
    requires f == FixedOf(b, buf[2..]) && o1 == 2 + FixedWidth(b)
    requires o2 == o1 + SourceWidth(b.sac, b.sam) && o3 == o2 + DestWidth(b.mc, b.dam)
    ensures o3 <= |buf| && (b.nh ==> UdpFits(buf[o3..])) && 0 <= b.sam <= 3 && 0 <= b.dam <= 3
    ensures Decompress(buf, cs, smac, dmac) == DecodeAt(b, f, buf, o1, o2, o3, cs, smac, dmac)
  {
    hide TfOf, SourceOf, DestOf, UdpBody, TfWidth, SourceWidth, DestWidth, UdpFits, FixedOf, FixedWidth, Packet, Complete, BitsOf,
      HasParts, Assemble, DecodeAt;
    PartsAt(b, buf);
    AssembleAt(b, f, buf, o1, o2, o3, cs, smac, dmac);
  }

  lemma BitsAre(buf: seq<byte>)
    requires |buf| >= 2
    ensures var b := BitsOf(buf[0], buf[1]);
            && (b.nh <==> buf[0] / 4 % 2 == 1) && (b.sac <==> buf[1] / 64 % 2 == 1) && b.sam == buf[1] / 16 % 4
            && (b.mc <==> buf[1] / 8 % 2 == 1) && (b.dac <==> buf[1] / 4 % 2 == 1) && b.dam == buf[1] % 4
  {
  }

  /** lowpan6_decompress with its running offset. */
  method DecompressBuffer(buf: seq<byte>, cs: Contexts, smac: seq<byte>, dmac: seq<byte>) returns (r: Option<seq<byte>>)
    requires Complete(buf) && ValidMac(smac) && ValidMac(dmac)
    ensures r == Decompress(buf, cs, smac, dmac)
  {
    hide TfOf, SourceOf, DestOf, UdpBody, TfWidth, SourceWidth, DestWidth, UdpFits, FixedOf, FixedWidth, Packet, Complete, BitsOf,
      HasParts, Assemble, Decompress, ContextOf;
    ContextIs(buf);
    CompleteParts(buf);
    BitsAre(buf);
    ghost var b := BitsOf(buf[0], buf[1]);
    var f, o1 := DecodeFixed(buf);
    DecompressAt(buf, cs, smac, dmac, b, f, o1, o1 + SourceWidth(b.sac, b.sam), o1 + SourceWidth(b.sac, b.sam) + DestWidth(b.mc, b.dam));
    var src, o2 := DecodeSource(buf, o1, cs, smac);
    if src.None? { return None; }
    var dst, o3 := DecodeDest(buf, o2, cs, dmac);
    if dst.None? { return None; }
    var body := Some(buf[o3..]);
    if buf[0] / 4 % 2 == 1 { body := DecodeUdp(buf, o3); }
    if body.None? { return None; }
    var q := PutPacket(f.tf.0, f.tf.1, f.nexth, f.hop, src.value, dst.value, body.value);
    r := Some(q);
  }

  lemma CompleteWidths(buf: seq<byte>)
    requires Complete(buf)
    ensures var b := BitsOf(buf[0], buf[1]);
            var w := 2 + FixedWidth(b) + SourceWidth(b.sac, b.sam) + DestWidth(b.mc, b.dam);
            w <= |buf| && (b.nh ==> UdpFits(buf[w..]))
  {
  }

  lemma ContextIs(buf: seq<byte>)
    requires Complete(buf)
    ensures HasContext(buf) && FixedOf(BitsOf(buf[0], buf[1]), buf[2..]).ctx == ContextOf(buf)
  {
  }
}
