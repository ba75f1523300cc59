/**
 Packet buffers: chains of nodes with a length, a total length and a reference count each, and the operations
 that walk and change them, against one flat octet sequence.
 */
module PbufChain {
  import opened Bytes
  import opened MachineWords

  /** A node of a chain; `payload` holds its len octets. */
  datatype Buf = Buf(payload: seq<byte>, totLen: int, ref: int)

  function Data(q: seq<Buf>): seq<byte> {
    if q == [] then [] else q[0].payload + Data(q[1..])
  }

  /** tot_len is the length of the node's octets and of all that follow it in the packet. */
  ghost predicate Totals(q: seq<Buf>) {
    q != [] ==> q[0].totLen == |Data(q)| && Totals(q[1..])
  }

  ghost predicate Packet(q: seq<Buf>) {
    Totals(q) && |Data(q)| < TWO16
  }

  lemma {:induction false} DataJoin(a: seq<Buf>, b: seq<Buf>)
    ensures Data(a + b) == Data(a) + Data(b)
  {
    if a == [] {
      assert a + b == b;
    } else {
      assert (a + b)[1..] == a[1..] + b;
      DataJoin(a[1..], b);
      Regroup(a[0].payload, Data(a[1..]), Data(b));
    }
  }

  lemma DataSplit(q: seq<Buf>, k: nat)
    requires k <= |q|
    ensures Data(q) == Data(q[..k]) + Data(q[k..])
  {
    Rejoin(q, k);
    DataJoin(q[..k], q[k..]);
  }

  lemma DataAt(q: seq<Buf>, k: nat)
    requires k < |q|
    ensures Data(q[k..]) == q[k].payload + Data(q[k + 1..])
    ensures Data(q[..k + 1]) == Data(q[..k]) + q[k].payload
  {
    assert q[k..][1..] == q[k + 1..];
    assert q[..k + 1] == q[..k] + [q[k]];
    DataJoin(q[..k], [q[k]]);
    assert Data([q[k]]) == q[k].payload;
  }

  lemma {:induction false} TotalsAt(q: seq<Buf>, k: nat)
    requires Totals(q) && k <= |q|
    ensures Totals(q[k..]) && (k < |q| ==> q[k].totLen == |Data(q[k..])|)
  {
    if k > 0 {
      TotalsAt(q[1..], k - 1);
      assert q[k..] == q[1..][k - 1..];
    }
  }

  // ----- pbuf_cat

  /** Every total raised by the length of what is appended. */
  function Raised(q: seq<Buf>, n: int): seq<Buf> {
    seq(|q|, i requires 0 <= i < |q| => q[i].(totLen := q[i].totLen + n))
  }

  lemma {:induction false} RaisedTotals(q: seq<Buf>, t: seq<Buf>)
    requires Totals(q) && Totals(t)
    ensures Totals(Raised(q, |Data(t)|) + t) && Data(Raised(q, |Data(t)|) + t) == Data(q) + Data(t)
  {
    var r := Raised(q, |Data(t)|);
    if q == [] {
      assert r + t == t;
    } else {
      RaisedTotals(q[1..], t);
      assert (r + t)[1..] == Raised(q[1..], |Data(t)|) + t;
      Regroup(q[0].payload, Data(q[1..]), Data(t));
    }
  }

  /** The chain while pbuf_cat or pbuf_realloc walks it: the totals before node `i` are adjusted. */
  function Adjusted(q: seq<Buf>, i: nat, grow: int): seq<Buf>
    requires i <= |q|
  {
    Raised(q[..i], grow) + q[i..]
  }

  lemma AdjustedIs(q: seq<Buf>, i: nat, grow: int)
    requires i < |q|
    ensures |Adjusted(q, i, grow)| == |q| && Adjusted(q, i, grow)[i] == q[i] && Adjusted(q, i, grow)[i + 1..] == q[i + 1..]
    ensures Adjusted(q, 0, grow) == q
  {
    assert q[i..][0] == q[i];
  }

  lemma AdjustOne(q: seq<Buf>, i: nat, grow: int)
    requires i < |q|
    ensures |Adjusted(q, i, grow)| == |q| && Adjusted(q, i, grow)[i] == q[i]
    ensures Adjusted(q, i, grow)[i := q[i].(totLen := q[i].totLen + grow)] == Adjusted(q, i + 1, grow)
  {
    assert q[i..][0] == q[i];
  }

  lemma U16Small(x: int, g: int)
    requires 0 <= x + g < TWO16
    ensures U16(x + g) == x + g && U16(x + U16(g)) == x + g
  {
  }

  lemma RaiseOne(q: seq<Buf>, k: nat, n: nat)
    requires Packet(q) && k < |q| && |Data(q)| + n < TWO16
    ensures var r := Adjusted(q, k, n);
            |r| == |q| && r[k] == q[k] && r[k := r[k].(totLen := U16(r[k].totLen + n))] == Adjusted(q, k + 1, n)
  {
    TotalsAt(q, k);
    DataSplit(q, k);
    hide Data, Totals, U16, Adjusted;
    U16Small(q[k].totLen, n);
    AdjustOne(q, k, n);
  }

  /** The loop of pbuf_cat and the line behind it. */
  method RaiseAll(h: seq<Buf>, n: nat) returns (q: seq<Buf>)
    requires h != [] && Packet(h) && |Data(h)| + n < TWO16
    ensures q == Raised(h, n)
  {
    var p := 0;
    q := h;
    AdjustedIs(h, 0, n);
    assert Adjusted(h, |h|, n) == Raised(h, n) by { assert h[..|h|] == h; }
    hide Data, Totals, U16, Adjusted, Raised;
    while p + 1 < |q|
      invariant 0 <= p < |q| == |h| && q == Adjusted(h, p, n)
    {
      RaiseOne(h, p, n);
      q := q[p := q[p].(totLen := U16(q[p].totLen + n))];
      p := p + 1;
    }
    RaiseOne(h, p, n);
    q := q[p := q[p].(totLen := U16(q[p].totLen + n))];
  }

  /** pbuf_cat */
  method Cat(h: seq<Buf>, t: seq<Buf>) returns (q: seq<Buf>)
    requires h != [] && t != [] && Packet(h) && Packet(t) && |Data(h)| + |Data(t)| < TWO16
    ensures Packet(q) && Data(q) == Data(h) + Data(t) && |q| == |h| + |t|
    ensures forall i :: 0 <= i < |h| ==> q[i].payload == h[i].payload && q[i].ref == h[i].ref
    ensures q[|h|..] == t
  {
    q := RaiseAll(h, t[0].totLen);
    RaisedTotals(h, t);
    hide Data, Totals;
    q := q + t;
  }

  // ----- pbuf_free

  /** The nodes at the head that only their predecessor or the caller refers to. */
  function Unshared(q: seq<Buf>): (n: nat)
    ensures n <= |q| && (forall i :: 0 <= i < n ==> q[i].ref == 1) && (n < |q| ==> q[n].ref != 1)
  {
    if q != [] && q[0].ref == 1 then 1 + Unshared(q[1..]) else 0
  }

  /** What is left of a chain when one reference to it goes: the first shared node loses a reference. */
  function Freed(q: seq<Buf>): seq<Buf> {
    var n := Unshared(q);
    if n == |q| then [] else q[n..][0 := q[n].(ref := q[n].ref - 1)]
  }

  /** pbuf_free */
  method Free(q: seq<Buf>) returns (rest: seq<Buf>, count: nat)
    requires forall i :: 0 <= i < |q| ==> q[i].ref > 0
    ensures count == Unshared(q) && rest == Freed(q)
  {
    rest, count := q, 0;
    while rest != []
      invariant count <= Unshared(q) && rest == q[count..]
      decreases |rest|
    {
      assert rest[0].ref > 0;
      var ref := rest[0].ref - 1;
      if ref == 0 {
        count := count + 1;
        rest := rest[1..];
      } else {
        rest := rest[0 := rest[0].(ref := ref)];
        return;
      }
    }
  }

  /** pbuf_ref, and with pbuf_cat pbuf_chain */
  function Ref(q: seq<Buf>): seq<Buf>
    requires q != []
  {
    q[0 := q[0].(ref := q[0].ref + 1)]
  }

  /** A reference given up is a reference taken back: nothing is deallocated and the chain is as before. */
  lemma FreeUndoesRef(q: seq<Buf>)
    requires q != [] && q[0].ref > 0
    ensures Unshared(Ref(q)) == 0 && Freed(Ref(q)) == q
  {
  }

  // ----- pbuf_realloc

  /** The chain up to node `i`, whose payload is cut to `rem` octets. */
  function CutAt(q: seq<Buf>, i: nat, rem: nat): seq<Buf>
    requires i < |q| && rem <= |q[i].payload|
  {
    Raised(q[..i], rem - |Data(q[i..])|) + [Buf(q[i].payload[..rem], rem, q[i].ref)]
  }

  lemma CutTail(q: seq<Buf>, i: nat, rem: nat)
    requires 0 < i < |q| && rem <= |q[i].payload|
    ensures CutAt(q, i, rem)[1..] == CutAt(q[1..], i - 1, rem)
    ensures CutAt(q, i, rem)[0] == q[0].(totLen := q[0].totLen + rem - |Data(q[i..])|)
    ensures q[..i][1..] == q[1..][..i - 1] && q[..i][0] == q[0]
  {
    assert q[1..][i - 1..] == q[i..];
  }

  lemma {:induction false} CutTotals(q: seq<Buf>, i: nat, rem: nat)
    requires Totals(q) && i < |q| && rem <= |q[i].payload|
    ensures Totals(CutAt(q, i, rem)) && Data(CutAt(q, i, rem)) == Data(q[..i]) + q[i].payload[..rem]
  {
    if i == 0 {
      var r := CutAt(q, i, rem);
      assert r == [Buf(q[0].payload[..rem], rem, q[0].ref)] && r[1..] == [] && q[..0] == [];
    } else {
      CutTotals(q[1..], i - 1, rem);
      CutTail(q, i, rem);
      DataSplit(q, i);
      hide CutAt;
      Regroup(q[0].payload, Data(q[1..][..i - 1]), q[i].payload[..rem]);
    }
  }

  lemma CutData(q: seq<Buf>, i: nat, rem: nat)
    requires i < |q| && rem <= |q[i].payload|
    ensures |Data(q[..i])| + rem <= |Data(q)|
    ensures Data(q[..i]) + q[i].payload[..rem] == Data(q)[..|Data(q[..i])| + rem]
  {
    DataSplit(q, i);
    DataAt(q, i);
    var (a, b, c) := (Data(q[..i]), q[i].payload, Data(q[i + 1..]));
    assert (a + (b + c))[..|a| + rem] == a + b[..rem];
  }

  lemma AdjustedCut(q: seq<Buf>, i: nat, grow: int, b: Buf)
    requires i < |q|
    ensures |Adjusted(q, i, grow)| == |q| && Adjusted(q, i, grow)[i := b][..i + 1] == Raised(q[..i], grow) + [b]
  {
    var l := Adjusted(q, i, grow);
    assert l[i := b][..i + 1] == l[..i] + [b];
    assert l[..i] == Raised(q[..i], grow);
  }

  lemma LowerOne(q: seq<Buf>, i: nat, grow: int)
    requires Packet(q) && i < |q| && -|Data(q[i..])| <= grow <= 0
    ensures |Adjusted(q, i, grow)| == |q|
    ensures Adjusted(q, i, grow)[i := q[i].(totLen := U16(q[i].totLen + U16(grow)))] == Adjusted(q, i + 1, grow)
  {
    TotalsAt(q, i);
    DataSplit(q, i);
    hide Data, Totals, U16, Adjusted;
    U16Small(q[i].totLen, grow);
    AdjustOne(q, i, grow);
  }

  /** The walk goes on inside the chain as long as fewer octets than wanted lie behind it. */
  lemma WalkOn(q: seq<Buf>, i: nat, rem: int, newLen: int)
    requires i < |q| && rem == newLen - |Data(q[..i])| && rem > |q[i].payload| && newLen < |Data(q)|
    ensures i + 1 < |q| && rem - |q[i].payload| == newLen - |Data(q[..i + 1])| && newLen - |Data(q)| >= -|Data(q[i..])|
  {
    DataAt(q, i);
    DataSplit(q, i);
  }

  /** The loop of pbuf_realloc steps over the nodes that remain as they are. */
  method Walk(q: seq<Buf>, newLen: nat) returns (r: seq<Buf>, i: nat, rem: nat)
    requires q != [] && Packet(q) && newLen < |Data(q)|
    ensures i < |q| && r == Adjusted(q, i, newLen - |Data(q)|)
    ensures rem == newLen - |Data(q[..i])| && rem <= |q[i].payload| && (i > 0 ==> rem > 0)
  {
    r, i, rem := q, 0, newLen;
    assert q[0].totLen == |Data(q)|;
    var grow := newLen - q[0].totLen;
    AdjustedIs(q, 0, grow);
    assert q[..0] == [] && Data(q[..0]) == [];
    hide Data, Totals, Adjusted, U16;
    while rem > |r[i].payload|
      invariant 0 <= i < |q| && r == Adjusted(q, i, grow) && |r| == |q| && r[i] == q[i]
      invariant rem == newLen - |Data(q[..i])| && (i > 0 ==> rem > 0)
      decreases |q| - i
    {
      WalkOn(q, i, rem, newLen);
      LowerOne(q, i, grow);
      rem := rem - |r[i].payload|;
      r := r[i := r[i].(totLen := U16(r[i].totLen + U16(grow)))];
      i := i + 1;
      AdjustedIs(q, i, grow);
    }
  }

  /** pbuf_realloc: truncation; the nodes behind the cut lose this chain's reference. */
  method Realloc(q: seq<Buf>, newLen: nat) returns (r: seq<Buf>, rest: seq<Buf>, count: nat)
    requires q != [] && Packet(q) && forall i :: 0 <= i < |q| ==> q[i].ref > 0
    ensures Packet(r) && 0 < |r| <= |q| && Data(r) == Data(q)[..Min(newLen, |Data(q)|)]
    ensures newLen >= |Data(q)| ==> r == q && rest == [] && count == 0
    ensures newLen < |Data(q)| ==> rest == Freed(q[|r|..]) && count == Unshared(q[|r|..])
    ensures newLen < |Data(q)| && |r| > 1 ==> |Data(q[..|r| - 1])| < newLen
  {
    r, rest, count := q, [], 0;
    assert q[0].totLen == |Data(q)|;
    if newLen < q[0].totLen {
      hide Data, Totals, Adjusted, Freed, Unshared;
      var i, rem;
      r, i, rem := Walk(q, newLen);
      AdjustedIs(q, i, newLen - |Data(q)|);
      rest, count := Free(r[i + 1..]);
      var last := Buf(r[i].payload[..rem], rem, r[i].ref);
      AdjustedCut(q, i, newLen - |Data(q)|, last);
      r := r[i := last][..i + 1];
      CutIs(q, i, rem, newLen);
    }
  }

  lemma CutIs(q: seq<Buf>, i: nat, rem: nat, newLen: nat)
    requires Packet(q) && i < |q| && rem <= |q[i].payload| && rem == newLen - |Data(q[..i])|
    ensures var r := Raised(q[..i], newLen - |Data(q)|) + [Buf(q[i].payload[..rem], rem, q[i].ref)];
            Packet(r) && newLen <= |Data(q)| && Data(r) == Data(q)[..newLen]
  {
    DataSplit(q, i);
    assert CutAt(q, i, rem) == Raised(q[..i], newLen - |Data(q)|) + [Buf(q[i].payload[..rem], rem, q[i].ref)];
    CutTotals(q, i, rem);
    CutData(q, i, rem);
  }

  // ----- Reading

  lemma SliceAt(q: seq<Buf>, i: nat, a: nat, b: nat)
    requires i < |q| && a <= b <= |q[i].payload|
    ensures var at := |Data(q[..i])|; at + b <= |Data(q)| && q[i].payload[a..b] == Data(q)[at + a..at + b]
  {
    DataSplit(q, i);
    DataAt(q, i);
    var (x, y, z) := (Data(q[..i]), q[i].payload, Data(q[i + 1..]));
    assert (x + (y + z))[|x| + a..|x| + b] == y[a..b];
  }

  predicate SliceOf(d: seq<byte>, offset: nat, out: seq<byte>) {
    offset + |out| <= |d| && out == d[offset..offset + |out|]
  }

  lemma SliceGrows(q: seq<Buf>, i: nat, offset: nat, out: seq<byte>, skip: nat, n: nat)
    requires i < |q| && skip + n <= |q[i].payload| && |Data(q[..i])| + skip == offset + |out|
    requires out == [] || SliceOf(Data(q), offset, out)
    ensures SliceOf(Data(q), offset, out + q[i].payload[skip..skip + n])
  {
    SliceAt(q, i, skip, skip + n);
  }

  /** pbuf_copy_partial: the slice, as far as there is one. */
  method CopyPartial(q: seq<Buf>, len: nat, offset: nat) returns (out: seq<byte>)
    ensures out == Data(q)[Min(offset, |Data(q)|)..Min(offset + len, |Data(q)|)]
  {
    var i: nat, left: nat, skip: nat := 0, len, offset;
    out := [];
    assert q[..0] == [] && q[..|q|] == q && Data(q[..0]) == [];
    hide Data, SliceOf;
    while left != 0 && i < |q|
      invariant i <= |q| && |out| + left == len
      invariant out != [] ==> skip == 0 && SliceOf(Data(q), offset, out)
      invariant left > 0 ==> |Data(q[..i])| + skip == offset + |out|
    {
      NodeSkipped(q, i);
      if skip != 0 && skip >= |q[i].payload| {
        skip := skip - |q[i].payload|;
      } else {
        var n := Min(|q[i].payload| - skip, left);
        SliceGrows(q, i, offset, out, skip, n);
        out := out + q[i].payload[skip..skip + n];
        left, skip := left - n, 0;
      }
      i := i + 1;
    }
    SliceDone(Data(q), offset, len, out, skip);
  }

  lemma NodeSkipped(q: seq<Buf>, i: nat)
    requires i < |q|
    ensures |Data(q[..i + 1])| == |Data(q[..i])| + |q[i].payload|
  {
    DataAt(q, i);
  }

  lemma SliceDone(d: seq<byte>, offset: nat, len: nat, out: seq<byte>, skip: nat)
    requires |out| <= len && (out != [] ==> skip == 0 && SliceOf(d, offset, out))
    requires |out| < len ==> |d| + skip == offset + |out|
    ensures out == d[Min(offset, |d|)..Min(offset + len, |d|)]
  {
  }

  lemma Slices(d: seq<byte>, a: nat, b: nat, c: nat)
    requires a <= b <= c <= |d|
    ensures d[a..b] + d[b..c] == d[a..c]
  {
  }

  /** pbuf_skip: the node that holds the octet at `offset`, and where in it. */
  method Skip(q: seq<Buf>, offset: nat) returns (k: nat, left: nat)
    ensures k <= |q| && |Data(q[..k])| + left == offset && (k < |q| ==> left < |q[k].payload|)
    ensures k < |q| <==> offset < |Data(q)|
  {
    k, left := 0, offset;
    assert q[..0] == [];
    while k < |q| && |q[k].payload| <= left
      invariant k <= |q| && |Data(q[..k])| + left == offset
    {
      DataAt(q, k);
      left := left - |q[k].payload|;
      k := k + 1;
    }
    DataSplit(q, k);
    if k < |q| { DataAt(q, k); } else { assert q[..k] == q; }
  }

  /** pbuf_try_get_at */
  method TryGetAt(q: seq<Buf>, offset: nat) returns (r: int)
    ensures r == if offset < |Data(q)| then Data(q)[offset] as int else -1
  {
    var k, left := Skip(q, offset);
    r := -1;
    if k < |q| && |q[k].payload| > left {
      SliceAt(q, k, left, left + 1);
      assert q[k].payload[left] == q[k].payload[left..left + 1][0];
      assert Data(q)[offset] == Data(q)[offset..offset + 1][0];
      r := q[k].payload[left] as int;
    }
  }

  // ----- Writing

  datatype Err = Ok | Mem | Arg | Val

  function Overwritten(d: seq<byte>, at: nat, piece: seq<byte>): (r: seq<byte>)
    requires at + |piece| <= |d|
    ensures |r| == |d|
  {
    d[..at] + piece + d[at + |piece|..]
  }

  lemma OverwrittenTwice(d: seq<byte>, at: nat, x: seq<byte>, y: seq<byte>)
    requires at + |x| + |y| <= |d|
    ensures Overwritten(Overwritten(d, at, x), at + |x|, y) == Overwritten(d, at, x + y)
  {
  }

  /** The same nodes with payloads of the same lengths. */
  ghost predicate SameShape(q: seq<Buf>, r: seq<Buf>) {
    |q| == |r| && forall i :: 0 <= i < |q| ==>
      |r[i].payload| == |q[i].payload| && r[i].totLen == q[i].totLen && r[i].ref == q[i].ref
  }

  lemma {:induction false} SameShapeSums(q: seq<Buf>, r: seq<Buf>)
    requires SameShape(q, r)
    ensures |Data(r)| == |Data(q)| && (Totals(q) <==> Totals(r))
    decreases |q|
  {
    if q != [] {
      SameShapeSums(q[1..], r[1..]);
    }
  }

  /** `piece` copied into node `i` from offset `a`. */
  function Put(q: seq<Buf>, i: nat, a: nat, piece: seq<byte>): seq<Buf>
    requires i < |q| && a + |piece| <= |q[i].payload|
  {
    q[i := q[i].(payload := Overwritten(q[i].payload, a, piece))]
  }

  lemma PutData(q: seq<Buf>, i: nat, a: nat, piece: seq<byte>)
    requires i < |q| && a + |piece| <= |q[i].payload|
    ensures SameShape(q, Put(q, i, a, piece))
    ensures var at := |Data(q[..i])| + a;
            at + |piece| <= |Data(q)| && Data(Put(q, i, a, piece)) == Overwritten(Data(q), at, piece)
  {
    var r := Put(q, i, a, piece);
    assert r[..i] == q[..i] && r[i + 1..] == q[i + 1..] && r[i].payload == Overwritten(q[i].payload, a, piece);
    hide Data, SameShape, Overwritten, Put;
    DataParts(q, i);
    DataParts(r, i);
    PutParts(Data(q[..i]), q[i].payload, Data(q[i + 1..]), a, piece);
  }

  lemma DataParts(q: seq<Buf>, i: nat)
    requires i < |q|
    ensures Data(q) == Data(q[..i]) + (q[i].payload + Data(q[i + 1..]))
  {
    DataSplit(q, i);
    DataAt(q, i);
  }

  lemma PutParts(x: seq<byte>, y: seq<byte>, z: seq<byte>, a: nat, piece: seq<byte>)
    requires a + |piece| <= |y|
    ensures x + (Overwritten(y, a, piece) + z) == Overwritten(x + (y + z), |x| + a, piece)
  {
  }

  lemma SameShapeData(q: seq<Buf>, r: seq<Buf>, k: nat)
    requires SameShape(q, r) && k <= |q|
    ensures |Data(r[..k])| == |Data(q[..k])|
  {
    assert SameShape(q[..k], r[..k]);
    SameShapeSums(q[..k], r[..k]);
  }

  lemma SameShapeTrans(q: seq<Buf>, r: seq<Buf>, s: seq<Buf>)
    requires SameShape(q, r) && SameShape(r, s)
    ensures SameShape(q, s)
  {
  }

  /** `r` is `q` with the first `n` octets of `data` written from `at` on. */
  ghost predicate Taken(q: seq<Buf>, r: seq<Buf>, at: nat, data: seq<byte>, n: nat) {
    n <= |data| && at + n <= |Data(q)| && SameShape(q, r) && Data(r) == Overwritten(Data(q), at, data[..n])
  }

  lemma TakeStep(q: seq<Buf>, r: seq<Buf>, p: nat, at: nat, data: seq<byte>, copied: nat, n: nat)
    requires Taken(q, r, at, data, copied) && p < |q| && |Data(q[..p])| == at + copied
    requires |q| == |r| && n == Min(|data| - copied, |r[p].payload|) && at + |data| <= |Data(q)|
    ensures Taken(q, Put(r, p, 0, data[copied..copied + n]), at, data, copied + n)
    ensures n < |data| - copied ==> |Data(q[..p + 1])| == at + copied + n
  {
    var piece := data[copied..copied + n];
    hide Data, SameShape, Overwritten, Put;
    SameShapeData(q, r, p);
    SameShapeLens(q, r, p);
    DataAt(q, p);
    PutData(r, p, 0, piece);
    OverwrittenTwice(Data(q), at, data[..copied], piece);
    Slices(data, 0, copied, copied + n);
    SameShapeTrans(q, r, Put(r, p, 0, piece));
  }

  lemma NotAtEnd(q: seq<Buf>, p: nat, n: nat)
    requires p <= |q| && |Data(q[..p])| == n < |Data(q)|
    ensures p < |q|
  {
    DataSplit(q, p);
  }

  /** The loop of pbuf_take, from node `k` on. */
  method TakeFrom(q: seq<Buf>, k: nat, data: seq<byte>) returns (r: seq<Buf>)
    requires k <= |q| && |Data(q[..k])| + |data| <= |Data(q)|
    ensures SameShape(q, r) && Data(r) == Overwritten(Data(q), |Data(q[..k])|, data)
  {
    var p: nat, copied: nat := k, 0;
    r := q;
    ghost var at := |Data(q[..k])|;
    assert Taken(q, r, at, data, 0);
    assert data[..|data|] == data;
    hide Data, SameShape;
    while copied < |data|
      invariant k <= p <= |q| && |r| == |q| && copied <= |data| && Taken(q, r, at, data, copied)
      invariant copied < |data| ==> |Data(q[..p])| == at + copied
      decreases |q| - p
    {
      NotAtEnd(q, p, at + copied);
      var n := Min(|data| - copied, |r[p].payload|);
      TakeStep(q, r, p, at, data, copied, n);
      r := Put(r, p, 0, data[copied..copied + n]);
      SameShapeLens(q, r, p);
      copied, p := copied + n, p + 1;
    }
  }

  lemma SameShapeLens(q: seq<Buf>, r: seq<Buf>, i: nat)
    requires SameShape(q, r) && i < |q|
    ensures |r| == |q| && |r[i].payload| == |q[i].payload| && r[i].totLen == q[i].totLen
  {
  }

  /** pbuf_take */
  method Take(q: seq<Buf>, data: seq<byte>) returns (err: Err, r: seq<Buf>)
    requires Packet(q)
    ensures err == if q == [] then Arg else if |Data(q)| < |data| then Mem else Ok
    ensures if err == Ok then SameShape(q, r) && Packet(r) && Data(r) == data + Data(q)[|data|..] else r == q
  {
    r := q;
    if q == [] { return Arg, q; }
    if q[0].totLen < |data| { return Mem, q; }
    assert q[..0] == [];
    r := TakeFrom(q, 0, data);
    SameShapeSums(q, r);
    err := Ok;
  }

  /** pbuf_take_at: overwrites exactly the octets from `offset` on. */
  method TakeAt(q: seq<Buf>, data: seq<byte>, offset: nat) returns (err: Err, r: seq<Buf>)
    requires Packet(q)
    ensures err == if offset < |Data(q)| && offset + |data| <= |Data(q)| then Ok else Mem
    ensures if err == Ok then SameShape(q, r) && Packet(r) && Data(r) == Overwritten(Data(q), offset, data) else r == q
  {
    var k, at := Skip(q, offset);
    if k < |q| {
      TotalsAt(q, k);
    }
    DataSplit(q, k);
    if k < |q| && q[k].totLen >= at + |data| {
      var n := Min(|q[k].payload| - at, |data|);
      PutData(q, k, at, data[..n]);
      r := Put(q, k, at, data[..n]);
      SameShapeSums(q, r);
      if |data| > n {
        r := TakeRest(q, r, k, at, data, n);
      } else {
        assert data[..n] == data;
      }
      err := Ok;
    } else {
      err, r := Mem, q;
    }
  }

  method TakeRest(q: seq<Buf>, q': seq<Buf>, k: nat, at: nat, data: seq<byte>, n: nat) returns (r: seq<Buf>)
    requires k < |q| && Packet(q) && at + n == |q[k].payload| && n < |data|
    requires q' == Put(q, k, at, data[..n]) && |Data(q[..k])| + at + |data| <= |Data(q)|
    ensures SameShape(q, r) && Packet(r) && Data(r) == Overwritten(Data(q), |Data(q[..k])| + at, data)
  {
    hide Data, SameShape;
    PutData(q, k, at, data[..n]);
    DataAt(q, k);
    SameShapeData(q, q', k + 1);
    SameShapeSums(q, q');
    r := TakeFrom(q', k + 1, data[n..]);
    OverwrittenTwice(Data(q), |Data(q[..k])| + at, data[..n], data[n..]);
    Rejoin(data, n);
    SameShapeTrans(q, q', r);
    SameShapeSums(q, r);
  }

  // ----- pbuf_copy

  ghost predicate NoEmpty(q: seq<Buf>) {
    forall i :: 0 <= i < |q| ==> q[i].payload != []
  }

  /** `r` is `to` with the first `n` octets of `from` in front. */
  ghost predicate Copied(to: seq<Buf>, r: seq<Buf>, from: seq<Buf>, n: nat) {
    n <= |Data(from)| && n <= |Data(to)| && SameShape(to, r) && Data(r) == Data(from)[..n] + Data(to)[n..]
  }

  lemma CopyStep(to: seq<Buf>, r: seq<Buf>, from: seq<Buf>, i: nat, j: nat, a: nat, b: nat, len: nat)
    requires i < |to| && j < |from| && |r| == |to| && a + len <= |to[i].payload| && b + len <= |from[j].payload|
    requires var n := |Data(from[..j])| + b; |Data(to[..i])| + a == n && Copied(to, r, from, n)
    ensures |r[i].payload| == |to[i].payload|
    ensures Copied(to, Put(r, i, a, from[j].payload[b..b + len]), from, |Data(from[..j])| + b + len)
  {
    var piece := from[j].payload[b..b + len];
    var n := |Data(from[..j])| + b;
    hide Data, SameShape;
    SameShapeLens(to, r, i);
    SameShapeData(to, r, i);
    SliceAt(from, j, b, b + len);
    PutData(r, i, a, piece);
    PutData(to, i, a, piece);
    SameShapeTrans(to, r, Put(r, i, a, piece));
    Extend(Data(from), Data(to), n, len);
  }

  lemma Extend(x: seq<byte>, y: seq<byte>, n: nat, len: nat)
    requires n + len <= |x| && n + len <= |y|
    ensures Overwritten(x[..n] + y[n..], n, x[n..n + len]) == x[..n + len] + y[n + len..]
  {
  }

  /** Only empty nodes follow a node whose length is the rest of the packet. */
  lemma LastByLength(q: seq<Buf>, i: nat)
    requires Packet(q) && i + 1 < |q| && |q[i].payload| == q[i].totLen
    ensures !NoEmpty(q)
  {
    TotalsAt(q, i);
    DataAt(q, i);
    DataAt(q, i + 1);
  }

  lemma MoreToCome(q: seq<Buf>, j: nat, b: nat)
    requires j < |q| && |Data(q[..j])| + b >= |Data(q)| && (b == 0 || b < |q[j].payload|)
    ensures !NoEmpty(q)
  {
    DataSplit(q, j);
    DataAt(q, j);
  }

  /** The cursors of pbuf_copy stand at the same position of both packets, and all before it is copied. */
  ghost predicate Abreast(to: seq<Buf>, r: seq<Buf>, from: seq<Buf>, i: nat, a: nat, j: nat, b: nat) {
    && i <= |to| && j <= |from| && |r| == |to|
    && (if i == |to| then a == 0 else a <= |to[i].payload| == |r[i].payload| && r[i].totLen == to[i].totLen)
    && (if j == |from| then b == 0 else b <= |from[j].payload|)
    && |Data(to[..i])| + a == |Data(from[..j])| + b && Copied(to, r, from, |Data(from[..j])| + b)
  }

  lemma CopyAbreast(to: seq<Buf>, r: seq<Buf>, from: seq<Buf>, i: nat, a: nat, j: nat, b: nat, len: nat)
    requires Abreast(to, r, from, i, a, j, b) && i < |to| && j < |from|
    requires a + len <= |to[i].payload| && b + len <= |from[j].payload|
    ensures Abreast(to, Put(r, i, a, from[j].payload[b..b + len]), from, i, a + len, j, b + len)
  {
    CopyStep(to, r, from, i, j, a, b, len);
    SameShapeLens(to, Put(r, i, a, from[j].payload[b..b + len]), i);
  }

  lemma NextFrom(to: seq<Buf>, r: seq<Buf>, from: seq<Buf>, i: nat, a: nat, j: nat, b: nat)
    requires Abreast(to, r, from, i, a, j, b) && j < |from| && b == |from[j].payload|
    ensures Abreast(to, r, from, i, a, j + 1, 0)
  {
    DataAt(from, j);
  }

  lemma NextTo(to: seq<Buf>, r: seq<Buf>, from: seq<Buf>, i: nat, a: nat, j: nat, b: nat)
    requires Abreast(to, r, from, i, a, j, b) && i < |to| && a == |to[i].payload|
    ensures Abreast(to, r, from, i + 1, 0, j, b)
  {
    DataAt(to, i);
    if i + 1 < |to| { SameShapeLens(to, r, i + 1); }
  }

  /** The target is used up before the source only if empty nodes are left of the source. */
  lemma TargetUsedUp(to: seq<Buf>, r: seq<Buf>, from: seq<Buf>, j: nat, b: nat)
    requires Abreast(to, r, from, |to|, 0, j, b) && |Data(from)| <= |Data(to)| && j < |from| && (b == 0 || b < |from[j].payload|)
    ensures !NoEmpty(from)
  {
    assert to[..|to|] == to;
    MoreToCome(from, j, b);
  }

  lemma CopyDone(to: seq<Buf>, r: seq<Buf>, from: seq<Buf>, i: nat, a: nat)
    requires Abreast(to, r, from, i, a, |from|, 0)
    ensures |Data(from)| <= |Data(to)| && Data(r) == Data(from) + Data(to)[|Data(from)|..]
  {
    assert from[..|from|] == from;
    hide Data, SameShape;
    assert Data(from)[..|Data(from)|] == Data(from);
  }

  /** One turn of the loop in pbuf_copy: copy a piece and move on where a node is used up. */
  method CopyPiece(to: seq<Buf>, r0: seq<Buf>, from: seq<Buf>, i0: nat, a0: nat, j0: nat, b0: nat)
    returns (r: seq<Buf>, i: nat, a: nat, j: nat, b: nat)
    requires Abreast(to, r0, from, i0, a0, j0, b0) && i0 < |to| && j0 < |from|
    ensures Abreast(to, r, from, i, a, j, b) && i0 <= i <= i0 + 1 && j0 <= j <= j0 + 1 && i0 + j0 < i + j
    ensures j < |from| ==> b == 0 || b < |from[j].payload|
  {
    r, i, a, j, b := r0, i0, a0, j0, b0;
    var len := Min(|r[i].payload| - a, |from[j].payload| - b);
    CopyAbreast(to, r, from, i, a, j, b, len);
    hide Data, Copied;
    r := Put(r, i, a, from[j].payload[b..b + len]);
    a, b := a + len, b + len;
    if b >= |from[j].payload| {
      NextFrom(to, r, from, i, a, j, b);
      b, j := 0, j + 1;
    }
    if a == |r[i].payload| {
      NextTo(to, r, from, i, a, j, b);
      a, i := 0, i + 1;
    }
  }

  /** pbuf_copy: on success `to` starts with the octets of `from`; chains without empty nodes always succeed. */
  method Copy(to: seq<Buf>, from: seq<Buf>) returns (err: Err, r: seq<Buf>)
    requires Packet(to) && Packet(from)
    ensures SameShape(to, r)
    ensures err == Ok ==> |Data(from)| <= |Data(to)| && Data(r) == Data(from) + Data(to)[|Data(from)|..]
    ensures NoEmpty(to) && NoEmpty(from) ==>
              (err == Ok <==> to != [] && from != [] && |Data(from)| <= |Data(to)|)
  {
    r := to;
    if to == [] || from == [] || to[0].totLen < from[0].totLen { return Arg, r; }
    var i, a, j, b := 0, 0, 0, 0;
    assert Abreast(to, r, from, i, a, j, b) && |Data(from)| <= |Data(to)|;
    hide Data, SameShape, Packet, NoEmpty;
    while j < |from|
      invariant 0 <= i && 0 <= a && 0 <= j && 0 <= b && Abreast(to, r, from, i, a, j, b) && (j < |from| ==> i < |to|)
      decreases |from| - j + |to| - i
    {
      r, i, a, j, b := CopyPiece(to, r, from, i, a, j, b);
      if i == |to| && j < |from| {
        TargetUsedUp(to, r, from, j, b);
        return Arg, r;
      }
      if j < |from| && |from[j].payload| == from[j].totLen && j + 1 < |from| {
        LastByLength(from, j);
        return Val, r;
      }
      if i < |to| && |r[i].payload| == r[i].totLen && i + 1 < |to| {
        LastByLength(to, i);
        return Val, r;
      }
    }
    CopyDone(to, r, from, i, a);
    err := Ok;
  }

  // ----- Searching

  /** 0xffff if the packet is too short, 0 if equal, else one more than the first difference. */
  ghost predicate Compared(d: seq<byte>, offset: nat, s: seq<byte>, r: nat) {
    if |d| < offset + |s| then r == 0xffff
    else if r == 0 then d[offset..offset + |s|] == s
    else r <= |s| && Differs(d, offset, s, r - 1)
  }

  /** pbuf_memcmp */
  method MemCmp(q: seq<Buf>, offset: nat, s2: seq<byte>) returns (r: nat)
    requires q != [] && Packet(q)
    ensures Compared(Data(q), offset, s2, r)
    ensures r == 0 <==> Occurs(Data(q), s2, offset)
  {
    assert q[0].totLen == |Data(q)|;
    hide Data, Totals;
    if q[0].totLen < offset + |s2| { return 0xffff; }
    var k, start := Skip(q, offset);
    var rest := q[k..];
    var i := 0;
    while i < |s2|
      invariant 0 <= i <= |s2| && forall j :: 0 <= j < i ==> Data(q)[offset + j] == s2[j]
    {
      RestAt(q, k, start + i);
      var a := TryGetAt(rest, start + i);
      if a != s2[i] as int {
        NotEqual(Data(q), offset, s2, i);
        return i + 1;
      }
      i := i + 1;
    }
    AllEqual(Data(q), offset, s2);
    r := 0;
  }

  /** `i` is the first place where `s` differs from the octets of `d` from `offset` on. */
  ghost predicate Differs(d: seq<byte>, offset: nat, s: seq<byte>, i: nat)
    requires i < |s| && offset + |s| <= |d|
  {
    d[offset + i] != s[i] && forall j :: 0 <= j < i ==> d[offset + j] == s[j]
  }

  lemma NotEqual(d: seq<byte>, offset: nat, s: seq<byte>, i: nat)
    requires i < |s| && offset + |s| <= |d| && d[offset + i] != s[i]
    ensures d[offset..offset + |s|] != s
  {
    assert d[offset..offset + |s|][i] == d[offset + i];
  }

  lemma AllEqual(d: seq<byte>, offset: nat, s: seq<byte>)
    requires offset + |s| <= |d| && forall j :: 0 <= j < |s| ==> d[offset + j] == s[j]
    ensures d[offset..offset + |s|] == s
  {
  }

  lemma RestAt(q: seq<Buf>, k: nat, p: nat)
    requires k <= |q| && |Data(q[..k])| + p < |Data(q)|
    ensures p < |Data(q[k..])| && Data(q[k..])[p] == Data(q)[|Data(q[..k])| + p]
  {
    DataSplit(q, k);
  }

  ghost predicate Occurs(d: seq<byte>, mem: seq<byte>, i: int) {
    0 <= i && i + |mem| <= |d| && d[i..i + |mem|] == mem
  }

  /** pbuf_memfind: the first occurrence at or behind `start`, or 0xffff. */
  method MemFind(q: seq<Buf>, mem: seq<byte>, start: nat) returns (r: nat)
    requires q != [] && Packet(q) && |Data(q)| <= 0xfffe && |mem| < TWO16
    ensures r != 0xffff ==> start <= r && Occurs(Data(q), mem, r) && forall i :: start <= i < r ==> !Occurs(Data(q), mem, i)
    ensures r == 0xffff ==> forall i :: start <= i ==> !Occurs(Data(q), mem, i)
  {
    var max := U16(q[0].totLen - |mem|);
    if q[0].totLen >= |mem| + start {
      var i := start;
      while i <= max
        invariant start <= i <= max + 1 && forall j :: start <= j < i ==> !Occurs(Data(q), mem, j)
      {
        var plus := MemCmp(q, i, mem);
        if plus == 0 { return i; }
        i := i + 1;
      }
    }
    r := 0xffff;
  }
}
