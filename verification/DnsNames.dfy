/** Host names in DNS messages (section 4.1.2 of RFC 1035): the encoder in dns_send and dns_compare_name. */
module DnsNames {
  import opened Bytes
  import opened PbufChain

  const DOT := 46

  /** The length of the first label. */
  function LabelLen(name: seq<byte>): (n: nat)
    ensures n <= |name| && (forall i :: 0 <= i < n ==> name[i] != DOT) && (n < |name| ==> name[n] == DOT)
  {
    if name == [] || name[0] == DOT then 0 else 1 + LabelLen(name[1..])
  }

  /** Every label has 1 to 63 octets. */
  predicate Proper(name: seq<byte>)
    decreases |name|
  {
    var n := LabelLen(name);
    1 <= n <= 63 && (n < |name| ==> Proper(name[n + 1..]))
  }

  /** Length octet and label for every label, and a zero. */
  function Encode(name: seq<byte>): seq<byte>
    decreases |name|
  {
    var n := LabelLen(name);
    [n % 256] + name[..n] + if n < |name| then Encode(name[n + 1..]) else [0]
  }

  lemma EncodeFrom(name: seq<byte>, at: nat, end: nat)
    requires at <= end <= |name| && end - at == LabelLen(name[at..])
    ensures Encode(name[at..]) == [(end - at) % 256] + name[at..end] + if end < |name| then Encode(name[end + 1..]) else [0]
  {
    var rest := name[at..];
    assert rest[..end - at] == name[at..end];
    assert end < |name| ==> rest[end - at + 1..] == name[end + 1..];
  }

  lemma LabelLenIs(name: seq<byte>, at: nat, end: nat)
    requires at <= end <= |name| && (forall i :: at <= i < end ==> name[i] != DOT) && (end < |name| ==> name[end] == DOT)
    ensures LabelLen(name[at..]) == end - at
  {
    var (rest, n) := (name[at..], LabelLen(name[at..]));
    assert forall i :: 0 <= i < |rest| ==> rest[i] == name[at + i];
    assert n < |rest| ==> rest[n] == DOT;
    assert end < |name| ==> rest[end - at] == DOT;
  }

  /** The inner loop: to the next dot or the end of the name. */
  method ScanLabel(name: seq<byte>, at: nat) returns (end: nat, n: byte)
    requires at <= |name|
    ensures at <= end <= |name| && end - at == LabelLen(name[at..]) && n == (end - at) % 256
  {
    end, n := at, 0;
    while end < |name| && name[end] != DOT
      invariant at <= end <= |name| && n == (end - at) % 256 && forall i :: at <= i < end ==> name[i] != DOT
    {
      end, n := end + 1, (n as int + 1) % 256;
    }
    LabelLenIs(name, at, end);
  }

  /** The encoding loop of dns_send; `hostname` walks over the name one label a turn. */
  method EncodeName(name: seq<byte>) returns (out: seq<byte>)
    ensures out == Encode(name)
  {
    out := [];
    var hostname := 0;
    assert name[0..] == name;
    hide Encode, LabelLen;
    while true
      invariant 0 <= hostname <= |name| && Encode(name) == out + Encode(name[hostname..])
      decreases |name| - hostname
    {
      var part := hostname;
      var n;
      hostname, n := ScanLabel(name, part);
      EncodeFrom(name, part, hostname);
      Regroup(out, [n] + name[part..hostname], if hostname < |name| then Encode(name[hostname + 1..]) else [0]);
      out := out + ([n] + name[part..hostname]);
      if hostname == |name| {
        out := out + [0];
        return;
      }
      hostname := hostname + 1;
    }
  }

  // ----- dns_compare_name

  /**
   dns_compare_name over the octets `d` of the packet: `query` is the memory from the host name on, which ends
   in a zero octet and is followed by anything; the result is 0xffff for a mismatch.
   */
  function Compare(query: nat -> byte, at: nat, d: seq<byte>, offset: nat): int
    decreases |d| - offset
  {
    if offset >= |d| then 0xffff
    else
      var n := d[offset] as int;
      if n >= 0xc0 then 0xffff
      else if offset + 1 + n >= |d| then 0xffff
      else if !Matches(query, at, d, offset + 1, n) then 0xffff
      else if d[offset + 1 + n] == 0 then offset + 2 + n
      else Compare(query, at + n + 1, d, offset + 1 + n)
  }

  /** The `n` octets of `d` from `from` on are those of the query from `at` on. */
  predicate Matches(query: nat -> byte, at: nat, d: seq<byte>, from: nat, n: nat)
    requires from + n <= |d|
  {
    forall j :: from <= j < from + n ==> d[j] == query(at + (j - from))
  }

  lemma SliceSplit(d: seq<byte>, offset: nat, a: seq<byte>, b: seq<byte>)
    requires SliceOf(d, offset, a + b)
    ensures SliceOf(d, offset, a) && SliceOf(d, offset + |a|, b)
  {
    var e := offset + |a + b|;
    assert a == d[offset..e][..|a|];
    assert b == d[offset..e][|a|..];
  }

  lemma SliceFirst(d: seq<byte>, offset: nat, a: seq<byte>)
    requires SliceOf(d, offset, a) && a != []
    ensures offset < |d| && d[offset] == a[0]
  {
    assert d[offset..offset + |a|][0] == d[offset];
  }

  function Tail(name: seq<byte>): seq<byte> {
    var n := LabelLen(name);
    if n < |name| then Encode(name[n + 1..]) else [0]
  }

  lemma ProperParts(name: seq<byte>)
    requires Proper(name)
    ensures 1 <= LabelLen(name) <= 63 && (LabelLen(name) < |name| ==> Proper(name[LabelLen(name) + 1..]))
  {
  }

  lemma EncodeUnfold(name: seq<byte>)
    ensures Encode(name) == [LabelLen(name) % 256] + name[..LabelLen(name)] + Tail(name)
    ensures LabelLen(name) < |name| ==> Tail(name) == Encode(name[LabelLen(name) + 1..])
    ensures LabelLen(name) == |name| ==> Tail(name) == [0]
  {
  }

  /** The encoding fills exactly the room dns_send allocates for it. */
  lemma {:induction false} EncodeLength(name: seq<byte>)
    ensures |Encode(name)| == |name| + 2
    decreases |name|
  {
    hide Encode, Tail, LabelLen;
    EncodeUnfold(name);
    if LabelLen(name) < |name| { EncodeLength(name[LabelLen(name) + 1..]); }
  }

  lemma EncodeIs(name: seq<byte>)
    requires Proper(name)
    ensures var n := LabelLen(name);
            && 0 < n < 256 && Encode(name) == [n] + name[..n] + Tail(name)
            && Tail(name) != [] && (Tail(name)[0] == 0 <==> n == |name|)
  {
    hide Encode, Tail, Proper, LabelLen;
    ProperParts(name);
    EncodeUnfold(name);
    var n := LabelLen(name);
    if n < |name| {
      ProperParts(name[n + 1..]);
      EncodeUnfold(name[n + 1..]);
    }
  }

  /** The encoding in the packet, piece by piece. */
  lemma EncodeParts(name: seq<byte>, d: seq<byte>, offset: nat)
    requires Proper(name) && SliceOf(d, offset, Encode(name))
    ensures var n := LabelLen(name);
            && offset < |d| && d[offset] == n && SliceOf(d, offset + 1, name[..n]) && SliceOf(d, offset + 1 + n, Tail(name))
            && offset + 1 + n < |d| && (d[offset + 1 + n] == 0 <==> n == |name|)
  {
    hide Encode, SliceOf, Tail, Proper;
    EncodeIs(name);
    var n := LabelLen(name);
    SliceSplit(d, offset, [n] + name[..n], Tail(name));
    SliceSplit(d, offset, [n], name[..n]);
    SliceFirst(d, offset, [n]);
    SliceFirst(d, offset + 1 + n, Tail(name));
  }

  lemma SliceMatches(query: nat -> byte, at: nat, d: seq<byte>, from: nat, name: seq<byte>, n: nat)
    requires n <= |name| && SliceOf(d, from, name[..n]) && Matches(query, at, name, 0, |name|)
    ensures Matches(query, at, d, from, n)
  {
    forall j | from <= j < from + n ensures d[j] == query(at + (j - from)) {
      assert d[j] == d[from..from + n][j - from] == name[j - from];
      assert name[j - from] == query(at + (j - from - 0));
    }
  }

  lemma MatchesRest(query: nat -> byte, at: nat, name: seq<byte>, k: nat)
    requires k <= |name| && Matches(query, at, name, 0, |name|)
    ensures Matches(query, at + k, name[k..], 0, |name| - k)
  {
    forall j | 0 <= j < |name| - k ensures name[k..][j] == query(at + k + (j - 0)) {
      assert name[k + j] == query(at + (k + j - 0));
    }
  }

  /** Every name of proper labels is accepted where its encoding stands, with the offset behind it. */
  lemma {:induction false} EncodedIsAccepted(query: nat -> byte, at: nat, name: seq<byte>, d: seq<byte>, offset: nat)
    requires Proper(name) && Matches(query, at, name, 0, |name|) && SliceOf(d, offset, Encode(name))
    ensures Compare(query, at, d, offset) == offset + |name| + 2
    decreases |name|
  {
    var n := LabelLen(name);
    hide Encode, SliceOf, Matches, Compare, Tail, Proper, LabelLen;
    ProperParts(name);
    EncodeUnfold(name);
    EncodeParts(name, d, offset);
    SliceMatches(query, at, d, offset + 1, name, n);
    CompareStep(query, at, d, offset);
    if n < |name| {
      MatchesRest(query, at, name, n + 1);
      EncodedIsAccepted(query, at + n + 1, name[n + 1..], d, offset + 1 + n);
    }
  }

  /** A label boundary is not compared: a single label with a dot in it is taken for two labels. */
  lemma BoundaryIsNotCompared()
    ensures var name: seq<byte> := [97, DOT, 98];
            var d: seq<byte> := [3, 97, DOT, 98, 0];
            d != Encode(name) && Compare(i => if i == 0 then 97 else if i == 1 then DOT else if i == 2 then 98 else 0, 0, d, 0) == |d|
  {
    var name: seq<byte> := [97, DOT, 98];
    assert LabelLen(name) == 1;
    assert Encode(name)[0] == 1;
  }

  // ----- What acceptance means

  /** A place between two labels. */
  const GAP := -1

  /** An uncompressed name that ends inside the packet. */
  predicate Plain(d: seq<byte>, offset: nat)
    decreases |d| - offset
  {
    && offset < |d| && d[offset] as int < 0xc0 && offset + 1 + d[offset] as int < |d|
    && (d[offset + 1 + d[offset] as int] == 0 || Plain(d, offset + 1 + d[offset] as int))
  }

  /** The labels of a name in the packet, one behind the other, with a gap between two of them. */
  function Spelled(d: seq<byte>, offset: nat): seq<int>
    requires Plain(d, offset)
    decreases |d| - offset
  {
    var end := offset + 1 + d[offset] as int;
    d[offset + 1..end] + if d[end] == 0 then [] else [GAP] + Spelled(d, end)
  }

  /** The query has the octets of `w` from `at` on, and anything in the gaps. */
  ghost predicate Fits(query: nat -> byte, at: nat, w: seq<int>) {
    forall j :: 0 <= j < |w| ==> w[j] == GAP || w[j] == query(at + j) as int
  }

  lemma FitsSplit(query: nat -> byte, at: nat, a: seq<int>, b: seq<int>)
    ensures Fits(query, at, a + b) <==> Fits(query, at, a) && Fits(query, at + |a|, b)
  {
    var w := a + b;
    if Fits(query, at, w) {
      forall j | 0 <= j < |a| ensures a[j] == GAP || a[j] == query(at + j) as int { assert w[j] == a[j]; }
      forall j | 0 <= j < |b| ensures b[j] == GAP || b[j] == query(at + |a| + j) as int {
        assert w[|a| + j] == b[j] && at + (|a| + j) == at + |a| + j;
      }
    }
    if Fits(query, at, a) && Fits(query, at + |a|, b) {
      forall j | 0 <= j < |w| ensures w[j] == GAP || w[j] == query(at + j) as int {
        if j >= |a| { assert w[j] == b[j - |a|] && at + |a| + (j - |a|) == at + j; } else { assert w[j] == a[j]; }
      }
    }
  }

  lemma LabelFits(query: nat -> byte, at: nat, d: seq<byte>, from: nat, n: nat)
    requires from + n <= |d|
    ensures Fits(query, at, d[from..from + n]) <==> Matches(query, at, d, from, n)
  {
    var w := d[from..from + n];
    if Fits(query, at, w) {
      forall j | from <= j < from + n ensures d[j] == query(at + (j - from)) { assert w[j - from] == d[j] as int; }
    }
    if Matches(query, at, d, from, n) {
      forall j | 0 <= j < n ensures w[j] == query(at + j) as int {
        assert d[from + j] == query(at + (from + j - from));
      }
    }
  }

  /**
   A name in the packet is accepted exactly when it is uncompressed, ends inside the packet and agrees with the query
   in every octet of every label. The query's octets between the labels and behind the last one are not looked at.
   */
  lemma {:induction false} AcceptedExactly(query: nat -> byte, at: nat, d: seq<byte>, offset: nat)
    requires |d| <= 0xfffe
    ensures Compare(query, at, d, offset) != 0xffff <==> Plain(d, offset) && Fits(query, at, Spelled(d, offset))
    ensures Compare(query, at, d, offset) != 0xffff ==> Compare(query, at, d, offset) == offset + |Spelled(d, offset)| + 2
    decreases |d| - offset
  {
    hide Fits, Matches;
    if offset < |d| && d[offset] as int < 0xc0 && offset + 1 + d[offset] as int < |d| {
      var n := d[offset] as int;
      var (end, first) := (offset + 1 + n, d[offset + 1..offset + 1 + n]);
      LabelFits(query, at, d, offset + 1, n);
      if d[end] == 0 {
        assert first + [] == first;
      } else {
        AcceptedExactly(query, at + n + 1, d, end);
        if Plain(d, end) {
          FitsSplit(query, at, first, [GAP] + Spelled(d, end));
          FitsSplit(query, at + n, [GAP], Spelled(d, end));
          FitsGap(query, at + n);
        }
      }
    }
  }

  lemma FitsGap(query: nat -> byte, at: nat)
    ensures Fits(query, at, [GAP])
  {
  }

  /** The gaps of `w` are where the dots of `name` are. */
  ghost predicate SameBreaks(w: seq<int>, name: seq<byte>) {
    |w| == |name| && forall j :: 0 <= j < |w| ==> (w[j] == GAP <==> name[j] == DOT)
  }

  /** The first break of a spelled name is behind its first label. */
  lemma SpelledIs(d: seq<byte>, offset: nat)
    requires Plain(d, offset)
    ensures offset < |d|
    ensures var (w, n) := (Spelled(d, offset), d[offset] as int);
            var end := offset + 1 + n;
            && offset < end < |d| && n <= |w| && w[..n] == d[offset + 1..end] && (forall j :: 0 <= j < n ==> w[j] != GAP)
            && (d[end] == 0 <==> n == |w|) && (n < |w| ==> w[n] == GAP && Plain(d, end) && w[n + 1..] == Spelled(d, end))
  {
    var (w, n) := (Spelled(d, offset), d[offset] as int);
    var end := offset + 1 + n;
    var first: seq<int> := d[offset + 1..end];
    if d[end] == 0 {
      assert w == first;
    } else {
      assert w == first + ([GAP] + Spelled(d, end));
      assert w[n + 1..] == Spelled(d, end);
    }
  }

  lemma BreaksSplit(w: seq<int>, name: seq<byte>, n: nat)
    requires n < |w| && n < |name| && w[n] == GAP && name[n] == DOT
    requires forall j :: 0 <= j < n ==> w[j] != GAP && name[j] != DOT
    ensures SameBreaks(w, name) <==> SameBreaks(w[n + 1..], name[n + 1..])
  {
    var (v, rest) := (w[n + 1..], name[n + 1..]);
    if SameBreaks(w, name) {
      forall j | 0 <= j < |v| ensures v[j] == GAP <==> rest[j] == DOT { assert v[j] == w[n + 1 + j] && rest[j] == name[n + 1 + j]; }
    }
    if SameBreaks(v, rest) {
      forall j | 0 <= j < |w| ensures w[j] == GAP <==> name[j] == DOT {
        if j > n { assert w[j] == v[j - n - 1] && name[j] == rest[j - n - 1]; }
      }
    }
  }

  lemma FirstBreak(w: seq<int>, name: seq<byte>, m: nat)
    requires SameBreaks(w, name) && m <= |w| && (forall j :: 0 <= j < m ==> w[j] != GAP) && (m < |w| ==> w[m] == GAP)
    ensures m == LabelLen(name) && |w| == |name|
  {
    var n := LabelLen(name);
    assert m < |name| ==> name[m] == DOT;
    assert n < |w| ==> w[n] == GAP;
  }

  lemma SliceJoin(d: seq<byte>, offset: nat, a: seq<byte>, b: seq<byte>)
    requires SliceOf(d, offset, a) && SliceOf(d, offset + |a|, b)
    ensures SliceOf(d, offset, a + b)
  {
    var e := offset + |a + b|;
    assert d[offset..e] == d[offset..offset + |a|] + d[offset + |a|..e];
  }

  lemma SameText(query: nat -> byte, at: nat, name: seq<byte>, n: nat, d: seq<byte>, from: nat)
    requires n <= |name| && from + n <= |d| && Matches(query, at, name, 0, |name|) && Matches(query, at, d, from, n)
    ensures SliceOf(d, from, name[..n])
  {
    forall j | 0 <= j < n ensures d[from + j] == name[j] {
      assert d[from + j] == query(at + (from + j - from));
      assert name[j] == query(at + (j - 0));
    }
    assert d[from..from + n] == name[..n];
  }

  /** The first label stands in the packet if its length does and it fits the query. */
  lemma LabelStands(query: nat -> byte, at: nat, name: seq<byte>, n: nat, d: seq<byte>, offset: nat)
    requires Plain(d, offset) && d[offset] as int == n <= |name|
    requires Matches(query, at, name, 0, |name|) && Fits(query, at, Spelled(d, offset))
    ensures SliceOf(d, offset, [n] + name[..n])
  {
    var w := Spelled(d, offset);
    SpelledIs(d, offset);
    assert offset + 1 + n <= |d|;
    hide Plain, Spelled, Matches, Fits;
    assert w == w[..n] + w[n..];
    FitsSplit(query, at, w[..n], w[n..]);
    LabelFits(query, at, d, offset + 1, n);
    SameText(query, at, name, n, d, offset + 1);
    assert d[offset..offset + 1] == [n];
    SliceJoin(d, offset, [n], name[..n]);
  }

  lemma SliceBoth(d: seq<byte>, offset: nat, a: seq<byte>, b: seq<byte>)
    requires SliceOf(d, offset, a)
    ensures SliceOf(d, offset, a + b) <==> SliceOf(d, offset + |a|, b)
  {
    hide SliceOf;
    if SliceOf(d, offset, a + b) { SliceSplit(d, offset, a, b); }
    if SliceOf(d, offset + |a|, b) { SliceJoin(d, offset, a, b); }
  }

  /** Either way, the first label of the packet is as long as the name's. */
  lemma SameFirst(name: seq<byte>, d: seq<byte>, offset: nat)
    requires Proper(name) && Plain(d, offset)
    requires SliceOf(d, offset, Encode(name)) || SameBreaks(Spelled(d, offset), name)
    ensures d[offset] as int == LabelLen(name) && (LabelLen(name) == |name| <==> LabelLen(name) == |Spelled(d, offset)|)
  {
    hide *;
    SpelledIs(d, offset);
    if SliceOf(d, offset, Encode(name)) {
      EncodeParts(name, d, offset);
    } else {
      FirstBreak(Spelled(d, offset), name, d[offset] as int);
    }
  }

  /** One label of the encoding. */
  lemma EncodedStep(query: nat -> byte, at: nat, name: seq<byte>, d: seq<byte>, offset: nat)
    requires Proper(name) && Matches(query, at, name, 0, |name|)
    requires Plain(d, offset) && Fits(query, at, Spelled(d, offset))
    requires d[offset] as int == LabelLen(name) && (LabelLen(name) == |name| <==> LabelLen(name) == |Spelled(d, offset)|)
    ensures var n := LabelLen(name);
            SliceOf(d, offset, Encode(name)) <==> n == |name| || SliceOf(d, offset + 1 + n, Encode(name[n + 1..]))
  {
    hide *;
    SpelledIs(d, offset);
    EncodeIs(name);
    var n := LabelLen(name);
    LabelStands(query, at, name, n, d, offset);
    SliceBoth(d, offset, [n] + name[..n], Tail(name));
    EncodeUnfold(name);
    if n == |name| { SliceEnd(d, offset + 1 + n); }
  }

  /** One label of what the packet spells. */
  lemma BreaksStep(query: nat -> byte, at: nat, name: seq<byte>, d: seq<byte>, offset: nat)
    requires Plain(d, offset) && Fits(query, at, Spelled(d, offset))
    requires d[offset] as int == LabelLen(name) && (LabelLen(name) == |name| <==> LabelLen(name) == |Spelled(d, offset)|)
    ensures var n := LabelLen(name);
            n < |name| ==> Plain(d, offset + 1 + n) && Fits(query, at + n + 1, Spelled(d, offset + 1 + n))
    ensures var n := LabelLen(name);
            SameBreaks(Spelled(d, offset), name) <==> n == |name| || SameBreaks(Spelled(d, offset + 1 + n), name[n + 1..])
  {
    var (n, w) := (LabelLen(name), Spelled(d, offset));
    hide *;
    SpelledIs(d, offset);
    if n < |name| {
      BreaksSplit(w, name, n);
      RestFits(query, at, w, n + 1);
    } else {
      BreaksNone(w, name);
    }
  }

  /** Where the packet fits the query, it holds the query's encoding exactly when its labels break at the query's dots. */
  lemma {:induction false} EncodedExactly(query: nat -> byte, at: nat, name: seq<byte>, d: seq<byte>, offset: nat)
    requires Proper(name) && Matches(query, at, name, 0, |name|)
    requires Plain(d, offset) && Fits(query, at, Spelled(d, offset))
    ensures SliceOf(d, offset, Encode(name)) <==> SameBreaks(Spelled(d, offset), name)
    decreases |name|
  {
    var n := LabelLen(name);
    hide *;
    if SliceOf(d, offset, Encode(name)) || SameBreaks(Spelled(d, offset), name) {
      SameFirst(name, d, offset);
      EncodedStep(query, at, name, d, offset);
      BreaksStep(query, at, name, d, offset);
      ProperParts(name);
      if n < |name| {
        MatchesRest(query, at, name, n + 1);
        EncodedExactly(query, at + n + 1, name[n + 1..], d, offset + 1 + n);
      }
    }
  }

  lemma RestFits(query: nat -> byte, at: nat, w: seq<int>, k: nat)
    requires k <= |w| && Fits(query, at, w)
    ensures Fits(query, at + k, w[k..])
  {
    assert w == w[..k] + w[k..];
    FitsSplit(query, at, w[..k], w[k..]);
  }

  lemma SliceEnd(d: seq<byte>, offset: nat)
    requires offset < |d| && d[offset] == 0
    ensures SliceOf(d, offset, [0])
  {
    assert d[offset..offset + 1] == [0];
  }

  lemma BreaksNone(w: seq<int>, name: seq<byte>)
    requires |w| == |name| == LabelLen(name) && forall j :: 0 <= j < |w| ==> w[j] != GAP
    ensures SameBreaks(w, name)
  {
  }

  /** The end of the query is not compared: the first label of a name, alone, is accepted for the whole name. */
  lemma FirstLabelIsAccepted(query: nat -> byte, at: nat, name: seq<byte>, d: seq<byte>, offset: nat)
    requires Proper(name) && Matches(query, at, name, 0, |name|) && SliceOf(d, offset, Encode(name[..LabelLen(name)]))
    ensures Compare(query, at, d, offset) == offset + LabelLen(name) + 2
  {
    var n := LabelLen(name);
    var first := name[..n];
    ProperParts(name);
    LabelLenIs(first, 0, n);
    assert first[0..] == first;
    assert Proper(first);
    assert Matches(query, at, first, 0, |first|) by {
      forall j | 0 <= j < n ensures first[j] == query(at + (j - 0)) { assert name[j] == query(at + (j - 0)); }
    }
    hide Proper, Matches, Encode, SliceOf, Compare;
    EncodedIsAccepted(query, at, first, d, offset);
  }

  /** dns_compare_name on a pbuf chain. */
  method CompareName(query: nat -> byte, q: seq<Buf>, start: nat) returns (r: int)
    requires |Data(q)| <= 0xfffe
    ensures r == Compare(query, 0, Data(q), start)
  {
    var at, offset := 0, start;
    hide Data, Compare;
    while true
      invariant 0 <= at && 0 <= offset && Compare(query, at, Data(q), offset) == Compare(query, 0, Data(q), start)
      decreases |Data(q)| - offset
    {
      CompareStep(query, at, Data(q), offset);
      var n := TryGetAt(q, offset);
      offset := offset + 1;
      if n < 0 { return 0xffff; }
      if n >= 0xc0 { return 0xffff; }
      var ok := CompareLabel(query, at, q, offset, n);
      if !ok { return 0xffff; }
      at, offset := at + n + 1, offset + n;
      n := TryGetAt(q, offset);
      if n < 0 { return 0xffff; }
      if n == 0 { return offset + 1; }
    }
  }

  /** The inner loop of dns_compare_name. */
  method CompareLabel(query: nat -> byte, at: nat, q: seq<Buf>, from: nat, n: nat) returns (ok: bool)
    requires from <= |Data(q)|
    ensures ok <==> from + n <= |Data(q)| && Matches(query, at, Data(q), from, n)
  {
    var i := 0;
    hide Data;
    while i < n
      invariant 0 <= i <= n && from + i <= |Data(q)| && Matches(query, at, Data(q), from, i)
    {
      var c := TryGetAt(q, from + i);
      if c < 0 { return false; }
      if query(at + i) as int != c {
        assert Data(q)[from + i] != query(at + (from + i - from));
        return false;
      }
      i := i + 1;
    }
    ok := true;
  }

  lemma CompareStep(query: nat -> byte, at: nat, d: seq<byte>, offset: nat)
    ensures Compare(query, at, d, offset) ==
      if offset >= |d| || d[offset] as int >= 0xc0 then 0xffff
      else
        var n := d[offset] as int;
        if offset + 1 + n >= |d| || !Matches(query, at, d, offset + 1, n) then 0xffff
        else if d[offset + 1 + n] == 0 then offset + 2 + n
        else Compare(query, at + n + 1, d, offset + 1 + n)
  {
  }

  // ----- dns_skip_name

  /** dns_skip_name: the offset behind the name, or 0xffff; a compression pointer ends it. */
  function SkipTo(d: seq<byte>, offset: nat): int
    decreases |d| - offset
  {
    if offset >= |d| then 0xffff
    else
      var n := d[offset] as int;
      if n >= 0xc0 then offset + 2
      else if offset + 1 + n >= |d| then 0xffff
      else if d[offset + 1 + n] == 0 then offset + 2 + n
      else SkipTo(d, offset + 1 + n)
  }

  /** Labels as they stand in a message: each with its length before it. */
  function Wire(labels: seq<seq<byte>>): seq<byte>
    requires forall i :: 0 <= i < |labels| ==> 0 < |labels[i]| < 64
  {
    if labels == [] then [] else [|labels[0]|] + labels[0] + Wire(labels[1..])
  }

  /** How a name ends: with the root label, or with a compression pointer (section 4.1.4 of RFC 1035). */
  predicate EndsName(end: seq<byte>) { end == [0] || (|end| == 2 && end[0] >= 0xc0) }

  lemma SkipsAt(d: seq<byte>, o: nat, n: nat)
    requires o + 1 + n < |d| && d[o] == n < 64
    ensures SkipTo(d, o) == if d[o + 1 + n] == 0 then o + 2 + n else SkipTo(d, o + 1 + n)
  {
  }

  lemma LabelAt(a: seq<byte>, x: seq<byte>, b: seq<byte>)
    requires |x| < 64 && b != []
    ensures var d := a + ([|x|] + x + b);
            && |d| == |a| + 1 + |x| + |b| && d[|a|] == |x| && d[|a| + 1 + |x|] == b[0] && d == a + ([|x|] + x) + b
  {
  }

  lemma PointerAt(d: seq<byte>, o: nat)
    requires o < |d| && d[o] >= 0xc0
    ensures SkipTo(d, o) == o + 2
  {
  }

  lemma EndAt(a: seq<byte>, end: seq<byte>, rest: seq<byte>)
    requires end != []
    ensures var d := a + ([] + (end + rest)); |d| > |a| && d[|a|] == end[0]
  {
  }

  /**
   Whatever stands before and behind it: a name of any number of labels is skipped to the octet behind its root label
   or its compression pointer. The name of the root alone is not: its zero is taken for an empty label.
   */
  lemma {:induction false} SkipsExactly(a: seq<byte>, labels: seq<seq<byte>>, end: seq<byte>, rest: seq<byte>)
    requires forall i :: 0 <= i < |labels| ==> 0 < |labels[i]| < 64
    requires EndsName(end)
    ensures var d := a + (Wire(labels) + (end + rest));
            if labels == [] && end == [0] then SkipTo(d, |a|) == 0xffff || SkipTo(d, |a|) >= |a| + 2
            else SkipTo(d, |a|) == |a| + |Wire(labels)| + |end|
    decreases |labels|
  {
    hide SkipTo;
    var d := a + (Wire(labels) + (end + rest));
    if labels == [] {
      EndAt(a, end, rest);
      if end == [0] { SkipsForward(d, |a|); } else { PointerAt(d, |a|); }
    } else {
      var (x, more) := (labels[0], labels[1..]);
      var b := Wire(more) + (end + rest);
      WireFirst(labels, end + rest);
      assert b[0] == if more == [] then end[0] else |more[0]|;
      hide Wire;
      LabelAt(a, x, b);
      SkipsAt(d, |a|, |x|);
      if !(more == [] && end == [0]) { SkipsExactly(a + ([|x|] + x), more, end, rest); }
    }
  }

  lemma WireFirst(labels: seq<seq<byte>>, r: seq<byte>)
    requires labels != [] && forall i :: 0 <= i < |labels| ==> 0 < |labels[i]| < 64
    ensures Wire(labels) + r == [|labels[0]|] + labels[0] + (Wire(labels[1..]) + r)
    ensures |Wire(labels)| == 1 + |labels[0]| + |Wire(labels[1..])|
  {
  }

  lemma {:induction false} SkipsForward(d: seq<byte>, offset: nat)
    ensures SkipTo(d, offset) == 0xffff || SkipTo(d, offset) >= offset + 2
    decreases |d| - offset
  {
    if offset < |d| && d[offset] < 0xc0 && offset + 1 + (d[offset] as int) < |d| && d[offset + 1 + (d[offset] as int)] != 0 {
      SkipsForward(d, offset + 1 + (d[offset] as int));
    }
  }

  /** A name that is accepted is skipped to the same offset. */
  lemma {:induction false} AcceptedIsSkipped(query: nat -> byte, at: nat, d: seq<byte>, offset: nat)
    requires Compare(query, at, d, offset) != 0xffff
    ensures SkipTo(d, offset) == Compare(query, at, d, offset)
    decreases |d| - offset
  {
    var n := d[offset] as int;
    if d[offset + 1 + n] != 0 { AcceptedIsSkipped(query, at + n + 1, d, offset + 1 + n); }
  }

  /** dns_skip_name on a pbuf chain. */
  method SkipName(q: seq<Buf>, start: nat) returns (r: int)
    requires q != [] && Packet(q) && |Data(q)| <= 0xfffe
    ensures r == SkipTo(Data(q), start)
  {
    var offset := start;
    assert q[0].totLen == |Data(q)|;
    hide Data;
    while true
      invariant 0 <= offset && SkipTo(Data(q), offset) == SkipTo(Data(q), start)
      decreases |Data(q)| - offset
    {
      var n := TryGetAt(q, offset);
      offset := offset + 1;
      if n < 0 { return 0xffff; }
      if n >= 0xc0 { return offset + 1; }
      if offset + n >= q[0].totLen { return 0xffff; }
      offset := offset + n;
      n := TryGetAt(q, offset);
      if n == 0 { return offset + 1; }
    }
  }
}
