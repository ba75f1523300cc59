/**
 The Internet checksum (section 2 of RFC 1071): three routines that add up a buffer word by word, and the
 forms that add up a chain of buffers, against one sum over the flat octet sequence. The host is little-endian.
 */
module Checksum {
  import opened Bytes
  import opened MachineWords

  // ----- The sum of a sequence of octets

  /** The sum of the octets as 16-bit words; `high` tells that the first octet is the high half of its word. */
  function Sum(b: seq<byte>, high: bool): nat {
    if b == [] then 0 else (b[0] as int) * (if high then 256 else 1) + Sum(b[1..], !high)
  }

  predicate Odd(n: int) { n % 2 == 1 }

  /** The 16-bit one's-complement value of a sum: zero only for zero. */
  function Red(x: nat): (r: nat)
    ensures r < TWO16
  {
    if x == 0 then 0 else (x - 1) % 0xffff + 1
  }

  /** What every routine returns for the octets `b`: their one's-complement sum, not inverted. */
  function Chksum(b: seq<byte>): nat { Red(Sum(b, false)) }

  lemma {:induction false} SumJoin(a: seq<byte>, b: seq<byte>, high: bool)
    ensures Sum(a + b, high) == Sum(a, high) + Sum(b, high != Odd(|a|))
    decreases |a|
  {
    if a == [] {
      assert a + b == b;
    } else {
      assert (a + b)[1..] == a[1..] + b;
      SumJoin(a[1..], b, !high);
      assert Odd(|a|) != Odd(|a[1..]|);
    }
  }

  // ----- Accumulators

  /** `acc` stands for the sum `v`: equal modulo 0xffff, and zero exactly when the sum is. */
  ghost predicate Rep(acc: int, v: int) {
    0 <= acc && 0 <= v && Multiple(acc - v) && (acc == 0 <==> v == 0)
  }

  predicate Multiple(x: int) { x % 0xffff == 0 }

  lemma MultipleOf(m: int)
    ensures Multiple(0xffff * m)
  {
  }

  /** FOLD_U32T */
  function Fold(x: int): int { x / TWO16 + x % TWO16 }

  /** SWAP_BYTES_IN_WORD, and lwip_htons */
  function Swap(w: int): int { w % 256 * 256 + w / 256 % 256 }

  lemma RepSelf(v: nat)
    ensures Rep(v, v)
  {
  }

  lemma RepAdd(a: int, v: int, b: int, w: int)
    requires Rep(a, v) && Rep(b, w)
    ensures Rep(a + b, v + w)
  {
  }

  lemma RepFold(a: int, v: int)
    requires Rep(a, v)
    ensures Rep(Fold(a), v)
    ensures a < TWO32 ==> Fold(a) <= 0x1_fffe
    ensures a <= 0x1_fffe ==> Fold(a) < TWO16
  {
    assert a == a / TWO16 * TWO16 + a % TWO16;
  }

  lemma RepRed(a: int, v: int)
    requires Rep(a, v) && a < TWO16
    ensures a == Red(v)
  {
  }

  lemma RepOfRed(v: nat)
    ensures Rep(Red(v), v)
  {
  }

  /** Two folds take any 32-bit accumulator to the one 16-bit word that stands for its sum. */
  lemma FoldTwice(a: int, v: int)
    requires Rep(a, v) && a < TWO32
    ensures Fold(Fold(a)) == Red(v)
  {
    RepFold(a, v);
    RepFold(Fold(a), v);
    RepRed(Fold(Fold(a)), v);
  }

  lemma SwapIs(a: int)
    requires 0 <= a < TWO16
    ensures Swap(a) == 256 * a - 0xffff * (a / 256) && 0 <= Swap(a) < TWO16 && (Swap(a) == 0 <==> a == 0)
  {
    assert a == a / 256 * 256 + a % 256 && a / 256 % 256 == a / 256;
  }

  lemma RepSwap(a: int, v: int)
    requires Rep(a, v) && a < TWO16
    ensures Rep(Swap(a), 256 * v) && Swap(a) < TWO16
  {
    var (h, k) := (a / 256, (a - v) / 0xffff);
    assert a - v == 0xffff * k;
    hide Swap, Multiple;
    SwapIs(a);
    MultipleOf(256 * k - h);
    assert Swap(a) - 256 * v == 0xffff * (256 * k - h);
  }

  /** Starting in the other half of a word multiplies the sum by 256. */
  lemma {:induction false} SumShift(b: seq<byte>, high: bool, a: int)
    ensures Rep(a, 256 * Sum(b, high)) <==> Rep(a, Sum(b, !high))
  {
    SumTwist(b, high);
  }

  lemma {:induction false} SumTwist(b: seq<byte>, high: bool)
    ensures Multiple(256 * Sum(b, high) - Sum(b, !high)) && (Sum(b, high) == 0 <==> Sum(b, !high) == 0)
  {
    if b != [] {
      SumTwist(b[1..], !high);
      var x := b[0] as int;
      var (s, t) := (Sum(b[1..], !high), Sum(b[1..], high));
      assert Multiple(256 * s - t);
      if high {
        assert 256 * (256 * x + s) - (x + t) == 0xffff * x + (256 * s - t);
      } else {
        assert 256 * (x + s) - (256 * x + t) == 256 * s - t;
      }
    }
  }

  // ----- lwip_standard_chksum

  lemma U32Small(x: int)
    requires 0 <= x < TWO32
    ensures U32(x) == x
  {
  }

  /** One word more. */
  lemma SumStep(b: seq<byte>, i: nat, j: nat, high: bool)
    requires i <= j <= |b|
    ensures Sum(b[..j], high) == Sum(b[..i], high) + Sum(b[i..j], high != Odd(i))
  {
    assert b[..j] == b[..i] + b[i..j];
    SumJoin(b[..i], b[i..j], high);
  }

  lemma SumOne(b: seq<byte>, i: nat, high: bool)
    requires i < |b|
    ensures Sum(b[i..i + 1], high) == (b[i] as int) * (if high then 256 else 1)
  {
    assert b[i..i + 1] == [b[i]];
    assert [b[i]][1..] == [];
  }

  lemma SumTwo(b: seq<byte>, i: nat, high: bool)
    requires i + 1 < |b|
    ensures Sum(b[i..i + 2], high) == (b[i] as int) * (if high then 256 else 1) + (b[i + 1] as int) * (if high then 1 else 256)
  {
    assert b[i..i + 2] == [b[i]] + b[i + 1..i + 2];
    SumJoin([b[i]], b[i + 1..i + 2], high);
    SumOne(b, i, high);
    assert b[i..i + 1] == [b[i]];
    SumOne(b, i + 1, !high);
  }

  function Word(b: seq<byte>, i: nat): nat
    requires i + 1 < |b|
  {
    b[i] as int + 256 * b[i + 1] as int
  }

  lemma AddWord(b: seq<byte>, i: nat, odd: bool)
    requires i + 1 < |b| && Odd(i) == odd
    ensures Sum(b[..i + 2], odd) == Sum(b[..i], odd) + Word(b, i)
  {
    SumStep(b, i, i + 2, odd);
    SumTwo(b, i, false);
  }

  lemma AddLast(b: seq<byte>, i: nat, odd: bool)
    requires i + 1 == |b| && Odd(i) == odd
    ensures Sum(b, odd) == Sum(b[..i], odd) + b[i] as int
  {
    SumStep(b, i, i + 1, odd);
    SumOne(b, i, false);
    assert b[..i + 1] == b;
  }

  lemma AddFirst(b: seq<byte>)
    requires b != []
    ensures Sum(b[..1], true) == 256 * b[0] as int
  {
    assert b[..1] == b[0..1];
    SumOne(b, 0, true);
  }

  /** Version 1: words in network order, swapped at the end. */
  method StandardChksum1(b: seq<byte>) returns (r: nat)
    requires |b| <= 0x2_0000
    ensures r == Chksum(b)
  {
    var acc, i := 0, 0;
    while |b| - i > 1
      invariant 0 <= i <= |b| && !Odd(i) && acc == Sum(b[..i], true) && acc <= i / 2 * 0xffff
    {
      SumStep(b, i, i + 2, true);
      SumTwo(b, i, true);
      acc := (acc + ((b[i] as int) * 256 + b[i + 1] as int)) % TWO32;
      i := i + 2;
    }
    if i < |b| {
      SumStep(b, i, i + 1, true);
      SumOne(b, i, true);
      acc := (acc + (b[i] as int) * 256) % TWO32;
      i := i + 1;
    }
    assert b[..i] == b;
    ghost var v := Sum(b, true);
    RepSelf(v);
    RepFold(acc, v);
    acc := Fold(acc);
    if acc / TWO16 != 0 {
      RepFold(acc, v);
      acc := Fold(acc);
    }
    RepSwap(acc, v);
    SumShift(b, true, Swap(acc));
    r := Swap(acc);
    RepRed(r, Sum(b, false));
  }

  /** The end of versions 2 and 3: `sum` stands for the octets, the first of them in the high half if `odd`. */
  lemma Finish(b: seq<byte>, odd: bool, sum: int)
    requires Rep(sum, Sum(b, odd)) && sum < TWO32
    ensures (if odd then Swap(Fold(Fold(sum))) else Fold(Fold(sum))) == Chksum(b)
  {
    var v := Sum(b, odd);
    FoldTwice(sum, v);
    RepOfRed(v);
    if odd {
      RepSwap(Red(v), v);
      SumShift(b, true, Swap(Red(v)));
      RepRed(Swap(Red(v)), Sum(b, false));
    }
  }

  /** Version 2: words in memory order; an odd start and an odd end share the word `t`. */
  method StandardChksum2(b: seq<byte>, odd: bool) returns (r: nat)
    requires |b| <= 0x2_0000
    ensures r == Chksum(b)
  {
    var t, sum, i := 0, 0, 0;
    assert b[..0] == [];
    if odd && |b| > 0 {
      AddFirst(b);
      t, i := 256 * b[0] as int, 1;
    }
    hide Sum, Fold, Swap, Red, U32, Rep;
    ghost var k := 0;
    while |b| - i > 1
      invariant 0 <= i <= |b| && (b != [] ==> Odd(i) == odd) && t + sum == Sum(b[..i], odd)
      invariant 0 <= t <= (if odd then 0xff00 else 0) && 2 * k <= i && 0 <= sum <= k * 0xffff
    {
      AddWord(b, i, odd);
      U32Small(sum + Word(b, i));
      sum := U32(sum + Word(b, i));
      i, k := i + 2, k + 1;
    }
    if i < |b| {
      AddLast(b, i, odd);
      t := t + b[i] as int;
    } else {
      assert b[..i] == b;
    }
    U32Small(sum + t);
    sum := U32(sum + t);
    RepSelf(Sum(b, odd));
    Finish(b, odd, sum);
    sum := Fold(Fold(sum));
    r := if odd then Swap(sum) else sum;
  }

  /** Adding a 32-bit word with the carry put back. */
  function AddCarry(sum: int, w: int): int {
    var tmp := (sum + w) % TWO32;
    if tmp < sum then tmp + 1 else tmp
  }

  lemma AddCarryRep(sum: int, v: int, w: int, x: int)
    requires Rep(sum, v) && sum < TWO32 && Rep(w, x) && w < TWO32
    ensures Rep(AddCarry(sum, w), v + x) && AddCarry(sum, w) < TWO32
  {
    RepAdd(sum, v, w, x);
    if sum + w >= TWO32 {
      MultipleOf(0x1_0001);
    }
  }

  lemma LongWord(b: seq<byte>, i: nat)
    requires i + 4 <= |b|
    ensures Rep(Long(b, i), Sum(b[i..i + 4], false)) && Long(b, i) < TWO32
  {
    var c := b[i..i + 4];
    assert c[..2] == b[i..i + 2] && c[2..4] == b[i + 2..i + 4] && c[..4] == c;
    SumStep(c, 2, 4, false);
    SumTwo(b, i, false);
    SumTwo(b, i + 2, false);
    MultipleOf(b[i + 2] as int + 256 * b[i + 3] as int);
  }

  function Long(b: seq<byte>, i: nat): int
    requires i + 4 <= |b|
  {
    b[i] as int + 256 * b[i + 1] as int + 0x1_0000 * b[i + 2] as int + 0x100_0000 * b[i + 3] as int
  }

  /** The middle of version 3: 32-bit words, two a turn; `v` is the sum that `sum` stands for. */
  method AddLongs(b: seq<byte>, i0: nat, odd: bool, sum0: int, ghost v0: int) returns (i: nat, sum: int, ghost v: int)
    requires i0 <= |b| && (b != [] ==> Odd(i0) == odd) && Rep(sum0, v0) && sum0 < TWO32
    ensures i0 <= i <= |b| && |b| - i <= 7 && (b != [] ==> Odd(i) == odd)
    ensures v - v0 == Sum(b[..i], odd) - Sum(b[..i0], odd) && Rep(sum, v) && sum < TWO32
  {
    hide Sum, Rep, AddCarry, Long;
    i, sum, v := i0, sum0, v0;
    while |b| - i > 7
      invariant i0 <= i <= |b| && (b != [] ==> Odd(i) == odd)
      invariant v - v0 == Sum(b[..i], odd) - Sum(b[..i0], odd) && Rep(sum, v) && sum < TWO32
    {
      v := AddTwoLongs(b, i, odd, sum, v);
      var tmp := AddCarry(sum, Long(b, i));
      sum := AddCarry(tmp, Long(b, i + 4));
      i := i + 8;
    }
  }

  /** The end of version 3: at most three words and an octet. */
  method AddRest(b: seq<byte>, i0: nat, odd: bool, sum0: int, t0: int, ghost v0: int) returns (sum: int)
    requires i0 <= |b| && |b| - i0 <= 7 && (b != [] ==> Odd(i0) == odd) && Rep(sum0, v0) && sum0 <= 0x1_fffe
    requires 0 <= t0 <= 0xff00 && t0 + v0 == Sum(b[..i0], odd)
    ensures Rep(sum, Sum(b, odd)) && sum < TWO32
  {
    hide Sum, Rep, Word;
    var i, t, k := i0, t0, 0;
    sum := sum0;
    ghost var v := v0;
    while |b| - i > 1
      invariant i0 <= i <= |b| && (b != [] ==> Odd(i) == odd) && |b| - i <= 7 - 2 * k
      invariant t + v == Sum(b[..i], odd) && Rep(sum, v) && sum <= 0x1_fffe + k * 0xffff
    {
      AddWord(b, i, odd);
      WordSmall(b, i);
      RepSelf(Word(b, i));
      RepAdd(sum, v, Word(b, i), Word(b, i));
      sum, v := sum + Word(b, i), v + Word(b, i);
      i, k := i + 2, k + 1;
    }
    if i < |b| {
      AddLast(b, i, odd);
      t := t + b[i] as int;
    } else {
      assert b[..i] == b;
    }
    RepSelf(t);
    RepAdd(sum, v, t, t);
    sum := sum + t;
  }

  lemma WordSmall(b: seq<byte>, i: nat)
    requires i + 1 < |b|
    ensures Word(b, i) <= 0xffff
  {
  }

  /** Version 3: from the first aligned 32-bit word on, two of them a turn. */
  method StandardChksum3(b: seq<byte>, addr: nat) returns (r: nat)
    ensures r == Chksum(b)
  {
    var odd := Odd(addr);
    var t, sum, i := 0, 0, 0;
    assert b[..0] == [];
    if odd && |b| > 0 {
      AddFirst(b);
      t, i := 256 * b[0] as int, 1;
    }
    if (addr + i) % 4 != 0 && |b| - i > 1 {
      AddWord(b, i, odd);
      sum, i := sum + Word(b, i), i + 2;
    }
    RepSelf(sum);
    assert t + sum == Sum(b[..i], odd);
    hide Sum, Fold, Swap, Red, Rep;
    ghost var v;
    i, sum, v := AddLongs(b, i, odd, sum, sum);
    RepFold(sum, v);
    sum := AddRest(b, i, odd, Fold(sum), t, v);
    Finish(b, odd, sum);
    sum := Fold(Fold(sum));
    r := if odd then Swap(sum) else sum;
  }

  lemma AddTwoLongs(b: seq<byte>, i: nat, odd: bool, sum: int, v: int) returns (w: int)
    requires i + 8 <= |b| && Odd(i) == odd && Rep(sum, v) && sum < TWO32
    ensures w - v == Sum(b[..i + 8], odd) - Sum(b[..i], odd)
    ensures var r := AddCarry(AddCarry(sum, Long(b, i)), Long(b, i + 4)); Rep(r, w) && r < TWO32
  {
    hide Sum, Rep, AddCarry, Long;
    SumStep(b, i, i + 4, odd);
    SumStep(b, i + 4, i + 8, odd);
    LongWord(b, i);
    LongWord(b, i + 4);
    var (x, y) := (Sum(b[i..i + 4], false), Sum(b[i + 4..i + 8], false));
    AddCarryRep(sum, v, Long(b, i), x);
    AddCarryRep(AddCarry(sum, Long(b, i)), v + x, Long(b, i + 4), y);
    w := v + x + y;
  }

  // ----- Chains of buffers

  function Twist(v: nat, swapped: bool): nat { if swapped then 256 * v else v }

  /** The accumulator while a chain is added up: `start` and the octets so far, as seen by a word that starts here. */
  ghost predicate Running(acc: int, start: nat, b: seq<byte>, swapped: bool) {
    Rep(acc, Twist(start, swapped) + Sum(b, swapped)) && acc < TWO16
  }

  lemma RepCong(a: int, x: int, y: int)
    requires Rep(a, x) && Multiple(x - y) && 0 <= y && (x == 0 <==> y == 0)
    ensures Rep(a, y)
  {
  }

  lemma TwistIs(v: nat, swapped: bool)
    ensures Multiple(256 * Twist(v, swapped) - Twist(v, !swapped)) && (Twist(v, swapped) == 0 <==> v == 0)
  {
    if swapped { MultipleOf(v); }
  }

  lemma MultipleAdd(x: int, y: int)
    requires Multiple(x) && Multiple(y)
    ensures Multiple(x + y)
  {
  }

  lemma TwistTwice(acc: int, v: nat, b: seq<byte>, swapped: bool)
    requires Rep(acc, 256 * (Twist(v, swapped) + Sum(b, swapped)))
    ensures Rep(acc, Twist(v, !swapped) + Sum(b, !swapped))
  {
    hide Multiple, Sum, Twist, Rep;
    SumTwist(b, swapped);
    TwistIs(v, swapped);
    TwistIs(v, !swapped);
    var (x, y) := (256 * Twist(v, swapped) - Twist(v, !swapped), 256 * Sum(b, swapped) - Sum(b, !swapped));
    MultipleAdd(x, y);
    assert x + y == 256 * (Twist(v, swapped) + Sum(b, swapped)) - (Twist(v, !swapped) + Sum(b, !swapped));
    RepCong(acc, 256 * (Twist(v, swapped) + Sum(b, swapped)), Twist(v, !swapped) + Sum(b, !swapped));
  }

  lemma RunningSwap(acc: int, start: nat, b: seq<byte>, swapped: bool)
    requires Running(acc, start, b, swapped)
    ensures Running(Swap(acc), start, b, !swapped)
  {
    hide Swap, Multiple, Sum;
    RepSwap(acc, Twist(start, swapped) + Sum(b, swapped));
    TwistTwice(Swap(acc), start, b, swapped);
  }

  /** Add the sum of the next octets; when the number so far is even it starts a word, else it was swapped to. */
  lemma RunningAdd(acc: int, start: nat, b: seq<byte>, swapped: bool, c: seq<byte>)
    requires Running(acc, start, b, swapped) && swapped == Odd(|b|)
    ensures Running(Fold(acc + Chksum(c)), start, b + c, swapped)
  {
    hide Fold, Multiple, Sum, Red;
    SumJoin(b, c, swapped);
    RepOfRed(Sum(c, false));
    var v := Twist(start, swapped) + Sum(b, swapped);
    RepAdd(acc, v, Chksum(c), Sum(c, false));
    RepFold(acc + Chksum(c), v + Sum(c, false));
  }

  /** The loop of inet_chksum_pbuf and inet_cksum_pseudo_base. */
  method AddChain(chain: seq<seq<byte>>, start: nat) returns (acc: int)
    requires start < TWO16 && forall i :: 0 <= i < |chain| ==> |chain[i]| < TWO16
    ensures Running(acc, start, Flat(chain), false)
  {
    hide Running, Fold, Swap, Chksum;
    acc := start;
    var swapped, i := false, 0;
    assert Running(acc, start, [], false) by { RunningStart(start); }
    assert chain[..0] == [];
    while i < |chain|
      invariant 0 <= i <= |chain| && Running(acc, start, Flat(chain[..i]), swapped) && swapped == Odd(|Flat(chain[..i])|)
    {
      var q := chain[i];
      RunningAdd(acc, start, Flat(chain[..i]), swapped, q);
      assert chain[..i + 1] == chain[..i] + [q];
      FlatSnoc(chain[..i], q);
      var sum := StandardChksum2(q, false);
      acc := Fold(acc + sum);
      if |q| % 2 != 0 {
        RunningSwap(acc, start, Flat(chain[..i + 1]), swapped);
        swapped := !swapped;
        acc := Swap(acc);
      }
      i := i + 1;
    }
    assert chain[..i] == chain;
    if swapped {
      RunningSwap(acc, start, Flat(chain), swapped);
      acc := Swap(acc);
    }
  }

  lemma RunningStart(start: nat)
    requires start < TWO16
    ensures Running(start, start, [], false)
  {
  }

  /** inet_chksum */
  method InetChksum(b: seq<byte>, odd: bool) returns (r: nat)
    requires |b| < TWO16
    ensures r == 0xffff - Chksum(b)
  {
    var s := StandardChksum2(b, odd);
    r := 0xffff - s;
  }

  /** inet_chksum_pbuf: the same as inet_chksum of the octets in one piece, however they are split. */
  method InetChksumPbuf(chain: seq<seq<byte>>) returns (r: nat)
    requires forall i :: 0 <= i < |chain| ==> |chain[i]| < TWO16
    ensures r == 0xffff - Chksum(Flat(chain))
  {
    var acc := AddChain(chain, 0);
    RepRed(acc, Sum(Flat(chain), false));
    r := 0xffff - acc;
  }

  /** The one's-complement sum of a pseudo header, its protocol and length words, and the octets. */
  function PseudoSum(start: nat, proto: nat, protoLen: nat, b: seq<byte>): nat
    requires proto < TWO16 && protoLen < TWO16
  {
    start + Sum(b, false) + Swap(proto) + Swap(protoLen)
  }

  lemma AddTwo(acc: int, v: int, x: nat, y: nat)
    requires Rep(acc, v) && acc < TWO16 && x < TWO16 && y < TWO16
    ensures Fold(Fold(acc + x + y)) == Red(v + x + y)
  {
    hide Fold, Red, Multiple;
    RepSelf(x);
    RepSelf(y);
    RepAdd(acc, v, x, x);
    RepAdd(acc + x, v + x, y, y);
    FoldTwice(acc + x + y, v + x + y);
  }

  lemma PseudoFinish(acc: int, start: nat, proto: nat, protoLen: nat, b: seq<byte>)
    requires Running(acc, start, b, false) && proto < TWO16 && protoLen < TWO16
    ensures Fold(Fold(acc + Swap(proto) + Swap(protoLen))) == Red(PseudoSum(start, proto, protoLen, b))
  {
    hide Swap, Fold, Red, Rep, Sum;
    SwapIs(proto);
    SwapIs(protoLen);
    AddTwo(acc, start + Sum(b, false), Swap(proto), Swap(protoLen));
  }

  /** inet_cksum_pseudo_base */
  method PseudoChksum(chain: seq<seq<byte>>, proto: nat, protoLen: nat, start: nat) returns (r: nat)
    requires start < TWO16 && proto < TWO16 && protoLen < TWO16 && forall i :: 0 <= i < |chain| ==> |chain[i]| < TWO16
    ensures r == 0xffff - Red(PseudoSum(start, proto, protoLen, Flat(chain)))
  {
    var acc := AddChain(chain, start);
    PseudoFinish(acc, start, proto, protoLen, Flat(chain));
    r := 0xffff - Fold(Fold(acc + Swap(proto) + Swap(protoLen)));
  }

  lemma SumFour(a: seq<byte>, i: nat)
    requires i + 4 <= |a| && !Odd(i)
    ensures Sum(a[..i + 4], false) == Sum(a[..i], false) + Word(a, i) + Word(a, i + 2)
  {
    hide Sum;
    SumStep(a, i, i + 2, false);
    SumTwo(a, i, false);
    SumStep(a, i + 2, i + 4, false);
    SumTwo(a, i + 2, false);
  }

  /** The address words of a pseudo header, folded to 16 bits. */
  method AddressWords(src: seq<byte>, dst: seq<byte>) returns (acc: nat)
    requires |src| == |dst| <= 16 && |src| % 4 == 0
    ensures acc == Red(Sum(src, false) + Sum(dst, false)) && acc < TWO16
  {
    acc := 0;
    var i := 0;
    assert src[..0] == [] && dst[..0] == [];
    assert Sum([], false) == 0;
    hide Sum, Fold, Red;
    while i < |src|
      invariant 0 <= i <= |src| && i % 4 == 0 && acc == Sum(src[..i], false) + Sum(dst[..i], false) && acc <= i * 0x1_0000
    {
      SumFour(src, i);
      SumFour(dst, i);
      acc := acc + Word(src, i) + Word(src, i + 2);
      acc := acc + Word(dst, i) + Word(dst, i + 2);
      i := i + 4;
    }
    assert src[..i] == src && dst[..i] == dst;
    RepSelf(acc);
    FoldTwice(acc, acc);
    acc := Fold(Fold(acc));
  }

  lemma RedJoin(x: nat, y: nat)
    ensures Red(Red(x) + y) == Red(x + y)
  {
    hide Rep, Red;
    RepOfRed(x);
    RepSelf(y);
    RepAdd(Red(x), x, y, y);
    RedOfRep(Red(x) + y, x + y);
  }

  lemma RedOfRep(a: nat, v: nat)
    requires Rep(a, v)
    ensures Red(a) == Red(v)
  {
    if a > 0 {
      var m := (a - v) / 0xffff;
      assert a - v == 0xffff * m;
      assert a - 1 == (v - 1) + 0xffff * m;
    }
  }

  /** The pseudo header of IPv4 (RFC 768) and of IPv6 (section 8.1 of RFC 2460); lengths have 16 bits here. */
  function Header4(src: seq<byte>, dst: seq<byte>, proto: byte, len: nat): seq<byte> {
    src + dst + [0, proto, len / 256 % 256, len % 256]
  }

  function Header6(src: seq<byte>, dst: seq<byte>, proto: byte, len: nat): seq<byte> {
    src + dst + [0, 0, len / 256 % 256, len % 256, 0, 0, 0, proto]
  }

  lemma TrailerSums(proto: byte, len: nat)
    requires len < TWO16
    ensures Sum([0, proto, len / 256 % 256, len % 256], false) == Swap(proto) + Swap(len)
    ensures Sum([0, 0, len / 256 % 256, len % 256, 0, 0, 0, proto], false) == Swap(proto) + Swap(len)
  {
    var x: byte, y: byte := len / 256 % 256, len % 256;
    SumOctets4(0, proto, x, y);
    SumOctets4(0, 0, x, y);
    SumOctets4(0, 0, 0, proto);
    var h: seq<byte>, t: seq<byte> := [0, 0, x, y], [0, 0, 0, proto];
    assert [0, 0, x, y, 0, 0, 0, proto] == h + t;
    SumJoin(h, t, false);
  }

  lemma SumOctets4(a: byte, b: byte, c: byte, d: byte)
    ensures Sum([a, b, c, d], false) == a as int + (b as int) * 256 + c as int + (d as int) * 256
  {
    var s := [a, b, c, d];
    SumFour(s, 0);
    assert s[..0] == [] && s[..4] == s;
  }

  lemma HeaderSum(src: seq<byte>, dst: seq<byte>, trailer: seq<byte>, data: seq<byte>)
    requires !Odd(|src|) && !Odd(|dst|) && !Odd(|trailer|)
    ensures Sum(src + dst + trailer + data, false) == Sum(src, false) + Sum(dst, false) + Sum(trailer, false) + Sum(data, false)
  {
    SumJoin(src + dst + trailer, data, false);
    SumJoin(src + dst, trailer, false);
    SumJoin(src, dst, false);
  }

  lemma PseudoIs(src: seq<byte>, dst: seq<byte>, trailer: seq<byte>, data: seq<byte>, start: nat, proto: nat, len: nat)
    requires !Odd(|src|) && !Odd(|dst|) && !Odd(|trailer|) && proto < TWO16 && len < TWO16
    requires Sum(trailer, false) == Swap(proto) + Swap(len) && start == Red(Sum(src, false) + Sum(dst, false))
    ensures Red(PseudoSum(start, proto, len, data)) == Chksum(src + dst + trailer + data)
  {
    hide Sum, Red, Swap, Odd;
    HeaderSum(src, dst, trailer, data);
    RedJoin(Sum(src, false) + Sum(dst, false), Sum(data, false) + Sum(trailer, false));
  }

  /** inet_chksum_pseudo: the checksum of the IPv4 pseudo header and the octets of the chain in one piece. */
  method InetChksumPseudo(chain: seq<seq<byte>>, proto: byte, protoLen: nat, src: seq<byte>, dst: seq<byte>) returns (r: nat)
    requires |src| == |dst| == 4 && protoLen < TWO16 && forall i :: 0 <= i < |chain| ==> |chain[i]| < TWO16
    ensures r == 0xffff - Chksum(Header4(src, dst, proto, protoLen) + Flat(chain))
  {
    hide Sum, Red, Swap, Chksum;
    var acc := AddressWords(src, dst);
    TrailerSums(proto, protoLen);
    PseudoIs(src, dst, [0, proto, protoLen / 256 % 256, protoLen % 256], Flat(chain), acc, proto, protoLen);
    r := PseudoChksum(chain, proto, protoLen, acc);
  }

  /** ip6_chksum_pseudo: the same with the IPv6 pseudo header. */
  method Ip6ChksumPseudo(chain: seq<seq<byte>>, proto: byte, protoLen: nat, src: seq<byte>, dst: seq<byte>) returns (r: nat)
    requires |src| == |dst| == 16 && protoLen < TWO16 && forall i :: 0 <= i < |chain| ==> |chain[i]| < TWO16
    ensures r == 0xffff - Chksum(Header6(src, dst, proto, protoLen) + Flat(chain))
  {
    hide Sum, Red, Swap, Chksum;
    var acc := AddressWords(src, dst);
    TrailerSums(proto, protoLen);
    PseudoIs(src, dst, [0, 0, protoLen / 256 % 256, protoLen % 256, 0, 0, 0, proto], Flat(chain), acc, proto, protoLen);
    r := PseudoChksum(chain, proto, protoLen, acc);
  }

  // ----- The partial form

  /** The loop of inet_cksum_pseudo_partial_base: the octets covered are a prefix, though the parity test is on q->len. */
  method AddPrefix(chain: seq<seq<byte>>, chksumLen: nat, start: nat) returns (acc: int)
    requires start < TWO16 && chksumLen < TWO16 && forall i :: 0 <= i < |chain| ==> |chain[i]| < TWO16
    requires chain != [] ==> chksumLen - Min(|chain[0]|, chksumLen) < 0x7fff
    ensures Running(acc, start, Flat(chain)[..Min(chksumLen, |Flat(chain)|)], false)
  {
    hide Running, Fold, Swap, Chksum;
    acc := start;
    var swapped, i, left := false, 0, chksumLen;
    ghost var covered := [];
    assert Running(acc, start, [], false) by { RunningStart(start); }
    assert chain[..0] == [];
    while i < |chain| && left > 0
      invariant 0 <= i <= |chain| && 0 <= left <= chksumLen && (i > 0 ==> left < 0x7fff)
      invariant |covered| == chksumLen - left && |covered| <= |Flat(chain)| && covered == Flat(chain)[..|covered|]
      invariant Running(acc, start, covered, swapped)
      invariant left > 0 ==> covered == Flat(chain[..i]) && swapped == Odd(|covered|)
    {
      var q := chain[i];
      var chklen := |q|;
      if chklen > left { chklen := left; }
      RunningAdd(acc, start, covered, swapped, q[..chklen]);
      FlatPrefix(chain, i, chklen);
      assert chain[..i + 1] == chain[..i] + [q];
      FlatSnoc(chain[..i], q);
      assert q[..|q|] == q;
      covered := covered + q[..chklen];
      var sum := StandardChksum2(q[..chklen], false);
      left := left - chklen;
      assert left < 0x7fff;
      acc := Fold(acc + sum);
      if |q| % 2 != 0 {
        RunningSwap(acc, start, covered, swapped);
        swapped := !swapped;
        acc := Swap(acc);
      }
      i := i + 1;
    }
    assert chain[..|chain|] == chain;
    if swapped {
      RunningSwap(acc, start, covered, swapped);
      acc := Swap(acc);
    }
  }

  /** inet_cksum_pseudo_partial_base: the flat checksum of the covered prefix. */
  method PartialChksum(chain: seq<seq<byte>>, proto: nat, protoLen: nat, chksumLen: nat, start: nat) returns (r: nat)
    requires start < TWO16 && proto < TWO16 && protoLen < TWO16 && chksumLen < TWO16
    requires forall i :: 0 <= i < |chain| ==> |chain[i]| < TWO16
    requires chain != [] ==> chksumLen - Min(|chain[0]|, chksumLen) < 0x7fff
    ensures r == 0xffff - Red(PseudoSum(start, proto, protoLen, Flat(chain)[..Min(chksumLen, |Flat(chain)|)]))
  {
    var acc := AddPrefix(chain, chksumLen, start);
    PseudoFinish(acc, start, proto, protoLen, Flat(chain)[..Min(chksumLen, |Flat(chain)|)]);
    r := 0xffff - Fold(Fold(acc + Swap(proto) + Swap(protoLen)));
  }

  // ----- Stamping and checking

  /** What the sender writes into the checksum field, and what UDP writes instead of zero. */
  function Stamp(v: nat): nat { 0xffff - Red(v) }

  function UdpStamp(v: nat): nat { if Stamp(v) == 0 then 0xffff else Stamp(v) }

  /** A sum that includes its own stamp is all ones. */
  lemma StampVerifies(v: nat)
    ensures 0xffff - Red(v + Stamp(v)) == 0
    ensures UdpStamp(v) != 0 && 0xffff - Red(v + UdpStamp(v)) == 0
  {
    RepOfRed(v);
    assert Rep(0xffff, v + Stamp(v));
    RepRed(0xffff, v + Stamp(v));
    assert Rep(0xffff, v + UdpStamp(v));
    RepRed(0xffff, v + UdpStamp(v));
  }

  /** The packet with `c` stored, low octet first, in the field at offset `k`. */
  function WithField(b: seq<byte>, k: nat, c: nat): seq<byte>
    requires k + 2 <= |b| && c < TWO16
  {
    b[k := c % 256][k + 1 := c / 256]
  }

  lemma FieldAdds(b: seq<byte>, k: nat, c: nat)
    requires k + 2 <= |b| && !Odd(k) && c < TWO16 && b[k] == 0 && b[k + 1] == 0
    ensures Sum(WithField(b, k, c), false) == Sum(b, false) + c
  {
    var d := WithField(b, k, c);
    assert d[..k] == b[..k] && d[k + 2..] == b[k + 2..];
    assert b == b[..k + 2] + b[k + 2..] && d == d[..k + 2] + d[k + 2..];
    hide Sum;
    SumJoin(b[..k + 2], b[k + 2..], false);
    SumJoin(d[..k + 2], d[k + 2..], false);
    AddWord(b, k, false);
    AddWord(d, k, false);
  }

  /** A UDP datagram stamped by udp_sendto_if_src passes the test in udp_input, which skips a zero field. */
  lemma StampedDatagramAccepted(b: seq<byte>, k: nat, start: nat, proto: nat, protoLen: nat)
    requires k + 2 <= |b| && !Odd(k) && b[k] == 0 && b[k + 1] == 0 && proto < TWO16 && protoLen < TWO16
    ensures var c := UdpStamp(PseudoSum(start, proto, protoLen, b));
            c != 0 && 0xffff - Red(PseudoSum(start, proto, protoLen, WithField(b, k, c))) == 0
  {
    var v := PseudoSum(start, proto, protoLen, b);
    StampVerifies(v);
    FieldAdds(b, k, UdpStamp(v));
  }

  /** tcp_seg_add_chksum: a segment's running checksum over the data copied so far. */
  method SegAddChksum(chksum: nat, len: nat, segChksum: nat, swapped: bool, ghost sofar: seq<byte>, ghost more: seq<byte>)
    returns (r: int, swapped': bool)
    requires chksum == Chksum(more) && len == |more|
    requires Running(segChksum, 0, sofar, swapped) && swapped == Odd(|sofar|)
    ensures Running(r, 0, sofar + more, swapped') && swapped' == Odd(|sofar + more|)
  {
    RunningAdd(segChksum, 0, sofar, swapped, more);
    hide Running, Fold, Swap, Chksum;
    r, swapped' := Fold(chksum + segChksum), swapped;
    if len % 2 != 0 {
      RunningSwap(r, 0, sofar + more, swapped);
      swapped' := !swapped;
      r := Swap(r);
    }
  }
}
