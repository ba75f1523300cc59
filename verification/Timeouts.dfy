/**
 The timer list of timeouts.c: every entry holds the time after its predecessor, the first one the time after
 timeouts_last_time. The clock is an arbitrary 32-bit counter.
 */
module Timeouts {
  import opened MachineWords
  import opened SeqSpace
  import opened Bytes

  datatype Timer = Timer(handler: int, arg: int, time: int)

  function Total(l: seq<Timer>): int {
    if l == [] then 0 else l[0].time + Total(l[1..])
  }

  /** When entry `i` is due, counted from timeouts_last_time. */
  function Due(l: seq<Timer>, i: nat): int
    requires i < |l|
  {
    Total(l[..i + 1])
  }

  ghost predicate Deltas(l: seq<Timer>) {
    forall i :: 0 <= i < |l| ==> 0 <= l[i].time < TWO32
  }

  lemma {:induction false} TotalJoin(a: seq<Timer>, b: seq<Timer>)
    ensures Total(a + b) == Total(a) + Total(b)
  {
    if a == [] {
      assert a + b == b;
    } else {
      assert (a + b)[1..] == a[1..] + b;
      TotalJoin(a[1..], b);
    }
  }

  lemma TotalOne(t: Timer)
    ensures Total([t]) == t.time
  {
  }

  lemma DueStep(l: seq<Timer>, k: nat)
    requires k < |l|
    ensures Total(l[..k + 1]) == Total(l[..k]) + l[k].time
  {
    assert l[..k + 1] == l[..k] + [l[k]];
    TotalJoin(l[..k], [l[k]]);
    TotalOne(l[k]);
  }

  /** Dues never decrease along the list. */
  lemma DueOrder(l: seq<Timer>, i: nat, j: nat)
    requires Deltas(l) && i <= j < |l|
    ensures Due(l, i) <= Due(l, j)
    decreases j
  {
    if i < j {
      DueStep(l, j);
      DueOrder(l, i, j - 1);
    }
  }

  // ----- Putting an entry in

  /** `t` before entry `p`, whose time is lowered by `cut`. */
  function Put(l: seq<Timer>, p: nat, t: Timer, cut: int): seq<Timer>
    requires p <= |l|
  {
    l[..p] + [t] + if p == |l| then [] else [l[p].(time := l[p].time - cut)] + l[p + 1..]
  }

  lemma PutBefore(l: seq<Timer>, p: nat, t: Timer, cut: int, i: nat)
    requires p <= |l| && i < p
    ensures Due(Put(l, p, t, cut), i) == Due(l, i)
  {
    assert Put(l, p, t, cut)[..i + 1] == l[..i + 1];
  }

  lemma PutHere(l: seq<Timer>, p: nat, t: Timer, cut: int)
    requires p <= |l|
    ensures |Put(l, p, t, cut)| == |l| + 1 && Due(Put(l, p, t, cut), p) == Total(l[..p]) + t.time
  {
    assert Put(l, p, t, cut)[..p + 1] == l[..p] + [t];
    TotalJoin(l[..p], [t]);
    TotalOne(t);
  }

  lemma PutBehind(l: seq<Timer>, p: nat, t: Timer, cut: int, i: nat)
    requires p <= i < |l|
    ensures Due(Put(l, p, t, cut), i + 1) == Due(l, i) + t.time - cut
  {
    var (a, m, rest) := (l[..p], l[p].(time := l[p].time - cut), l[p + 1..i + 1]);
    assert Put(l, p, t, cut)[..i + 2] == a + [t] + [m] + rest;
    assert l[..i + 1] == a + [l[p]] + rest;
    TotalJoin(a + [t] + [m], rest);
    TotalJoin(a + [t], [m]);
    TotalJoin(a, [t]);
    TotalJoin(a + [l[p]], rest);
    TotalJoin(a, [l[p]]);
    TotalOne(t);
    TotalOne(m);
    TotalOne(l[p]);
  }

  // ----- Taking an entry out

  /** Entry `p` taken out, its time added to the next one. */
  function Out(l: seq<Timer>, p: nat): seq<Timer>
    requires p < |l|
  {
    l[..p] + if p + 1 == |l| then [] else [l[p + 1].(time := U32(l[p + 1].time + l[p].time))] + l[p + 2..]
  }

  lemma OutBefore(l: seq<Timer>, p: nat, i: nat)
    requires i < p < |l|
    ensures Due(Out(l, p), i) == Due(l, i) && Out(l, p)[i] == l[i]
  {
    assert Out(l, p)[..i + 1] == l[..i + 1];
  }

  /**
   Removing a timer leaves every other timer due when it was; for the ones behind it exactly when its time and
   the next one fit 32 bits together.
   */
  lemma OutBehind(l: seq<Timer>, p: nat, i: nat)
    requires Deltas(l) && p < i < |l|
    ensures Out(l, p)[i - 1].handler == l[i].handler && Out(l, p)[i - 1].arg == l[i].arg
    ensures Due(Out(l, p), i - 1) == Due(l, i) <==> l[p + 1].time + l[p].time < TWO32
  {
    var (a, m, rest) := (l[..p], l[p + 1].(time := U32(l[p + 1].time + l[p].time)), l[p + 2..i + 1]);
    assert Out(l, p)[..i] == a + [m] + rest;
    assert l[..i + 1] == a + [l[p]] + [l[p + 1]] + rest;
    TotalJoin(a + [m], rest);
    TotalJoin(a, [m]);
    TotalJoin(a + [l[p]] + [l[p + 1]], rest);
    TotalJoin(a + [l[p]], [l[p + 1]]);
    TotalJoin(a, [l[p]]);
    TotalOne(m);
    TotalOne(l[p]);
    TotalOne(l[p + 1]);
  }

  // ----- What the three routines do

  /** The number of timers due no later than `due`. */
  function Position(l: seq<Timer>, due: int): (p: nat)
    ensures p <= |l|
  {
    if l == [] || l[0].time > due then 0 else 1 + Position(l[1..], due - l[0].time)
  }

  /** Exactly the timers before Position are due by then. */
  lemma {:induction false} PositionSplits(l: seq<Timer>, due: int, i: nat)
    requires Deltas(l) && i < |l|
    ensures i < Position(l, due) <==> Due(l, i) <= due
  {
    if i == 0 {
      TotalOne(l[0]);
      assert l[..1] == [l[0]];
    } else {
      assert l[..i + 1][1..] == l[1..][..i];
      if l[0].time > due {
        DueOrder(l, 0, i);
        TotalOne(l[0]);
        assert l[..1] == [l[0]];
      } else {
        PositionSplits(l[1..], due - l[0].time, i - 1);
      }
    }
  }

  lemma SplicedIs(l: seq<Timer>, p: nat, t: Timer)
    requires p <= |l|
    ensures var m := if p < |l| then l[p := l[p].(time := l[p].time - t.time)] else l;
            m[..p] + [t] + m[p..] == Put(l, p, t, t.time)
  {
  }

  /** The walk of sys_timeout in 32-bit arithmetic: how many timers are passed, and the time left behind them. */
  function Seek(l: seq<Timer>, time: int): (r: (nat, int))
    requires l != []
    ensures 0 < r.0 <= |l| && 0 <= r.1 < TWO32 && (r.0 < |l| ==> l[r.0].time > r.1)
  {
    var left := U32(time - l[0].time);
    if |l| == 1 || l[1].time > left then (1, left)
    else
      var (p, rest) := Seek(l[1..], left);
      (1 + p, rest)
  }

  /** Without wrap-around the walk passes exactly the timers due no later. */
  lemma {:induction false} SeekIs(l: seq<Timer>, time: int)
    requires Deltas(l) && l != [] && l[0].time <= time < TWO32
    ensures var p := Position(l, time); Seek(l, time) == (p, time - Total(l[..p]))
    decreases |l|
  {
    var (left, rest) := (time - l[0].time, l[1..]);
    U32Small(left);
    assert l[..1] == [l[0]];
    TotalOne(l[0]);
    if |l| > 1 && rest[0].time <= left {
      SeekIs(rest, left);
      var p := Position(rest, left);
      assert l[..1 + p] == [l[0]] + rest[..p];
      TotalJoin([l[0]], rest[..p]);
    } else {
      assert Position(rest, left) == 0;
    }
  }

  lemma U32Small(x: int)
    requires 0 <= x < TWO32
    ensures U32(x) == x
  {
  }

  /** sys_timeout with `diff` milliseconds gone since timeouts_last_time. */
  function Armed(l: seq<Timer>, msecs: int, diff: int, handler: int, arg: int): seq<Timer> {
    if l == [] then [Timer(handler, arg, U32(msecs + diff))]
    else if l[0].time > msecs then Put(l, 0, Timer(handler, arg, U32(msecs + diff)), msecs)
    else
      var (p, left) := Seek(l, U32(msecs + diff));
      var time := if p == |l| && left > msecs then U32(msecs + l[0].time) else left;
      Put(l, p, Timer(handler, arg, time), time)
  }

  /** Where sys_timeout puts the new timer. */
  function Slot(l: seq<Timer>, msecs: int, diff: int): (p: nat)
    ensures p <= |l|
  {
    if l == [] || l[0].time > msecs then 0 else Seek(l, U32(msecs + diff)).0
  }

  /**
   Arming a timer moves others only when it becomes the first, and then all of them by the time that has gone by,
   taken modulo 2^32 together with `msecs`.
   */
  lemma ArmedMoves(l: seq<Timer>, msecs: int, diff: int, handler: int, arg: int, i: nat)
    requires i < |l|
    ensures var (r, p) := (Armed(l, msecs, diff, handler, arg), Slot(l, msecs, diff));
            var j := if i < p then i else i + 1;
            && j < |r| && r[j].handler == l[i].handler && r[j].arg == l[i].arg
            && Due(r, j) == Due(l, i) + if l[0].time > msecs then U32(msecs + diff) - msecs else 0
  {
    var p := Slot(l, msecs, diff);
    var left := if l[0].time > msecs then 0 else Seek(l, U32(msecs + diff)).1;
    var time := if l[0].time > msecs then U32(msecs + diff) else if p == |l| && left > msecs then U32(msecs + l[0].time) else left;
    var (t, cut) := (Timer(handler, arg, time), if l[0].time > msecs then msecs else time);
    assert Armed(l, msecs, diff, handler, arg) == Put(l, p, t, cut);
    if i < p { PutBefore(l, p, t, cut, i); } else { PutBehind(l, p, t, cut, i); }
  }

  /** So no timer becomes earlier exactly when `msecs` and the time gone by fit 32 bits, or the new one is not the first. */
  lemma ArmedDelays(l: seq<Timer>, msecs: int, diff: int, handler: int, arg: int, i: nat)
    requires i < |l| && 0 <= msecs < TWO32 && 0 <= diff < TWO32
    ensures var (r, p) := (Armed(l, msecs, diff, handler, arg), Slot(l, msecs, diff));
            var j := if i < p then i else i + 1;
            && j < |r|
            && (Due(r, j) >= Due(l, i) <==> msecs + diff < TWO32 || l[0].time <= msecs)
            && (msecs + diff < TWO32 ==> Due(r, j) == Due(l, i) + if l[0].time > msecs then diff else 0)
  {
    hide Armed, Slot, Due;
    ArmedMoves(l, msecs, diff, handler, arg, i);
    assert U32(msecs + diff) == if msecs + diff < TWO32 then msecs + diff else msecs + diff - TWO32;
  }

  /** When no time has gone by, the new timer is due in exactly `msecs`, behind all timers due no later. */
  lemma ArmedOnTime(l: seq<Timer>, msecs: int, handler: int, arg: int)
    requires Deltas(l) && 0 <= msecs < TWO32
    ensures var (r, p) := (Armed(l, msecs, 0, handler, arg), Position(l, msecs));
            && |r| == |l| + 1 && Due(r, p) == msecs && r[p].handler == handler && r[p].arg == arg
            && Slot(l, msecs, 0) == p
  {
    U32Small(msecs);
    if l == [] {
      TotalOne(Timer(handler, arg, msecs));
      assert Armed(l, msecs, 0, handler, arg)[..1] == [Timer(handler, arg, msecs)];
    } else if l[0].time > msecs {
      PutHere(l, 0, Timer(handler, arg, msecs), msecs);
      assert l[..0] == [];
    } else {
      SeekIs(l, msecs);
      var p := Position(l, msecs);
      TotalNonNegative(l[..p]);
      var time := msecs - Total(l[..p]);
      PutHere(l, p, Timer(handler, arg, time), time);
    }
  }

  /** A timer armed for 100 ms is due at 130 once another, armed 30 ms later for 50 ms, has gone before it. */
  lemma HeadIsDelayed(handler: int, arg: int)
    ensures var l := Armed([], 100, 0, handler, arg);
            var r := Armed(l, 50, 30, handler, arg);
            Due(l, 0) == 100 && |r| == 2 && Due(r, 1) == 130
  {
    var l := Armed([], 100, 0, handler, arg);
    ArmedDelays(l, 50, 30, handler, arg, 0);
    assert l == [Timer(handler, arg, 100)] && l[..1] == l;
    TotalOne(l[0]);
  }

  /** A timer armed for 10 ms when the clock is 100 ms ahead of a list that ends at 10 is due at 30 instead of 110. */
  lemma ClockIsAhead(handler: int, arg: int)
    ensures var l := Armed([], 10, 0, handler, arg);
            var r := Armed(l, 10, 100, handler, arg);
            |r| == 2 && Due(r, 1) == 30
  {
    var l := Armed([], 10, 0, handler, arg);
    assert l == [Timer(handler, arg, 10)];
    ArmedDueExactly(l, 10, 100, handler, arg);
    TotalOne(l[0]);
    assert l[..1] == l;
  }

  /** Removing the first of two timers makes the second due at 4 instead of 2^32 + 4. */
  lemma RemovalWraps(handler: int, arg: int)
    ensures var l := Armed(Armed([], TWO32 - 1, 0, handler, arg), 1, 5, handler, arg);
            |l| == 2 && Due(l, 1) == TWO32 + 4 && |Out(l, 0)| == 1 && Due(Out(l, 0), 0) == 4
  {
    var l := Armed([], TWO32 - 1, 0, handler, arg);
    assert l == [Timer(handler, arg, TWO32 - 1)] && l[..1] == l;
    TotalOne(l[0]);
    ArmedDelays(l, 1, 5, handler, arg, 0);
    var r := Armed(l, 1, 5, handler, arg);
    assert r == [Timer(handler, arg, 6), Timer(handler, arg, TWO32 - 2)];
    var o := Out(r, 0);
    assert o == [Timer(handler, arg, 4)] && o[..1] == o;
    TotalOne(o[0]);
  }

  lemma {:induction false} TotalNonNegative(l: seq<Timer>)
    requires Deltas(l)
    ensures Total(l) >= 0
  {
    if l != [] { TotalNonNegative(l[1..]); }
  }

  /** The clock has run ahead of the whole list, and the new timer goes behind it. */
  predicate FarAhead(l: seq<Timer>, msecs: int, diff: int)
    requires l != []
  {
    l[0].time <= msecs && Position(l, msecs + diff) == |l| && diff > Total(l)
  }

  lemma ArmedIs(l: seq<Timer>, msecs: int, diff: int, handler: int, arg: int)
    requires Deltas(l) && l != [] && 0 <= msecs && 0 <= diff && msecs + diff < TWO32 && msecs + l[0].time < TWO32
    ensures var p := Slot(l, msecs, diff);
            var time := if FarAhead(l, msecs, diff) then msecs + l[0].time else msecs + diff - Total(l[..p]);
            var cut := if l[0].time > msecs then msecs else time;
            && Armed(l, msecs, diff, handler, arg) == Put(l, p, Timer(handler, arg, time), cut)
            && (FarAhead(l, msecs, diff) ==> l[..p] == l)
  {
    hide Seek, Position, Put, Total, U32;
    U32Small(msecs + diff);
    U32Small(msecs + l[0].time);
    if l[0].time > msecs {
      TotalNone(l);
    } else {
      SeekIs(l, msecs + diff);
      assert l[..|l|] == l;
    }
  }

  lemma TotalNone(l: seq<Timer>)
    ensures Total(l[..0]) == 0
  {
    assert l[..0] == [];
  }

  /** In general the new timer is due `msecs` from now exactly unless the clock has run ahead of the whole list. */
  lemma ArmedDueExactly(l: seq<Timer>, msecs: int, diff: int, handler: int, arg: int)
    requires Deltas(l) && l != [] && 0 <= msecs && 0 <= diff && msecs + diff < TWO32 && msecs + l[0].time < TWO32
    ensures var (r, p) := (Armed(l, msecs, diff, handler, arg), Slot(l, msecs, diff));
            p < |r| && Due(r, p) == if FarAhead(l, msecs, diff) then msecs + Total(l) + l[0].time else msecs + diff
  {
    hide *;
    ArmedIs(l, msecs, diff, handler, arg);
    var p := Slot(l, msecs, diff);
    var time := if FarAhead(l, msecs, diff) then msecs + l[0].time else msecs + diff - Total(l[..p]);
    PutHere(l, p, Timer(handler, arg, time), if l[0].time > msecs then msecs else time);
  }

  function First(l: seq<Timer>, handler: int, arg: int): (p: nat)
    ensures p <= |l|
    ensures forall i :: 0 <= i < p ==> !(l[i].handler == handler && l[i].arg == arg)
    ensures p < |l| ==> l[p].handler == handler && l[p].arg == arg
  {
    if l == [] || (l[0].handler == handler && l[0].arg == arg) then 0 else 1 + First(l[1..], handler, arg)
  }

  /** The list and timeouts_last_time after `i` cyclic timers have been armed; the argument tells which is which. */
  function Started(intervals: seq<int>, nows: seq<int>, cyclic: int, i: nat): (seq<Timer>, int)
    requires i <= |intervals| == |nows|
  {
    if i == 0 then ([], 0)
    else
      var (l, last) := Started(intervals, nows, cyclic, i - 1);
      var now := nows[i - 1];
      (Armed(l, intervals[i - 1], if l == [] then 0 else U32(now - last), cyclic, i - 1), if l == [] then now else last)
  }

  lemma StartedNone(intervals: seq<int>, nows: seq<int>, cyclic: int)
    requires |intervals| == |nows|
    ensures Started(intervals, nows, cyclic, 0) == ([], 0) && Deltas([])
  {
  }

  lemma StartedOne(intervals: seq<int>, nows: seq<int>, cyclic: int, i: nat)
    requires i < |intervals| == |nows|
    ensures var (l, last) := Started(intervals, nows, cyclic, i);
            Started(intervals, nows, cyclic, i + 1) ==
            (Armed(l, intervals[i], if l == [] then 0 else U32(nows[i] - last), cyclic, i), if l == [] then nows[i] else last)
  {
    hide Armed, U32;
  }

  ghost predicate DueIn(l: seq<Timer>, cyclic: int, arg: int, msecs: int) {
    exists p :: 0 <= p < |l| && l[p].handler == cyclic && l[p].arg == arg && Due(l, p) == msecs
  }

  lemma ArmedDeltas(l: seq<Timer>, msecs: int, diff: int, handler: int, arg: int)
    requires Deltas(l) && 0 <= msecs
    ensures Deltas(Armed(l, msecs, diff, handler, arg))
  {
  }

  /** Every reading of the clock is `now`, and the intervals fit 32 bits. */
  ghost predicate Still(intervals: seq<int>, nows: seq<int>, now: int) {
    |intervals| == |nows| && forall k :: 0 <= k < |nows| ==> 0 <= intervals[k] < TWO32 && nows[k] == now
  }

  /** One more timer while the clock stands still. */
  lemma StillStep(intervals: seq<int>, nows: seq<int>, cyclic: int, now: int, i: nat)
    requires Still(intervals, nows, now) && i < |intervals|
    requires Started(intervals, nows, cyclic, i).0 != [] ==> Started(intervals, nows, cyclic, i).1 == now
    ensures Started(intervals, nows, cyclic, i + 1) == (Armed(Started(intervals, nows, cyclic, i).0, intervals[i], 0, cyclic, i), now)
    ensures 0 <= intervals[i] < TWO32
  {
    hide Started, Armed;
    StartedOne(intervals, nows, cyclic, i);
  }

  /** Each of the first `i` cyclic timers is due after its interval. */
  ghost predicate AllDue(l: seq<Timer>, intervals: seq<int>, cyclic: int, i: nat) {
    i <= |intervals| && Deltas(l) && forall j :: 0 <= j < i ==> DueIn(l, cyclic, j, intervals[j])
  }

  lemma AllDueStep(l: seq<Timer>, intervals: seq<int>, cyclic: int, i: nat)
    requires AllDue(l, intervals, cyclic, i) && i < |intervals| && 0 <= intervals[i] < TWO32
    ensures var r := Armed(l, intervals[i], 0, cyclic, i); r != [] && AllDue(r, intervals, cyclic, i + 1)
  {
    hide Armed, Deltas, DueIn;
    ArmedDeltas(l, intervals[i], 0, cyclic, i);
    NewIsDue(l, intervals[i], cyclic, i);
    forall j | 0 <= j < i ensures DueIn(Armed(l, intervals[i], 0, cyclic, i), cyclic, j, intervals[j]) {
      OldIsDue(l, intervals[i], cyclic, i, j, intervals[j]);
    }
  }

  /** If the clock does not move meanwhile, every cyclic timer is due after exactly its interval. */
  lemma {:induction false} StartedOnTime(intervals: seq<int>, nows: seq<int>, cyclic: int, now: int, i: nat)
    requires |intervals| == |nows| && Still(intervals, nows, now) && i <= |intervals|
    ensures AllDue(Started(intervals, nows, cyclic, i).0, intervals, cyclic, i)
    ensures i > 0 ==> Started(intervals, nows, cyclic, i).0 != [] && Started(intervals, nows, cyclic, i).1 == now
  {
    hide Started, Armed, Still, AllDue;
    StillEmpty(intervals, nows, cyclic);
    if i > 0 {
      StartedOnTime(intervals, nows, cyclic, now, i - 1);
      StillStep(intervals, nows, cyclic, now, i - 1);
      AllDueStep(Started(intervals, nows, cyclic, i - 1).0, intervals, cyclic, i - 1);
    }
  }

  lemma StillEmpty(intervals: seq<int>, nows: seq<int>, cyclic: int)
    requires |intervals| == |nows|
    ensures Started(intervals, nows, cyclic, 0) == ([], 0) && AllDue([], intervals, cyclic, 0)
  {
  }

  lemma NewIsDue(l: seq<Timer>, msecs: int, cyclic: int, k: int)
    requires Deltas(l) && 0 <= msecs < TWO32
    ensures var r := Armed(l, msecs, 0, cyclic, k); r != [] && DueIn(r, cyclic, k, msecs)
  {
    hide Armed, Due, Position, Deltas;
    ArmedOnTime(l, msecs, cyclic, k);
  }

  lemma OldIsDue(l: seq<Timer>, msecs: int, cyclic: int, k: int, j: int, m: int)
    requires 0 <= msecs < TWO32 && DueIn(l, cyclic, j, m)
    ensures DueIn(Armed(l, msecs, 0, cyclic, k), cyclic, j, m)
  {
    hide Armed, Due, Slot;
    var p :| 0 <= p < |l| && l[p].handler == cyclic && l[p].arg == j && Due(l, p) == m;
    ArmedMoves(l, msecs, 0, cyclic, k, p);
    ArmedDelays(l, msecs, 0, cyclic, k, p);
  }

  // ----- The routines

  /** The loop of sys_timeout. */
  method FindSlot(l: seq<Timer>, time0: int) returns (t: nat, time: int)
    requires l != []
    ensures (t + 1, time) == Seek(l, time0)
  {
    t, time := 0, time0;
    assert l[0..] == l;
    hide Seek, U32;
    while true
      invariant 0 <= t < |l| && Seek(l, time0) == (t + Seek(l[t..], time).0, Seek(l[t..], time).1)
      decreases |l| - t
    {
      SeekStep(l, t, time);
      time := U32(time - l[t].time);
      if t + 1 == |l| || l[t + 1].time > time { return; }
      t := t + 1;
    }
  }

  lemma SeekStep(l: seq<Timer>, t: nat, time: int)
    requires t < |l|
    ensures var left := U32(time - l[t].time);
            Seek(l[t..], time) ==
            if t + 1 == |l| || l[t + 1].time > left then (1, left)
            else (1 + Seek(l[t + 1..], left).0, Seek(l[t + 1..], left).1)
  {
    assert l[t..][1..] == l[t + 1..];
  }

  class Timers {
    var list: seq<Timer>
    var last: int

    ghost predicate Valid()
      reads this
    {
      Deltas(list) && 0 <= last < TWO32
    }

    /** The static variables before sys_timeouts_init. */
    constructor ()
      ensures Valid() && list == [] && last == 0
    {
      list, last := [], 0;
    }

    /** sys_timeout */
    method Timeout(msecs: int, handler: int, arg: int, now: int)
      requires Valid() && 0 <= msecs < TWO32 && 0 <= now < TWO32
      modifies this
      ensures Valid()
      ensures list == Armed(old(list), msecs, if old(list) == [] then 0 else U32(now - old(last)), handler, arg)
      ensures last == if old(list) == [] then now else old(last)
    {
      var diff := 0;
      if list == [] { last := now; } else { diff := U32(now - last); }
      var timeout := Timer(handler, arg, U32(msecs + diff));
      if list == [] {
        assert timeout.time == U32(msecs + 0);
        list := [timeout];
        return;
      }
      if list[0].time > msecs {
        list := [timeout] + list[0 := list[0].(time := list[0].time - msecs)];
        assert list == Put(old(list), 0, timeout, msecs);
      } else {
        InsertBehind(timeout, msecs, diff);
      }
    }

    /** The insertion into sys_timeout's list behind an entry. */
    method InsertBehind(timeout0: Timer, msecs: int, ghost diff: int)
      requires Valid() && list != [] && list[0].time <= msecs && timeout0.time == U32(msecs + diff)
      modifies this`list
      ensures Valid() && list == Armed(old(list), msecs, diff, timeout0.handler, timeout0.arg)
    {
      ghost var l := list;
      var t, time := FindSlot(list, timeout0.time);
      hide Seek, U32;
      if t + 1 < |list| {
        list := list[t + 1 := list[t + 1].(time := list[t + 1].time - time)];
      } else if time > msecs {
        time := U32(msecs + list[0].time);
      }
      var timeout := timeout0.(time := time);
      SplicedIs(l, t + 1, timeout);
      list := list[..t + 1] + [timeout] + list[t + 1..];
    }

    /**
     sys_timeouts_init: arm the cyclic timers, each at its own reading of the clock, and take the time afterwards.
     */
    method Start(intervals: seq<int>, nows: seq<int>, now: int, cyclic: int)
      requires list == [] && last == 0 && |nows| == |intervals| && 0 <= now < TWO32
      requires forall i :: 0 <= i < |nows| ==> 0 <= intervals[i] < TWO32 && 0 <= nows[i] < TWO32
      modifies this
      ensures Valid() && list == Started(intervals, nows, cyclic, |nows|).0 && last == now
    {
      hide Armed, U32, Deltas, Started;
      StartedNone(intervals, nows, cyclic);
      var i := 0;
      while i < |intervals|
        invariant 0 <= i <= |intervals| && Valid() && (list, last) == Started(intervals, nows, cyclic, i)
      {
        StartedOne(intervals, nows, cyclic, i);
        Timeout(intervals[i], cyclic, i, nows[i]);
        i := i + 1;
      }
      last := now;
    }

    /** sys_untimeout */
    method Untimeout(handler: int, arg: int)
      requires Valid()
      modifies this`list
      ensures Valid()
      ensures var p := First(old(list), handler, arg); list == if p == |old(list)| then old(list) else Out(old(list), p)
    {
      var t := 0;
      ghost var l := list;
      while t < |list|
        invariant 0 <= t <= |list| && list == l && t <= First(l, handler, arg)
      {
        if list[t].handler == handler && list[t].arg == arg {
          var rest := list[t + 1..];
          if rest != [] {
            rest := rest[0 := rest[0].(time := U32(rest[0].time + list[t].time))];
          }
          list := list[..t] + rest;
          assert list == Out(l, t);
          return;
        }
        t := t + 1;
      }
    }

    /** sys_check_timeouts with handlers that do not touch the list; `fired` are the timers called, in order. */
    method Check(now: int) returns (fired: seq<Timer>)
      requires Valid() && 0 <= now < TWO32
      modifies this
      ensures Valid()
      ensures var n := Position(old(list), U32(now - old(last)));
              && fired == old(list)[..n] && list == old(list)[n..] && last == U32(old(last) + Total(fired))
    {
      hide Total, Position, U32, Deltas;
      fired := [];
      var diff := U32(now - last);
      ghost var l, n := list, Position(list, diff);
      NothingFired(last);
      assert fired + list == l;
      while list != [] && list[0].time <= diff
        invariant Valid() && fired + list == l
        invariant n == |fired| + Position(list, diff) && 0 <= diff < TWO32 && last == U32(old(last) + Total(fired))
        decreases |list|
      {
        DeltasTail(list);
        FireOne(list, diff, fired, old(last));
        MoveHead(fired, list);
        fired := fired + [list[0]];
        last := U32(last + list[0].time);
        diff := U32(diff - list[0].time);
        list := list[1..];
      }
      PositionNone(list, diff);
      SplitAt(fired, list);
    }
  }

  lemma NothingFired(last: int)
    requires 0 <= last < TWO32
    ensures U32(last + Total([])) == last
  {
  }

  lemma DeltasTail(l: seq<Timer>)
    requires Deltas(l) && l != []
    ensures Deltas(l[1..]) && 0 <= l[0].time < TWO32
  {
  }

  lemma MoveHead(a: seq<Timer>, b: seq<Timer>)
    requires b != []
    ensures (a + [b[0]]) + b[1..] == a + b
  {
  }

  lemma SplitAt(a: seq<Timer>, b: seq<Timer>)
    ensures (a + b)[..|a|] == a && (a + b)[|a|..] == b
  {
  }

  lemma FireOne(l: seq<Timer>, diff: int, fired: seq<Timer>, last: int)
    requires l != [] && 0 <= l[0].time <= diff < TWO32
    ensures U32(diff - l[0].time) == diff - l[0].time
    ensures Position(l, diff) == 1 + Position(l[1..], diff - l[0].time) && Total(fired + [l[0]]) == Total(fired) + l[0].time
    ensures U32(U32(last + Total(fired)) + l[0].time) == U32(last + Total(fired + [l[0]]))
  {
    TotalOne(l[0]);
    TotalJoin(fired, [l[0]]);
    hide Total;
    U32Add(last + Total(fired), l[0].time);
  }

  lemma PositionNone(l: seq<Timer>, diff: int)
    requires l == [] || l[0].time > diff
    ensures Position(l, diff) == 0
  {
  }

  /** What is left in the list is due as before, counted from the new timeouts_last_time. */
  lemma CheckKeeps(l: seq<Timer>, n: nat, i: nat)
    requires n + i < |l|
    ensures Total(l[..n]) + Due(l[n..], i) == Due(l, n + i)
  {
    assert l[..n + i + 1] == l[..n] + l[n..][..i + 1];
    TotalJoin(l[..n], l[n..][..i + 1]);
  }
}
