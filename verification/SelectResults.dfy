/**
 What lwip_select returns: how many descriptors it found ready and which, when it fails, when it returns 0,
 and that an event wakes whoever waits for it.
 */
module SelectResults {
  import opened SelectProtocol

  // ----- What is ready

  function Count(f: Interest): nat { |f.read| + |f.write| + |f.except| }

  /** The descriptors below `m` that are ready, set by set, from the sockets and the interest alone. */
  ghost function ReadyBelow(socks: map<int, Sock>, want: Interest, m: int): Interest {
    Interest(set s | 0 <= s < m && s in want.read && s in socks && (socks[s].lastdata || socks[s].rcvevent > 0),
             set s | 0 <= s < m && s in want.write && s in socks && socks[s].sendevent,
             set s | 0 <= s < m && s in want.except && s in socks && socks[s].errevent)
  }

  function Times(nfds: int): nat { if nfds < 0 then 0 else nfds }

  lemma NoneBelow(socks: map<int, Sock>, want: Interest, m: int)
    requires m <= 0
    ensures ReadyBelow(socks, want, m) == NOTHING
  {
  }

  lemma MarkCounts(st: State, x: Selector, i: int, n: nat, f: Interest)
    requires n == Count(f) && i !in f.read && i !in f.write && i !in f.except
    ensures ScanNext(st, x, i, n) == Count(MarkNext(st, x, i, f))
  {
  }

  lemma ReadyGrows(st: State, x: Selector, i: nat)
    ensures ReadyBelow(st.socks, x.want, i + 1) == MarkNext(st, x, i, ReadyBelow(st.socks, x.want, i))
    ensures ScanNext(st, x, i, Count(ReadyBelow(st.socks, x.want, i))) == Count(ReadyBelow(st.socks, x.want, i + 1))
  {
    var (a, b) := (ReadyBelow(st.socks, x.want, i), ReadyBelow(st.socks, x.want, i + 1));
    var c := MarkNext(st, x, i, a);
    assert b.read == c.read && b.write == c.write && b.except == c.except;
    MarkCounts(st, x, i, Count(a), a);
  }

  // ----- A thread's own step

  /** The call of a thread after its next stretch, which sees of the rest only the sockets. */
  function Moved(st: State, x: Selector): Selector {
    match x.pc
    case FirstScan(i, n, f) =>
      x.(pc := if i < x.nfds then FirstScan(i + 1, ScanNext(st, x, i, n), MarkNext(st, x, i, f)) else if n > 0 then Done(n, f) else Enlist)
    case Enlist => x.(pc := CountUp(0), limit := x.nfds, failed := false, timedOut := false, signalled := false, sem := 0)
    case CountUp(i) =>
      if i >= x.nfds then x.(pc := SecondScan(0, 0, NOTHING))
      else if !x.want.Wants(i) || i in st.socks then x.(pc := CountUp(i + 1))
      else x.(pc := CountDown(0), limit := i, failed := true)
    case SecondScan(i, n, f) =>
      x.(pc := if i < x.nfds then SecondScan(i + 1, ScanNext(st, x, i, n), MarkNext(st, x, i, f)) else if n > 0 then CountDown(0) else Blocked)
    case Blocked => if x.sem > 0 then x.(pc := CountDown(0), sem := x.sem - 1) else x
    case CountDown(i) =>
      if i >= x.limit then x.(pc := Delist)
      else x.(pc := CountDown(i + 1), failed := x.failed || (x.want.Wants(i) && i !in st.socks))
    case Delist => x.(pc := Delisted(x))
    case LastScan(i, n, f) => x.(pc := if i < x.nfds then LastScan(i + 1, ScanNext(st, x, i, n), MarkNext(st, x, i, f)) else Done(n, f))
    case Done(_, _) => x
  }

  lemma AdvanceIs(st: State, t: int)
    requires t in st.sel
    ensures AdvanceStep(st, t).sel == st.sel[t := Moved(st, st.sel[t])] && AdvanceStep(st, t).socks.Keys == st.socks.Keys
  {
    hide ScanNext, MarkNext, Without, Delisted, AddWaiting, Interest.Wants;
    var x := st.sel[t];
    if x.pc.CountUp? && x.pc.i in st.socks {
      WaitingIs(st, x.pc.i, 1);
    } else if x.pc.CountDown? && x.pc.i in st.socks {
      WaitingIs(st, x.pc.i, -1);
    }
  }

  lemma WaitingIs(st: State, i: int, d: int)
    requires i in st.socks
    ensures AddWaiting(st, i, d).sel == st.sel && AddWaiting(st, i, d).socks.Keys == st.socks.Keys
  {
  }

  // ----- A scan that nothing disturbs

  function Advances(st: State, t: int, n: nat): State
    requires t in st.sel
    decreases n
  {
    if n == 0 then st
    else
      var r := AdvanceStep(st, t);
      if t in r.sel then Advances(r, t, n - 1) else r
  }

  /** The place in a scan of the kind that `x` is in. */
  function Scanning(pc: Pc, i: int, n: nat, f: Interest): Pc {
    if pc.FirstScan? then FirstScan(i, n, f) else if pc.SecondScan? then SecondScan(i, n, f) else LastScan(i, n, f)
  }

  predicate InScan(x: Selector) { x.pc.FirstScan? || x.pc.SecondScan? || x.pc.LastScan? }

  /** Where a scan leads that has found `f`. */
  function ScanEnds(pc: Pc, f: Interest): Pc {
    if pc.LastScan? then Done(Count(f), f)
    else if pc.FirstScan? then if Count(f) > 0 then Done(Count(f), f) else Enlist
    else if Count(f) > 0 then CountDown(0) else Blocked
  }

  lemma ScanStep(st: State, t: int)
    requires t in st.sel && InScan(st.sel[t])
    ensures var x := st.sel[t];
            AdvanceStep(st, t) ==
            if x.pc.i < x.nfds then SetPc(st, t, Scanning(x.pc, x.pc.i + 1, ScanNext(st, x, x.pc.i, x.pc.n), MarkNext(st, x, x.pc.i, x.pc.found)))
            else SetPc(st, t, if x.pc.LastScan? then Done(x.pc.n, x.pc.found)
                              else if x.pc.FirstScan? then if x.pc.n > 0 then Done(x.pc.n, x.pc.found) else Enlist
                              else if x.pc.n > 0 then CountDown(0) else Blocked)
  {
  }

  lemma AdvancesOn(st: State, t: int, n: nat)
    requires t in st.sel && n > 0 && t in AdvanceStep(st, t).sel
    ensures Advances(st, t, n) == Advances(AdvanceStep(st, t), t, n - 1)
  {
  }

  lemma AdvancesNone(st: State, t: int)
    requires t in st.sel
    ensures Advances(st, t, 0) == st
  {
  }

  lemma SetTwice(st: State, t: int, p: Pc, q: Pc)
    requires t in st.sel
    ensures SetPc(SetPc(st, t, p), t, q) == SetPc(st, t, q)
  {
  }

  lemma {:induction false} ScanFrom(st: State, t: int, i: nat)
    requires t in st.sel && InScan(st.sel[t])
    requires var x := st.sel[t];
             i <= Times(x.nfds) && x.pc == Scanning(x.pc, i, Count(ReadyBelow(st.socks, x.want, i)), ReadyBelow(st.socks, x.want, i))
    ensures var x := st.sel[t];
            Advances(st, t, Times(x.nfds) - i + 1) == SetPc(st, t, ScanEnds(x.pc, ReadyBelow(st.socks, x.want, x.nfds)))
    decreases Times(st.sel[t].nfds) - i
  {
    hide ReadyBelow, ScanNext, MarkNext, AdvanceStep, Count, Advances;
    var x := st.sel[t];
    ScanStep(st, t);
    var r := AdvanceStep(st, t);
    var n := Times(x.nfds) - i + 1;
    AdvancesOn(st, t, n);
    if i < x.nfds {
      ReadyGrows(st, x, i);
      ScanFrom(r, t, i + 1);
      SetTwice(st, t, r.sel[t].pc, ScanEnds(x.pc, ReadyBelow(st.socks, x.want, x.nfds)));
    } else {
      AdvancesNone(r, t);
      if x.nfds < 0 { NoneBelow(st.socks, x.want, x.nfds); NoneBelow(st.socks, x.want, 0); }
    }
  }

  /**
   A scan during which nothing else happens finds exactly the ready descriptors. The first one returns them at once
   if there are any, the second one decides whether the thread sleeps, and the last one returns them.
   */
  lemma UndisturbedScan(st: State, t: int)
    requires t in st.sel && InScan(st.sel[t]) && st.sel[t].pc == Scanning(st.sel[t].pc, 0, 0, NOTHING)
    ensures var x := st.sel[t];
            Advances(st, t, Times(x.nfds) + 1) == SetPc(st, t, ScanEnds(x.pc, ReadyBelow(st.socks, x.want, x.nfds)))
  {
    NoneBelow(st.socks, st.sel[t].want, 0);
    ScanFrom(st, t, 0);
  }

  /** A call that is not disturbed returns at once exactly when something is ready, and then all of it. */
  lemma UndisturbedCall(st: State, t: int, want: Interest, nfds: int)
    requires Wf(st) && Enabled(st, Begin(t, want, nfds))
    ensures var ready := ReadyBelow(st.socks, want, nfds);
            var r := Next(st, Begin(t, want, nfds));
            && t in r.sel && t in Advances(r, t, Times(nfds) + 1).sel
            && Advances(r, t, Times(nfds) + 1).sel[t].pc == if ready == NOTHING then Enlist else Done(Count(ready), ready)
  {
    var r := Next(st, Begin(t, want, nfds));
    UndisturbedScan(r, t);
    CountZero(ReadyBelow(st.socks, want, nfds));
  }

  lemma CountZero(f: Interest)
    ensures Count(f) == 0 <==> f == NOTHING
  {
  }

  // ----- A scan among other things: every bit was true when it was looked at

  ghost predicate SamePhase(x: Selector, y: Selector) {
    && x.want == y.want && x.nfds == y.nfds
    && ((x.pc.FirstScan? && y.pc.FirstScan?) || (x.pc.SecondScan? && y.pc.SecondScan?) || (x.pc.LastScan? && y.pc.LastScan?))
  }

  /** The bits of descriptor `s` in `found` are those that state `st` gives. */
  ghost predicate BitsTrue(st: State, want: Interest, s: int, found: Interest) {
    && (s in found.read <==> s in want.read && s in st.socks && (st.socks[s].lastdata || st.socks[s].rcvevent > 0))
    && (s in found.write <==> s in want.write && s in st.socks && st.socks[s].sendevent)
    && (s in found.except <==> s in want.except && s in st.socks && st.socks[s].errevent)
  }

  /** In state `j` of the run, in the scan that still goes on in `x`, it is descriptor `s`'s turn, and its bits are set accordingly. */
  ghost predicate Looked(sts: seq<State>, j: nat, t: int, s: int, x: Selector) {
    && j < |sts| && InScan(x)
    && (forall k :: j <= k < |sts| ==> t in sts[k].sel && SamePhase(sts[k].sel[t], x))
    && sts[j].sel[t].pc.i == s && BitsTrue(sts[j], x.want, s, x.pc.found)
  }

  ghost predicate WasLookedAt(sts: seq<State>, t: int, s: int, x: Selector) {
    exists j :: Looked(sts, j, t, s, x)
  }

  /** The scan of `x` has looked at every descriptor below its index, and nothing else is marked or counted. */
  ghost predicate Saw(sts: seq<State>, t: int, x: Selector) {
    && InScan(x) && 0 <= x.pc.i && x.pc.n == Count(x.pc.found)
    && (forall s :: x.pc.found.Wants(s) ==> 0 <= s < x.pc.i)
    && (forall s :: 0 <= s < x.pc.i ==> WasLookedAt(sts, t, s, x))
  }

  ghost predicate ThreadSees(sts: seq<State>, t: int)
    requires sts != []
  {
    var st := sts[|sts| - 1];
    t in st.sel && InScan(st.sel[t]) ==> Saw(sts, t, st.sel[t])
  }

  ghost predicate Sees(sts: seq<State>) {
    sts != [] && forall t :: ThreadSees(sts, t)
  }

  /** The thread is where it was: a step of somebody else. */
  lemma SawStill(sts: seq<State>, r: State, t: int)
    requires sts != [] && t in r.sel && InScan(r.sel[t])
    requires var st := sts[|sts| - 1]; t in st.sel && r.sel[t].pc == st.sel[t].pc && r.sel[t].want == st.sel[t].want
                                       && r.sel[t].nfds == st.sel[t].nfds && Saw(sts, t, st.sel[t])
    ensures Saw(sts + [r], t, r.sel[t])
  {
    var (x, y) := (sts[|sts| - 1].sel[t], r.sel[t]);
    forall s | 0 <= s < y.pc.i ensures WasLookedAt(sts + [r], t, s, y) {
      assert WasLookedAt(sts, t, s, x);
      var j :| Looked(sts, j, t, s, x);
      LookedStill(sts, r, j, t, s, x, y);
    }
  }

  lemma LookedStill(sts: seq<State>, r: State, j: nat, t: int, s: int, x: Selector, y: Selector)
    requires Looked(sts, j, t, s, x) && t in r.sel && r.sel[t] == y && SamePhase(y, x)
    requires BitsTrue(sts[j], x.want, s, y.pc.found)
    ensures Looked(sts + [r], j, t, s, y)
  {
    hide BitsTrue;
    forall k | j <= k < |sts + [r]| ensures t in (sts + [r])[k].sel && SamePhase((sts + [r])[k].sel[t], y) {
      if k < |sts| { assert (sts + [r])[k] == sts[k]; }
    }
    assert (sts + [r])[j] == sts[j];
  }

  /** One more descriptor is looked at. */
  lemma SawMore(sts: seq<State>, t: int)
    requires sts != [] && t in sts[|sts| - 1].sel && Saw(sts, t, sts[|sts| - 1].sel[t])
    requires sts[|sts| - 1].sel[t].pc.i < sts[|sts| - 1].sel[t].nfds
    ensures var r := AdvanceStep(sts[|sts| - 1], t); t in r.sel && Saw(sts + [r], t, r.sel[t])
  {
    var st := sts[|sts| - 1];
    var x := st.sel[t];
    ScanStep(st, t);
    var r := AdvanceStep(st, t);
    var y := r.sel[t];
    var i := x.pc.i;
    assert !x.pc.found.Wants(i);
    MarkCounts(st, x, i, x.pc.n, x.pc.found);
    MarkedAre(st, x, i, x.pc.found, i);
    hide AdvanceStep, ScanNext, MarkNext, Looked;
    forall s | 0 <= s < y.pc.i ensures WasLookedAt(sts + [r], t, s, y) {
      if s < i {
        assert WasLookedAt(sts, t, s, x);
        var j :| Looked(sts, j, t, s, x);
        MarkedAre(st, x, i, x.pc.found, s);
        LookedBits(sts, j, t, s, x, y);
        LookedStill(sts, r, j, t, s, x, y);
      } else {
        LookedNow(sts, r, t, x, y);
      }
    }
    forall s | y.pc.found.Wants(s) ensures 0 <= s < y.pc.i {
      if s != i {
        MarkedAre(st, x, i, x.pc.found, s);
        assert x.pc.found.Wants(s);
      }
    }
  }

  lemma LookedBits(sts: seq<State>, j: nat, t: int, s: int, x: Selector, y: Selector)
    requires Looked(sts, j, t, s, x) && InScan(y)
    requires (s in y.pc.found.read <==> s in x.pc.found.read) && (s in y.pc.found.write <==> s in x.pc.found.write)
    requires s in y.pc.found.except <==> s in x.pc.found.except
    ensures BitsTrue(sts[j], x.want, s, y.pc.found)
  {
  }

  lemma LookedNow(sts: seq<State>, r: State, t: int, x: Selector, y: Selector)
    requires sts != [] && t in sts[|sts| - 1].sel && x == sts[|sts| - 1].sel[t] && InScan(x)
    requires t in r.sel && r.sel[t] == y && SamePhase(y, x) && BitsTrue(sts[|sts| - 1], x.want, x.pc.i, y.pc.found)
    ensures Looked(sts + [r], |sts| - 1, t, x.pc.i, y)
  {
  }

  /** What marking descriptor `i` does to the bits of `s`. */
  lemma MarkedAre(st: State, x: Selector, i: int, f: Interest, s: int)
    ensures var g := MarkNext(st, x, i, f);
            && (s != i ==> (s in g.read <==> s in f.read) && (s in g.write <==> s in f.write) && (s in g.except <==> s in f.except))
            && (i !in f.read && i !in f.write && i !in f.except ==> BitsTrue(st, x.want, i, g))
  {
  }

  /** A step of any other kind leaves a thread's place alone, or takes it to the start of a scan or out of one. */
  lemma OthersStep(st: State, a: Action, t: int)
    requires Wf(st) && Enabled(st, a) && t in Next(st, a).sel && InScan(Next(st, a).sel[t]) && a != Advance(t)
    ensures var y := Next(st, a).sel[t];
            || (y.pc == FirstScan(0, 0, NOTHING))
            || (t in st.sel && y.pc == st.sel[t].pc && y.want == st.sel[t].want && y.nfds == st.sel[t].nfds)
  {
    hide AdvanceStep, ScanNext, MarkNext;
    OwnAction(st, a, t);
  }

  lemma SawFresh(sts: seq<State>, t: int, x: Selector)
    requires InScan(x) && x.pc.i == 0 && x.pc.n == 0 && x.pc.found == NOTHING
    ensures Saw(sts, t, x)
  {
  }

  /** A thread's own step: one more descriptor, the start of another scan, or out of the scan. */
  lemma OwnStep(st: State, t: int)
    requires t in st.sel && t in AdvanceStep(st, t).sel && InScan(AdvanceStep(st, t).sel[t])
    ensures || (InScan(st.sel[t]) && st.sel[t].pc.i < st.sel[t].nfds)
            || (var y := AdvanceStep(st, t).sel[t]; y.pc.i == 0 && y.pc.n == 0 && y.pc.found == NOTHING)
  {
    hide AdvanceStep, ScanNext, MarkNext;
    AdvanceIs(st, t);
  }

  lemma SeesStep(sts: seq<State>, a: Action)
    requires Sees(sts) && Wf(sts[|sts| - 1]) && Enabled(sts[|sts| - 1], a)
    ensures Sees(sts + [Next(sts[|sts| - 1], a)])
  {
    var st := sts[|sts| - 1];
    var r := Next(st, a);
    hide Saw, Wf, Enabled, Next;
    forall t ensures ThreadSees(sts + [r], t) {
      assert ThreadSees(sts, t);
      if !(t in r.sel && InScan(r.sel[t])) {
      } else if a == Advance(t) {
        AdvanceNext(st, t);
        OwnStep(st, t);
        if InScan(st.sel[t]) && st.sel[t].pc.i < st.sel[t].nfds { SawMore(sts, t); } else { SawFresh(sts + [r], t, r.sel[t]); }
      } else {
        OthersStep(st, a, t);
        if r.sel[t].pc == FirstScan(0, 0, NOTHING) { SawFresh(sts + [r], t, r.sel[t]); } else { SawStill(sts, r, t); }
      }
    }
  }

  lemma AdvanceNext(st: State, t: int)
    requires Wf(st) && Enabled(st, Advance(t))
    ensures t in st.sel && Next(st, Advance(t)) == AdvanceStep(st, t)
  {
  }

  lemma {:induction false} RunSees(sts: seq<State>)
    requires IsRun(sts)
    ensures Sees(sts)
    decreases |sts|
  {
    hide Sees, Follows;
    if |sts| == 1 {
      SeesFirst(sts);
    } else {
      RunPrefix(sts);
      var (p, st, r) := (sts[..|sts| - 1], sts[|sts| - 2], sts[|sts| - 1]);
      RunSees(p);
      FollowsSees(p, r);
      assert p + [r] == sts;
    }
  }

  lemma SeesFirst(sts: seq<State>)
    requires |sts| == 1 && Initial(sts[0])
    ensures Sees(sts)
  {
  }

  lemma FollowsSees(p: seq<State>, r: State)
    requires Sees(p) && Follows(p[|p| - 1], r)
    ensures Sees(p + [r])
  {
    var a :| Enabled(p[|p| - 1], a) && r == Next(p[|p| - 1], a);
    hide Sees, Enabled, Next;
    SeesStep(p, a);
  }

  // ----- How a call ends

  /** A descriptor that the call asks for has no socket. */
  ghost predicate Bad(x: Selector, socks: map<int, Sock>) {
    exists s :: 0 <= s < x.nfds && x.want.Wants(s) && s !in socks
  }

  ghost predicate GoodBelow(x: Selector, socks: map<int, Sock>, m: int) {
    forall s :: 0 <= s < m && s < x.nfds && x.want.Wants(s) ==> s in socks
  }

  /** What is known about a call at each place; `failed` says whether a descriptor is bad once that has been looked at. */
  ghost predicate CallOk(x: Selector, socks: map<int, Sock>) {
    match x.pc
    case CountUp(i) => !x.failed && !x.timedOut && GoodBelow(x, socks, i)
    case SecondScan(i, n, f) => !x.failed && !x.timedOut && GoodBelow(x, socks, x.nfds)
    case Blocked => !x.failed && !x.timedOut && GoodBelow(x, socks, x.nfds)
    case CountDown(i) => x.limit <= x.nfds && (x.failed <==> Bad(x, socks)) && (x.failed ==> !x.timedOut && GoodBelow(x, socks, x.limit))
    case Delist => (x.failed <==> Bad(x, socks)) && (x.failed ==> !x.timedOut)
    case LastScan(i, n, f) => !x.timedOut && !Bad(x, socks)
    case FirstScan(i, n, f) => !x.timedOut
    case _ => true
  }

  ghost predicate CallsOk(st: State) {
    forall t :: t in st.sel ==> CallOk(st.sel[t], st.socks)
  }

  lemma CallSame(x: Selector, y: Selector, a: map<int, Sock>, b: map<int, Sock>)
    requires CallOk(x, a) && a.Keys == b.Keys
    requires y.pc == x.pc && y.want == x.want && y.nfds == x.nfds && y.failed == x.failed && y.timedOut == x.timedOut && y.limit == x.limit
    ensures CallOk(y, b)
  {
    assert forall s :: s in a <==> s in b;
    assert Bad(x, a) <==> Bad(y, b);
  }

  predicate SameCall(x: Selector, y: Selector) {
    y.pc == x.pc && y.want == x.want && y.nfds == x.nfds && y.failed == x.failed && y.timedOut == x.timedOut && y.limit == x.limit
  }

  lemma VisitLeaves(st: State, c: int, s: int, i: nat)
    requires s in st.socks && Wf(st)
    ensures var r := VisitAt(st, c, s, i);
            r.sel.Keys == st.sel.Keys && r.socks == st.socks && forall t :: t in st.sel ==> SameCall(st.sel[t], r.sel[t])
  {
  }

  lemma RaiseLeaves(st: State, c: int, s: int, e: Event)
    requires s in st.socks && Wf(st)
    ensures var r := RaiseStep(st, c, s, e);
            r.sel.Keys == st.sel.Keys && r.socks.Keys == st.socks.Keys && forall t :: t in st.sel ==> SameCall(st.sel[t], r.sel[t])
  {
    var st1 := st.(socks := st.socks[s := Apply(st.socks[s], e)]);
    assert st1.socks.Keys == st.socks.Keys && Wf(st1);
    VisitLeaves(st1, c, s, 0);
    hide VisitAt;
  }

  lemma WalkLeaves(st: State, c: int)
    requires Wf(st) && c in st.cbs
    ensures var r := WalkStep(st, c);
            r.sel.Keys == st.sel.Keys && r.socks == st.socks && forall t :: t in st.sel ==> SameCall(st.sel[t], r.sel[t])
  {
    var b := st.cbs[c];
    VisitLeaves(st, c, b.s, if b.lastCtr != st.ctr then 0 else IndexOf(st.list, b.at) + 1);
    hide VisitAt;
  }

  /** Nobody else's step shows in what is known about a call. */
  lemma OthersLeave(st: State, a: Action, t: int)
    requires Wf(st) && Enabled(st, a) && t in st.sel
    requires match a case Begin(u, _, _) => u != t case Advance(u) => u != t case TimeOut(u) => u != t case Poll(u) => u != t case _ => true
    ensures t in Next(st, a).sel && SameCall(st.sel[t], Next(st, a).sel[t])
  {
    hide AdvanceStep, RaiseStep, WalkStep, Moved, SameCall;
    SameCallSelf(st.sel[t]);
    match a
    case Begin(u, want, nfds) =>
    case Advance(u) => AdvanceIs(st, u);
    case TimeOut(u) =>
    case Poll(u) =>
    case Raise(c, s, e) => RaiseLeaves(st, c, s, e);
    case Walk(c) => WalkLeaves(st, c);
    case LeaveData(s, left) =>
  }

  lemma SameCallSelf(x: Selector)
    ensures SameCall(x, x)
  {
  }

  lemma NextKeys(st: State, a: Action)
    requires Wf(st) && Enabled(st, a)
    ensures Next(st, a).socks.Keys == st.socks.Keys
    ensures forall t :: t in Next(st, a).sel ==> t in st.sel || (a.Begin? && a.t == t)
  {
    hide AdvanceStep, RaiseStep, WalkStep, Moved, SameCall;
    match a
    case Begin(u, want, nfds) =>
    case Advance(u) => AdvanceIs(st, u);
    case TimeOut(u) =>
    case Poll(u) =>
    case Raise(c, s, e) => RaiseLeaves(st, c, s, e);
    case Walk(c) => WalkLeaves(st, c);
    case LeaveData(s, left) =>
  }

  lemma AdvanceCall(st: State, t: int)
    requires t in st.sel && CallOk(st.sel[t], st.socks) && PlaceOk(st.sel[t])
    ensures CallOk(AdvanceStep(st, t).sel[t], AdvanceStep(st, t).socks)
  {
    hide AdvanceStep, CallOk, Moved, PlaceOk;
    AdvanceIs(st, t);
    MovedCall(st, st.sel[t]);
    CallSame(Moved(st, st.sel[t]), Moved(st, st.sel[t]), st.socks, AdvanceStep(st, t).socks);
  }

  lemma MovedCall(st: State, x: Selector)
    requires CallOk(x, st.socks) && PlaceOk(x)
    ensures CallOk(Moved(st, x), st.socks)
  {
    hide ScanNext, MarkNext, Bad;
    BadSame(x, Moved(st, x), st.socks);
    if x.pc.CountUp? {
      if x.pc.i < x.nfds && x.want.Wants(x.pc.i) && x.pc.i !in st.socks { BadAt(x, st.socks, x.pc.i); }
    } else if x.pc.SecondScan? || x.pc.Blocked? {
      GoodIsNotBad(x, st.socks);
    } else if x.pc.CountDown? {
      if x.pc.i < x.limit && x.want.Wants(x.pc.i) && x.pc.i !in st.socks { BadAt(x, st.socks, x.pc.i); }
    }
  }

  lemma BadSame(x: Selector, y: Selector, socks: map<int, Sock>)
    requires y.want == x.want && y.nfds == x.nfds
    ensures Bad(y, socks) <==> Bad(x, socks)
  {
  }

  lemma BadAt(x: Selector, socks: map<int, Sock>, i: int)
    requires 0 <= i < x.nfds && x.want.Wants(i) && i !in socks
    ensures Bad(x, socks)
  {
  }

  lemma GoodIsNotBad(x: Selector, socks: map<int, Sock>)
    requires GoodBelow(x, socks, x.nfds)
    ensures !Bad(x, socks)
  {
  }

  lemma StepCalls(st: State, a: Action)
    requires Wf(st) && Enabled(st, a) && CallsOk(st) && PlaceInv(st)
    ensures CallsOk(Next(st, a))
  {
    var r := Next(st, a);
    NextKeys(st, a);
    hide CallOk, PlaceOk;
    forall t | t in r.sel ensures CallOk(r.sel[t], r.socks) {
      if a.Begin? && a.t == t {
        BeginCall(r.sel[t], r.socks);
      } else if a == Advance(t) {
        AdvanceCall(st, t);
        AdvanceNext(st, t);
      } else if a == TimeOut(t) {
        TimeOutCall(st.sel[t], st.socks);
      } else if a == Poll(t) {
        DoneCall(r.sel[t], r.socks);
      } else {
        OthersThere(st, a, t);
        OthersLeave(st, a, t);
        CallSame(st.sel[t], r.sel[t], st.socks, r.socks);
      }
    }
  }

  lemma OthersThere(st: State, a: Action, t: int)
    requires Wf(st) && Enabled(st, a) && t in Next(st, a).sel && !(a.Begin? && a.t == t)
    ensures t in st.sel
  {
    hide Next;
    NextKeys(st, a);
  }

  lemma BeginCall(x: Selector, socks: map<int, Sock>)
    requires x.pc.FirstScan? && !x.timedOut
    ensures CallOk(x, socks)
  {
  }

  lemma DoneCall(x: Selector, socks: map<int, Sock>)
    requires x.pc.Done?
    ensures CallOk(x, socks)
  {
  }

  lemma TimeOutCall(x: Selector, socks: map<int, Sock>)
    requires CallOk(x, socks) && x.pc.Blocked? && PlaceOk(x)
    ensures CallOk(x.(pc := CountDown(0), timedOut := true), socks)
  {
    assert !Bad(x.(pc := CountDown(0), timedOut := true), socks);
  }

  lemma {:induction false} RunCalls(sts: seq<State>)
    requires IsRun(sts)
    ensures CallsOk(sts[|sts| - 1])
    decreases |sts|
  {
    hide CallsOk, Follows, Inv;
    if |sts| == 1 {
      CallsFirst(sts[0]);
    } else {
      RunPrefix(sts);
      RunCalls(sts[..|sts| - 1]);
      RunInv(sts[..|sts| - 1]);
      FollowsCalls(sts[|sts| - 2], sts[|sts| - 1]);
    }
  }

  lemma CallsFirst(st: State)
    requires Initial(st)
    ensures CallsOk(st)
  {
  }

  lemma FollowsCalls(st: State, r: State)
    requires CallsOk(st) && Inv(st) && Follows(st, r)
    ensures CallsOk(r)
  {
    var a :| Enabled(st, a) && r == Next(st, a);
    assert PlaceInv(st);
    hide CallsOk, Enabled, Next, Inv;
    StepCalls(st, a);
  }

  /** The thread returns in this step. */
  ghost predicate Returns(st: State, a: Action, t: int)
    requires Wf(st) && Enabled(st, a)
  {
    t in st.sel && !st.sel[t].pc.Done? && t in Next(st, a).sel && Next(st, a).sel[t].pc.Done?
  }

  /** From which places a call can return, and with what. */
  lemma ReturnsFrom(st: State, a: Action, t: int)
    requires Wf(st) && Enabled(st, a) && Returns(st, a, t)
    ensures var (x, d) := (st.sel[t], Next(st, a).sel[t].pc);
            || (a == Poll(t) && d == Done(0, NOTHING))
            || (a == Advance(t) && x.pc.Delist? && d == if x.failed then Done(-1, x.want) else Done(0, NOTHING))
            || (a == Advance(t) && (x.pc.FirstScan? || x.pc.LastScan?) && x.pc.i >= x.nfds && d == Done(x.pc.n, x.pc.found)
                && (x.pc.FirstScan? ==> x.pc.n > 0))
    ensures a == Advance(t) && st.sel[t].pc.Delist? && !st.sel[t].failed ==> st.sel[t].timedOut
  {
    hide AdvanceStep, ScanNext, MarkNext;
    OwnAction(st, a, t);
  }

  /** What a step makes of a thread's call. */
  lemma OwnAction(st: State, a: Action, t: int)
    requires Wf(st) && Enabled(st, a) && t in Next(st, a).sel
    ensures var y := Next(st, a).sel[t];
            if a.Begin? && a.t == t then y.pc.FirstScan? && !y.timedOut
            else t in st.sel && var x := st.sel[t];
              if a == Advance(t) then y == Moved(st, x)
              else if a == TimeOut(t) then y == x.(pc := CountDown(0), timedOut := true) && x.pc.Blocked?
              else if a == Poll(t) then y == x.(pc := Done(0, NOTHING))
              else y.pc == x.pc && y.want == x.want && y.nfds == x.nfds && y.timedOut == x.timedOut
  {
    if a.Begin? || a == TimeOut(t) || a == Poll(t) {
    } else if a == Advance(t) {
      hide AdvanceStep, Moved;
      AdvanceIs(st, t);
    } else {
      hide Next;
      OthersThere(st, a, t);
      OthersLeave(st, a, t);
    }
  }

  /**
   In every run a call that returns has failed exactly when it comes off the list with a descriptor that has no
   socket; it returns 0 exactly after a poll, a timeout, or a last scan that found nothing; and otherwise it returns
   the number of bits in the sets that it hands back, each of which was looked at in that scan.
   */
  lemma ReturnsExactly(sts: seq<State>, a: Action, t: int)
    requires IsRun(sts) && Wf(sts[|sts| - 1]) && Enabled(sts[|sts| - 1], a) && Returns(sts[|sts| - 1], a, t)
    ensures var (x, d) := (sts[|sts| - 1].sel[t], Next(sts[|sts| - 1], a).sel[t].pc);
            && (d.result == -1 <==> x.pc.Delist? && Bad(x, sts[|sts| - 1].socks))
            && (d.result == -1 ==> d.sets == x.want)
            && (d.result != -1 ==> d.result == Count(d.sets))
            && (d.result == 0 <==> || a == Poll(t)
                                   || (x.pc.Delist? && x.timedOut && !Bad(x, sts[|sts| - 1].socks))
                                   || (x.pc.LastScan? && x.pc.found == NOTHING))
            && (d.result > 0 ==> InScan(x) && d.sets == x.pc.found && Saw(sts, t, x) && x.pc.i >= x.nfds)
  {
    var st := sts[|sts| - 1];
    RunCalls(sts);
    RunSees(sts);
    assert CallOk(st.sel[t], st.socks);
    assert ThreadSees(sts, t);
    assert InScan(st.sel[t]) ==> Saw(sts, t, st.sel[t]);
    assert InScan(st.sel[t]) ==> st.sel[t].pc.n == Count(st.sel[t].pc.found);
    hide Next, Enabled, Wf, Saw, IsRun, Returns, CallsOk, Sees;
    ReturnsFrom(st, a, t);
    CountZero(NOTHING);
    if InScan(st.sel[t]) { CountZero(st.sel[t].pc.found); }
  }

  /** A call is marked as timed out only by a timeout of its own wait. */
  lemma TimedOutOnlyThen(st: State, a: Action, t: int)
    requires Wf(st) && Enabled(st, a) && t in Next(st, a).sel && Next(st, a).sel[t].timedOut
    ensures a == TimeOut(t) || (t in st.sel && st.sel[t].timedOut)
  {
    hide Next, ScanNext, MarkNext;
    OwnAction(st, a, t);
  }

  /** The wait of thread `t` ended by timeout in step `j` of the run, in the call that is still going on. */
  ghost predicate TimedOutAt(sts: seq<State>, j: nat, t: int) {
    && j + 1 < |sts| && Wf(sts[j]) && Enabled(sts[j], TimeOut(t)) && sts[j + 1] == Next(sts[j], TimeOut(t))
    && forall k :: j < k < |sts| ==> t in sts[k].sel && sts[k].sel[t].timedOut
  }

  lemma {:induction false} TimedOutMeans(sts: seq<State>, t: int) returns (j: nat)
    requires IsRun(sts) && t in sts[|sts| - 1].sel && sts[|sts| - 1].sel[t].timedOut
    ensures TimedOutAt(sts, j, t)
    decreases |sts|
  {
    assert |sts| > 1;
    RunPrefix(sts);
    var (p, st, r) := (sts[..|sts| - 1], sts[|sts| - 2], sts[|sts| - 1]);
    var a :| Enabled(st, a) && r == Next(st, a);
    hide Enabled, Next, Wf, IsRun;
    TimedOutOnlyThen(st, a, t);
    if t in st.sel && st.sel[t].timedOut {
      j := TimedOutMeans(p, t);
      TimedOutStill(p, sts, j, t);
    } else {
      j := |sts| - 2;
    }
  }

  lemma TimedOutStill(p: seq<State>, sts: seq<State>, j: nat, t: int)
    requires |sts| > 1 && p == sts[..|sts| - 1] && TimedOutAt(p, j, t) && t in sts[|sts| - 1].sel && sts[|sts| - 1].sel[t].timedOut
    ensures TimedOutAt(sts, j, t)
  {
    hide Enabled, Next, Wf;
    assert p[j] == sts[j] && p[j + 1] == sts[j + 1];
    forall k | j < k < |sts| ensures t in sts[k].sel && sts[k].sel[t].timedOut {
      if k < |p| { assert p[k] == sts[k]; }
    }
  }

  // ----- Events

  /** An event makes its socket ready for those who wait for it, and the last datum taken ends that. */
  lemma EventsMean(k: Sock, s: int, want: Interest)
    ensures s in want.read && k.rcvevent >= 0 ==> want.Ready(s, Apply(k, RcvPlus))
    ensures s in want.write ==> want.Ready(s, Apply(k, SendPlus))
    ensures s in want.except ==> want.Ready(s, Apply(k, Error))
    ensures want == Interest({s}, {}, {}) ==> (want.Ready(s, Apply(k, RcvMinus)) <==> k.rcvevent > 1)
    ensures want == Interest({}, {s}, {}) ==> !want.Ready(s, Apply(k, SendMinus))
    ensures Apply(Apply(k, RcvPlus), RcvMinus) == k == Apply(Apply(k, RcvMinus), RcvPlus)
  {
  }

  lemma WaitersAreCounted(st: State, s: int, t: int)
    requires Inv(st) && s in st.socks && t in st.sel && Counted(st.sel[t], s)
    ensures st.socks[s].waiting > 0
  {
    assert t in Counters(st, s);
  }

  /** An event that makes a socket ready signals, within as many steps of its callback as the list is long, a thread that sleeps on it. */
  lemma EventWakes(st: State, c: int, s: int, e: Event, t: int) returns (n: nat)
    requires Inv(st) && Wf(st) && Enabled(st, Raise(c, s, e)) && t in st.sel && st.sel[t].pc.Blocked?
    requires 0 <= s < st.sel[t].nfds && st.sel[t].want.Ready(s, Apply(st.socks[s], e))
    ensures var r := Next(st, Raise(c, s, e));
            n <= |st.list| && Wf(r) && t in WalkN(r, c, n).sel && WalkN(r, c, n).sel[t].signalled
  {
    var r := Next(st, Raise(c, s, e));
    assert Counted(st.sel[t], s);
    WaitersAreCounted(st, s, t);
    assert t in st.list;
    NextKeeps(st, Raise(c, s, e));
    var st1 := st.(socks := st.socks[s := Apply(st.socks[s], e)]);
    assert st1.socks[s].waiting > 0;
    assert r == VisitAt(st1, c, s, 0);
    VisitedFirst(st1, c, s, t);
    hide Inv;
    if st.list[0] == t {
      n := 0;
      WalkNDone(r, c);
    } else {
      n := ExpectedCallbackSignals(r, c, t);
    }
  }

  lemma WalkLast(st: State, c: int)
    requires Inv(st) && Wf(st) && c in st.cbs && st.cbs[c].lastCtr == st.ctr && IndexOf(st.list, st.cbs[c].at) + 1 >= |st.list|
    ensures c !in WalkStep(st, c).cbs && Wf(WalkStep(st, c))
  {
    WalkKeeps(st, c);
    InvWf(WalkStep(st, c));
  }

  lemma {:induction false} WalkReturns(st: State, c: int, n: nat)
    requires Inv(st) && Wf(st) && c in st.cbs && st.cbs[c].lastCtr == st.ctr && n == |st.list| - IndexOf(st.list, st.cbs[c].at)
    ensures c !in WalkN(st, c, n).cbs
    decreases n
  {
    hide Inv, WalkStep, WalkN;
    assert n > 0 by { OnTheList(st, c); }
    var r := WalkStep(st, c);
    if n == 1 {
      WalkLast(st, c);
      WalkNStep(st, c, n);
      WalkNDone(r, c);
    } else {
      WalkOnce(st, c);
      WalkNStep(st, c, n);
      WalkReturns(r, c, n - 1);
    }
  }

  lemma OnTheList(st: State, c: int)
    requires Inv(st) && c in st.cbs && st.cbs[c].lastCtr == st.ctr
    ensures IndexOf(st.list, st.cbs[c].at) < |st.list|
  {
  }

  /** Left alone, a callback returns within one step more than the list is long. */
  lemma CallbackReturns(st: State, c: int) returns (n: nat)
    requires Inv(st) && Wf(st) && c in st.cbs
    ensures n <= |st.list| + 1 && c !in WalkN(st, c, n).cbs
  {
    if st.cbs[c].lastCtr == st.ctr {
      n := |st.list| - IndexOf(st.list, st.cbs[c].at);
      WalkReturns(st, c, n);
    } else {
      WalkKeeps(st, c);
      var r := WalkStep(st, c);
      InvWf(r);
      Restarts(st, c);
      hide Inv, WalkStep;
      if st.list == [] {
        n := 1;
        WalkNStep(st, c, n);
        WalkNDone(r, c);
      } else {
        n := 1 + |r.list|;
        WalkReturns(r, c, |r.list|);
        WalkNStep(st, c, n);
      }
    }
  }

  lemma Restarts(st: State, c: int)
    requires Wf(st) && c in st.cbs && st.cbs[c].lastCtr != st.ctr
    ensures var r := WalkStep(st, c);
            && r.list == st.list
            && (if st.list == [] then c !in r.cbs
                else c in r.cbs && r.cbs[c].lastCtr == r.ctr && IndexOf(r.list, r.cbs[c].at) == 0)
  {
  }

  lemma VisitedFirst(st: State, c: int, s: int, t: int)
    requires Wf(st) && s in st.socks && t in st.list && t in st.sel && st.sel[t].want.Ready(s, st.socks[s])
    ensures var r := VisitAt(st, c, s, 0);
            && r.list == st.list && c in r.cbs && r.cbs[c] == Callback(s, st.list[0], st.ctr) && r.ctr == st.ctr && r.socks == st.socks
            && t in r.sel && r.sel[t].want == st.sel[t].want
            && (st.list[0] == t ==> r.sel[t].signalled)
            && (st.list[0] != t ==> YetToVisit(r, r.cbs[c], t))
  {
  }
}
