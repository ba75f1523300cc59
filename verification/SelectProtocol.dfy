/**
 The protocol between lwip_select and event_callback, as a state machine. One step is one stretch of
 code between SYS_ARCH_PROTECT and SYS_ARCH_UNPROTECT; any number of threads may be inside lwip_select,
 and any number of callbacks may be inside event_callback, in any interleaving. Sockets are neither
 opened nor closed.
 */
module SelectProtocol {
  /** struct lwip_sock: the event counters, data left from an earlier read, and select_waiting. */
  datatype Sock = Sock(rcvevent: int, sendevent: bool, errevent: bool, lastdata: bool, waiting: int)

  /** The three descriptor sets of a select call. */
  datatype Interest = Interest(read: set<int>, write: set<int>, except: set<int>) {
    predicate Wants(s: int) { s in read || s in write || s in except }

    /** What event_callback tests before it signals. */
    predicate Ready(s: int, k: Sock) {
      (s in read && k.rcvevent > 0) || (s in write && k.sendevent) || (s in except && k.errevent)
    }

    /** What lwip_selscan counts for one descriptor. */
    function Hits(s: int, k: Sock): nat {
      (if s in read && (k.lastdata || k.rcvevent > 0) then 1 else 0)
      + (if s in write && k.sendevent then 1 else 0)
      + (if s in except && k.errevent then 1 else 0)
    }

    /** The bits that lwip_selscan sets for one descriptor, added to `found`. */
    function Marks(s: int, k: Sock, found: Interest): Interest {
      Interest(found.read + (if s in read && (k.lastdata || k.rcvevent > 0) then {s} else {}),
               found.write + (if s in write && k.sendevent then {s} else {}),
               found.except + (if s in except && k.errevent then {s} else {}))
    }
  }

  const NOTHING := Interest({}, {}, {})

  /**
   Where a thread is inside lwip_select; `i` is the next descriptor, `n` the number found ready so far and
   `found` the sets of them. At the end `sets` is what the caller finds in its descriptor sets.
   */
  datatype Pc =
    | FirstScan(i: int, n: nat, found: Interest)
    | Enlist
    | CountUp(i: int)
    | SecondScan(i: int, n: nat, found: Interest)
    | Blocked
    | CountDown(i: int)
    | Delist
    | LastScan(i: int, n: nat, found: Interest)
    | Done(result: int, sets: Interest)

  /** A call of lwip_select with its control block; `limit` is maxfdp2. */
  datatype Selector = Selector(want: Interest, nfds: int, pc: Pc, limit: int, failed: bool, timedOut: bool,
                               signalled: bool, sem: nat)

  /** A callback for socket `s` that has visited the control block of thread `at` and released protection. */
  datatype Callback = Callback(s: int, at: int, lastCtr: int)

  datatype State = State(socks: map<int, Sock>, list: seq<int>, ctr: int,
                         sel: map<int, Selector>, cbs: map<int, Callback>)

  datatype Event = RcvPlus | RcvMinus | SendPlus | SendMinus | Error

  datatype Action =
    | Begin(t: int, want: Interest, nfds: int)   // lwip_select is called
    | Advance(t: int)                            // the next protected stretch of lwip_select
    | TimeOut(t: int)                            // the semaphore wait ends by timeout
    | Poll(t: int)                               // a zero timeout returns after the first scan
    | Raise(c: int, s: int, e: Event)            // event_callback is entered
    | Walk(c: int)                               // event_callback resumes
    | LeaveData(s: int, left: bool)              // a read leaves or uses up lastdata

  // ----- lwip_select

  function ScanNext(st: State, x: Selector, i: int, n: nat): nat {
    n + if x.want.Wants(i) && i in st.socks then x.want.Hits(i, st.socks[i]) else 0
  }

  function MarkNext(st: State, x: Selector, i: int, found: Interest): Interest {
    if x.want.Wants(i) && i in st.socks then x.want.Marks(i, st.socks[i], found) else found
  }

  function SetPc(st: State, t: int, pc: Pc): State
    requires t in st.sel
  {
    st.(sel := st.sel[t := st.sel[t].(pc := pc)])
  }

  function AddWaiting(st: State, i: int, d: int): State
    requires i in st.socks
  {
    st.(socks := st.socks[i := st.socks[i].(waiting := st.socks[i].waiting + d)])
  }

  function Without(q: seq<int>, t: int): seq<int> {
    if q == [] then [] else if q[0] == t then q[1..] else [q[0]] + Without(q[1..], t)
  }

  /** Off the list: an error leaves the sets alone, a timeout empties them. */
  function Delisted(x: Selector): Pc {
    if x.failed then Done(-1, x.want) else if x.timedOut then Done(0, NOTHING) else LastScan(0, 0, NOTHING)
  }

  /** One protected stretch of lwip_select in thread `t`. */
  function AdvanceStep(st: State, t: int): State
    requires t in st.sel
  {
    var x := st.sel[t];
    match x.pc
    case FirstScan(i, n, found) =>
      if i < x.nfds then SetPc(st, t, FirstScan(i + 1, ScanNext(st, x, i, n), MarkNext(st, x, i, found)))
      else SetPc(st, t, if n > 0 then Done(n, found) else Enlist)
    case Enlist =>
      st.(list := [t] + st.list, ctr := st.ctr + 1,
          sel := st.sel[t := x.(pc := CountUp(0), limit := x.nfds, failed := false,
                              timedOut := false, signalled := false, sem := 0)])
    case CountUp(i) =>
      if i >= x.nfds then SetPc(st, t, SecondScan(0, 0, NOTHING))
      else if !x.want.Wants(i) then SetPc(st, t, CountUp(i + 1))
      else if i in st.socks then SetPc(AddWaiting(st, i, 1), t, CountUp(i + 1))
      else st.(sel := st.sel[t := x.(pc := CountDown(0), limit := i, failed := true)])
    case SecondScan(i, n, found) =>
      if i < x.nfds then SetPc(st, t, SecondScan(i + 1, ScanNext(st, x, i, n), MarkNext(st, x, i, found)))
      else SetPc(st, t, if n > 0 then CountDown(0) else Blocked)
    case Blocked =>
      if x.sem > 0 then st.(sel := st.sel[t := x.(pc := CountDown(0), sem := x.sem - 1)]) else st
    case CountDown(i) =>
      if i >= x.limit then SetPc(st, t, Delist)
      else if !x.want.Wants(i) then SetPc(st, t, CountDown(i + 1))
      else if i !in st.socks then st.(sel := st.sel[t := x.(pc := CountDown(i + 1), failed := true)])
      else SetPc(if st.socks[i].waiting > 0 then AddWaiting(st, i, -1) else st, t, CountDown(i + 1))
    case Delist =>
      SetPc(st, t, Delisted(x)).(list := Without(st.list, t), ctr := st.ctr + 1)
    case LastScan(i, n, found) =>
      if i < x.nfds then SetPc(st, t, LastScan(i + 1, ScanNext(st, x, i, n), MarkNext(st, x, i, found)))
      else SetPc(st, t, Done(n, found))
    case Done(_, _) => st
  }

  // ----- event_callback

  function Apply(k: Sock, e: Event): Sock {
    match e
    case RcvPlus => k.(rcvevent := k.rcvevent + 1)
    case RcvMinus => k.(rcvevent := k.rcvevent - 1)
    case SendPlus => k.(sendevent := true)
    case SendMinus => k.(sendevent := false)
    case Error => k.(errevent := true)
  }

  /** Visit the control block of thread `t`: signal it once if socket `s` is ready for it. */
  function Visit(st: State, s: int, t: int): State
    requires t in st.sel && s in st.socks
  {
    var x := st.sel[t];
    if !x.signalled && x.want.Ready(s, st.socks[s]) then
      st.(sel := st.sel[t := x.(signalled := true, sem := x.sem + 1)])
    else st
  }

  /** Visit the element of the list at index `i` and release protection; past the end the callback returns. */
  function VisitAt(st: State, c: int, s: int, i: nat): State
    requires s in st.socks && forall t :: t in st.list ==> t in st.sel
  {
    if i < |st.list| then
      var t := st.list[i];
      Visit(st, s, t).(cbs := st.cbs[c := Callback(s, t, st.ctr)])
    else st.(cbs := st.cbs - {c})
  }

  function RaiseStep(st: State, c: int, s: int, e: Event): State
    requires s in st.socks && forall t :: t in st.list ==> t in st.sel
  {
    var st1 := st.(socks := st.socks[s := Apply(st.socks[s], e)]);
    if st1.socks[s].waiting == 0 then st1 else VisitAt(st1, c, s, 0)
  }

  function IndexOf(q: seq<int>, t: int): (i: nat)
    ensures i <= |q| && (i < |q| ==> q[i] == t) && (t in q ==> i < |q|)
  {
    if q == [] || q[0] == t then 0 else 1 + IndexOf(q[1..], t)
  }

  /** Resume: restart at the head if the list has changed, else go on to scb->next. */
  function WalkStep(st: State, c: int): State
    requires c in st.cbs && st.cbs[c].s in st.socks && forall t :: t in st.list ==> t in st.sel
  {
    var b := st.cbs[c];
    VisitAt(st, c, b.s, if b.lastCtr != st.ctr then 0 else IndexOf(st.list, b.at) + 1)
  }

  // ----- Runs

  predicate Wf(st: State) {
    && (forall t :: t in st.list ==> t in st.sel)
    && (forall c :: c in st.cbs ==> st.cbs[c].s in st.socks)
  }

  /** When an action can happen; a thread is in one call at a time, and a callback serves one event at a time. */
  predicate Enabled(st: State, a: Action) {
    match a
    case Begin(t, want, nfds) => t !in st.sel || st.sel[t].pc.Done?
    case Advance(t) => t in st.sel && (st.sel[t].pc.Blocked? ==> st.sel[t].sem > 0)
    case TimeOut(t) => t in st.sel && st.sel[t].pc.Blocked?
    case Poll(t) => t in st.sel && st.sel[t].pc.Enlist?
    case Raise(c, s, e) => c !in st.cbs && s in st.socks
    case Walk(c) => c in st.cbs
    case LeaveData(s, left) => s in st.socks
  }

  function Next(st: State, a: Action): State
    requires Wf(st) && Enabled(st, a)
  {
    match a
    case Begin(t, want, nfds) => st.(sel := st.sel[t := Selector(want, nfds, FirstScan(0, 0, NOTHING), 0, false, false, false, 0)])
    case Advance(t) => AdvanceStep(st, t)
    case TimeOut(t) => st.(sel := st.sel[t := st.sel[t].(pc := CountDown(0), timedOut := true)])
    case Poll(t) => SetPc(st, t, Done(0, NOTHING))
    case Raise(c, s, e) => RaiseStep(st, c, s, e)
    case Walk(c) => WalkStep(st, c)
    case LeaveData(s, left) => st.(socks := st.socks[s := st.socks[s].(lastdata := left)])
  }

  // ----- Invariants

  /** The thread's control block is on the list. */
  predicate OnList(x: Selector) {
    x.pc.CountUp? || x.pc.SecondScan? || x.pc.Blocked? || x.pc.CountDown? || x.pc.Delist?
  }

  /** The thread is counted in select_waiting of socket `s`. */
  predicate Counted(x: Selector, s: int) {
    && x.want.Wants(s) && 0 <= s
    && (match x.pc
        case CountUp(i) => s < i
        case SecondScan(i, n, found) => s < x.nfds
        case Blocked => s < x.nfds
        case CountDown(i) => i <= s < x.limit
        case _ => false)
  }

  /** The thread has examined socket `s` for the last time before it sleeps, and found nothing so far. */
  predicate Past(x: Selector, s: int) {
    && x.want.Wants(s) && 0 <= s < x.nfds
    && (x.pc.Blocked? || (x.pc.SecondScan? && s < x.pc.i && x.pc.n == 0))
  }

  /** The thread has not been told that socket `s` is ready, and will not look any more. */
  predicate Overlooked(x: Selector, s: int, k: Sock) {
    Past(x, s) && x.want.Ready(s, k) && !x.signalled
  }

  predicate Distinct(q: seq<int>) {
    forall i, j :: 0 <= i < j < |q| ==> q[i] != q[j]
  }

  /** The list holds exactly the control blocks of the threads between Enlist and Delist, once each. */
  ghost predicate ListInv(st: State) {
    && Distinct(st.list)
    && (forall t :: t in st.list <==> t in st.sel && OnList(st.sel[t]))
  }

  ghost function Counters(st: State, s: int): set<int> {
    set t | t in st.sel && Counted(st.sel[t], s)
  }

  /** select_waiting is the number of threads that wait for the socket. */
  ghost predicate WaitingInv(st: State) {
    forall s :: s in st.socks ==> st.socks[s].waiting == |Counters(st, s)|
  }

  /** A callback that will follow scb->next stands on a control block that is still on the list. */
  ghost predicate CallbackInv(st: State) {
    forall c :: c in st.cbs ==>
      var b := st.cbs[c];
      b.s in st.socks && b.lastCtr <= st.ctr && (b.lastCtr == st.ctr ==> b.at in st.list)
  }

  /** A sleeping thread that was signalled can wake up: its semaphore is up. */
  ghost predicate SemInv(st: State) {
    forall t :: t in st.sel && (st.sel[t].pc.CountUp? || st.sel[t].pc.SecondScan? || st.sel[t].pc.Blocked?) ==>
      st.sel[t].sem == if st.sel[t].signalled then 1 else 0
  }

  /** Callback `b` has yet to visit thread `t`: it will restart, or `t` comes after its position. */
  predicate YetToVisit(st: State, b: Callback, t: int) {
    b.lastCtr != st.ctr || IndexOf(st.list, b.at) < IndexOf(st.list, t)
  }

  ghost predicate WillBeVisited(st: State, s: int, t: int) {
    exists c :: c in st.cbs && st.cbs[c].s == s && YetToVisit(st, st.cbs[c], t)
  }

  /** A thread that will sleep, or sleeps, although a socket it selected is ready, is signalled or about to be. */
  ghost predicate WakeInv(st: State) {
    forall t, s :: t in st.sel && s in st.socks && Overlooked(st.sel[t], s, st.socks[s]) ==> WillBeVisited(st, s, t)
  }

  /** The loop indices are in range; until something fails, maxfdp2 is maxfdp1. */
  predicate PlaceOk(x: Selector) {
    match x.pc
    case CountUp(i) => 0 <= i && (i == 0 || i <= x.nfds) && x.limit == x.nfds
    case SecondScan(i, n, found) => 0 <= i && x.limit == x.nfds
    case Blocked => x.limit == x.nfds
    case CountDown(i) => 0 <= i
    case _ => true
  }

  ghost predicate PlaceInv(st: State) {
    forall t :: t in st.sel ==> PlaceOk(st.sel[t])
  }

  ghost predicate Inv(st: State) {
    PlaceInv(st) && ListInv(st) && WaitingInv(st) && CallbackInv(st) && SemInv(st) && WakeInv(st)
  }

  lemma InvWf(st: State)
    requires ListInv(st) && CallbackInv(st)
    ensures Wf(st)
  {
  }

  // ----- Steps of lwip_select that touch nothing but the thread's own place

  /** `y` differs from `x` in ways that no invariant but WakeInv can see. */
  ghost predicate SamePlace(x: Selector, y: Selector, socks: map<int, Sock>) {
    && PlaceOk(y)
    && OnList(y) == OnList(x) && (forall s :: s in socks ==> (Counted(y, s) <==> Counted(x, s)))
    && ((y.pc.CountUp? || y.pc.SecondScan? || y.pc.Blocked?) ==>
          (x.pc.CountUp? || x.pc.SecondScan? || x.pc.Blocked?) && y.sem == x.sem && y.signalled == x.signalled)
  }

  /** A step that leaves the list and the callbacks alone keeps WakeInv if it makes nobody overlooked. */
  lemma SameWake(st: State, r: State)
    requires WakeInv(st) && r.list == st.list && r.ctr == st.ctr && r.cbs == st.cbs
    requires forall u, s :: u in r.sel && s in r.socks && Overlooked(r.sel[u], s, r.socks[s]) ==>
               u in st.sel && s in st.socks && Overlooked(st.sel[u], s, st.socks[s])
    ensures WakeInv(r)
  {
    forall u, s | u in r.sel && s in r.socks && Overlooked(r.sel[u], s, r.socks[s]) ensures WillBeVisited(r, s, u) {
      var c :| c in st.cbs && st.cbs[c].s == s && YetToVisit(st, st.cbs[c], u);
      assert YetToVisit(r, r.cbs[c], u);
    }
  }

  lemma SameWaiting(st: State, r: State)
    requires WaitingInv(st) && forall s :: s in r.socks ==> s in st.socks && r.socks[s].waiting == st.socks[s].waiting
    requires forall s :: s in r.socks ==> Counters(r, s) == Counters(st, s)
    ensures WaitingInv(r)
  {
  }

  lemma LocalStep(st: State, t: int, y: Selector)
    requires Inv(st) && t in st.sel && SamePlace(st.sel[t], y, st.socks)
    requires forall s :: s in st.socks && Overlooked(y, s, st.socks[s]) ==> Overlooked(st.sel[t], s, st.socks[s])
    ensures Inv(st.(sel := st.sel[t := y]))
  {
    var r := st.(sel := st.sel[t := y]);
    forall s | s in r.socks ensures Counters(r, s) == Counters(st, s) {}
    SameWaiting(st, r);
    SameWake(st, r);
  }

  lemma BeginKeeps(st: State, t: int, want: Interest, nfds: int)
    requires Inv(st) && (t !in st.sel || st.sel[t].pc.Done?)
    ensures Inv(st.(sel := st.sel[t := Selector(want, nfds, FirstScan(0, 0, NOTHING), 0, false, false, false, 0)]))
  {
    var r := st.(sel := st.sel[t := Selector(want, nfds, FirstScan(0, 0, NOTHING), 0, false, false, false, 0)]);
    forall s | s in r.socks ensures Counters(r, s) == Counters(st, s) {}
    SameWaiting(st, r);
    SameWake(st, r);
  }

  // ----- Steps that count

  /** Thread `t` can join (d = 1) or leave (d = -1) those counted in select_waiting of socket `i`. */
  ghost predicate Counts(st: State, t: int, i: int, d: int, y: Selector) {
    && t in st.sel && i in st.socks && (d == 1 || d == -1)
    && (forall s :: s != i ==> (Counted(y, s) <==> Counted(st.sel[t], s)))
    && if d == 1 then Counted(y, i) && !Counted(st.sel[t], i) else !Counted(y, i) && Counted(st.sel[t], i)
  }

  lemma CountWaiting(st: State, t: int, i: int, d: int, y: Selector)
    requires WaitingInv(st) && Counts(st, t, i, d, y)
    ensures WaitingInv(AddWaiting(st, i, d).(sel := st.sel[t := y])) && st.socks[i].waiting + d >= 0
  {
    var r := AddWaiting(st, i, d).(sel := st.sel[t := y]);
    forall s | s in r.socks ensures r.socks[s].waiting == |Counters(r, s)| {
      if s != i {
        assert Counters(r, s) == Counters(st, s);
      } else if d == 1 {
        assert Counters(r, s) == Counters(st, s) + {t};
      } else {
        assert Counters(st, s) == Counters(r, s) + {t};
      }
    }
  }

  lemma CountStep(st: State, t: int, i: int, d: int, y: Selector)
    requires Inv(st) && Counts(st, t, i, d, y)
    requires OnList(y) && OnList(st.sel[t]) && y.sem == st.sel[t].sem && y.signalled == st.sel[t].signalled
    requires PlaceOk(y) && (y.pc.CountUp? || y.pc.CountDown?) && (y.pc.CountUp? ==> st.sel[t].pc.CountUp?)
    ensures Inv(AddWaiting(st, i, d).(sel := st.sel[t := y])) && st.socks[i].waiting + d >= 0
  {
    var r := AddWaiting(st, i, d).(sel := st.sel[t := y]);
    CountWaiting(st, t, i, d, y);
    hide WaitingInv, Counted;
    SameWake(st, r);
  }

  // ----- Steps that change the list

  lemma WithoutProps(q: seq<int>, t: int)
    requires Distinct(q)
    ensures Distinct(Without(q, t)) && forall u :: u in Without(q, t) <==> u in q && u != t
  {
    if q != [] && q[0] != t {
      WithoutProps(q[1..], t);
      assert q == [q[0]] + q[1..];
      var w := Without(q[1..], t);
      forall j | 0 <= j < |w| ensures w[j] != q[0] { assert w[j] in q[1..]; }
    } else if q != [] {
      assert q == [q[0]] + q[1..];
    }
  }

  /** The list changes and the counter with it, so every callback will restart. */
  lemma ListStep(st: State, t: int, q: seq<int>, y: Selector)
    requires Inv(st) && t in st.sel && Distinct(q)
    requires forall u :: u in q <==> if u == t then OnList(y) else u in st.list
    requires forall s :: Counted(y, s) <==> Counted(st.sel[t], s)
    requires y.pc.CountUp? ==> y.sem == 0 && !y.signalled
    requires PlaceOk(y) && !y.pc.SecondScan? && !y.pc.Blocked?
    ensures Inv(st.(list := q, ctr := st.ctr + 1, sel := st.sel[t := y]))
  {
    var r := st.(list := q, ctr := st.ctr + 1, sel := st.sel[t := y]);
    forall s | s in r.socks ensures r.socks[s].waiting == |Counters(r, s)| {
      assert Counters(r, s) == Counters(st, s);
    }
    forall u, s | u in r.sel && s in r.socks && Overlooked(r.sel[u], s, r.socks[s]) ensures WillBeVisited(r, s, u) {
      assert Overlooked(st.sel[u], s, st.socks[s]);
      var c :| c in st.cbs && st.cbs[c].s == s && YetToVisit(st, st.cbs[c], u);
      assert YetToVisit(r, r.cbs[c], u);
    }
  }

  // ----- Steps of event_callback

  /** Whoever is overlooked is expected by a callback other than `c`, or by one on `s` that stands before index `i`. */
  ghost predicate CoveredFrom(st: State, c: int, s: int, i: nat) {
    forall u, z :: u in st.sel && z in st.socks && Overlooked(st.sel[u], z, st.socks[z]) ==>
      || (exists d :: d in st.cbs && d != c && st.cbs[d].s == z && YetToVisit(st, st.cbs[d], u))
      || (z == s && i <= IndexOf(st.list, u))
  }

  lemma IndexOfDistinct(q: seq<int>, i: nat)
    requires Distinct(q) && i < |q|
    ensures IndexOf(q, q[i]) == i
  {
  }

  lemma VisitWake(st: State, c: int, s: int, i: nat)
    requires ListInv(st) && Wf(st) && s in st.socks && CoveredFrom(st, c, s, i)
    ensures WakeInv(VisitAt(st, c, s, i))
  {
    var r := VisitAt(st, c, s, i);
    forall u, z | u in r.sel && z in r.socks && Overlooked(r.sel[u], z, r.socks[z]) ensures WillBeVisited(r, z, u) {
      assert Overlooked(st.sel[u], z, st.socks[z]);
      assert u in st.list;
      if d :| d in st.cbs && d != c && st.cbs[d].s == z && YetToVisit(st, st.cbs[d], u) {
        assert r.cbs[d] == st.cbs[d] && YetToVisit(r, r.cbs[d], u);
      } else {
        IndexOfDistinct(st.list, i);
        assert r.cbs[c] == Callback(s, st.list[i], st.ctr) && YetToVisit(r, r.cbs[c], u);
      }
    }
  }

  lemma VisitOthers(st: State, c: int, s: int, i: nat)
    requires PlaceInv(st) && ListInv(st) && WaitingInv(st) && CallbackInv(st) && SemInv(st) && s in st.socks && Wf(st)
    ensures var r := VisitAt(st, c, s, i); PlaceInv(r) && ListInv(r) && WaitingInv(r) && CallbackInv(r) && SemInv(r)
  {
    var r := VisitAt(st, c, s, i);
    forall z | z in r.socks ensures Counters(r, z) == Counters(st, z) {}
    SameWaiting(st, r);
  }

  lemma VisitKeeps(st: State, c: int, s: int, i: nat)
    requires PlaceInv(st) && ListInv(st) && WaitingInv(st) && CallbackInv(st) && SemInv(st) && s in st.socks
    requires CoveredFrom(st, c, s, i)
    ensures Inv(VisitAt(st, c, s, i))
  {
    InvWf(st);
    VisitWake(st, c, s, i);
    VisitOthers(st, c, s, i);
    hide *;
  }

  lemma WalkKeeps(st: State, c: int)
    requires Inv(st) && c in st.cbs && Wf(st)
    ensures Inv(WalkStep(st, c))
  {
    var b := st.cbs[c];
    var i := if b.lastCtr != st.ctr then 0 else IndexOf(st.list, b.at) + 1;
    VisitKeeps(st, c, b.s, i);
  }

  /** An event changes the counters of one socket, and none of the invariants about lists and counts sees it. */
  lemma RaisedInv(st: State, s: int, e: Event)
    requires Inv(st) && s in st.socks
    ensures var st1 := st.(socks := st.socks[s := Apply(st.socks[s], e)]);
            PlaceInv(st1) && ListInv(st1) && WaitingInv(st1) && CallbackInv(st1) && SemInv(st1)
  {
    var st1 := st.(socks := st.socks[s := Apply(st.socks[s], e)]);
    forall z | z in st1.socks ensures st1.socks[z].waiting == |Counters(st1, z)| {
      assert Counters(st1, z) == Counters(st, z);
    }
    hide WakeInv;
  }

  /** Whoever is overlooked for another socket is still going to be visited. */
  lemma RaisedWake(st: State, c: int, s: int, e: Event, u: int, z: int)
    requires WakeInv(st) && c !in st.cbs && s in st.socks
    requires u in st.sel && z in st.socks && z != s && Overlooked(st.sel[u], z, st.socks[z])
    ensures var st1 := st.(socks := st.socks[s := Apply(st.socks[s], e)]);
            exists d :: d in st1.cbs && d != c && st1.cbs[d].s == z && YetToVisit(st1, st1.cbs[d], u)
  {
    var st1 := st.(socks := st.socks[s := Apply(st.socks[s], e)]);
    var d :| d in st.cbs && st.cbs[d].s == z && YetToVisit(st, st.cbs[d], u);
    assert YetToVisit(st1, st1.cbs[d], u);
  }

  lemma RaiseKeeps(st: State, c: int, s: int, e: Event)
    requires Inv(st) && c !in st.cbs && s in st.socks && Wf(st)
    ensures Inv(RaiseStep(st, c, s, e))
  {
    var st1 := st.(socks := st.socks[s := Apply(st.socks[s], e)]);
    RaisedInv(st, s, e);
    forall u, z | u in st1.sel && z in st1.socks && Overlooked(st1.sel[u], z, st1.socks[z]) && z != s
      ensures exists d :: d in st1.cbs && d != c && st1.cbs[d].s == z && YetToVisit(st1, st1.cbs[d], u)
    {
      RaisedWake(st, c, s, e, u, z);
    }
    if st1.socks[s].waiting == 0 {
      assert Counters(st1, s) == {};
      assert forall u :: u in st1.sel && Past(st1.sel[u], s) ==> u in Counters(st1, s);
    } else {
      VisitKeeps(st1, c, s, 0);
    }
  }

  lemma LeaveDataKeeps(st: State, s: int, left: bool)
    requires Inv(st) && s in st.socks
    ensures Inv(st.(socks := st.socks[s := st.socks[s].(lastdata := left)]))
  {
    var r := st.(socks := st.socks[s := st.socks[s].(lastdata := left)]);
    forall z | z in r.socks ensures r.socks[z].waiting == |Counters(r, z)| {
      assert Counters(r, z) == Counters(st, z);
    }
    forall u, z | u in r.sel && z in r.socks && Overlooked(r.sel[u], z, r.socks[z]) ensures WillBeVisited(r, z, u) {
      assert Overlooked(st.sel[u], z, st.socks[z]);
      var c :| c in st.cbs && st.cbs[c].s == z && YetToVisit(st, st.cbs[c], u);
      assert YetToVisit(r, r.cbs[c], u);
    }
  }

  // ----- Every step

  lemma AdvanceKeeps(st: State, t: int)
    requires Inv(st) && t in st.sel && (st.sel[t].pc.Blocked? ==> st.sel[t].sem > 0)
    ensures Inv(AdvanceStep(st, t))
  {
    assert PlaceOk(st.sel[t]);
    hide Inv;
    var x := st.sel[t];
    match x.pc
    case FirstScan(_, _, _) => OtherScanKeeps(st, t);
    case Enlist => EnlistKeeps(st, t);
    case CountUp(i) => CountUpKeeps(st, t);
    case SecondScan(_, _, _) => SecondScanKeeps(st, t);
    case Blocked => LocalStep(st, t, x.(pc := CountDown(0), sem := x.sem - 1));
    case CountDown(i) => CountDownKeeps(st, t);
    case Delist => DelistKeeps(st, t);
    case LastScan(_, _, _) => OtherScanKeeps(st, t);
    case Done(_, _) =>
  }

  lemma OtherScanKeeps(st: State, t: int)
    requires Inv(st) && t in st.sel && (st.sel[t].pc.FirstScan? || st.sel[t].pc.LastScan?)
    ensures Inv(AdvanceStep(st, t))
  {
    LocalStep(st, t, AdvanceStep(st, t).sel[t]);
  }

  /** The second scan: a socket that is passed over was not ready when it was examined. */
  lemma SecondScanKeeps(st: State, t: int)
    requires Inv(st) && t in st.sel && st.sel[t].pc.SecondScan?
    ensures Inv(AdvanceStep(st, t))
  {
    assert PlaceOk(st.sel[t]);
    hide Inv;
    var x := st.sel[t];
    var i, n := x.pc.i, x.pc.n;
    if i < x.nfds {
      LocalStep(st, t, x.(pc := SecondScan(i + 1, ScanNext(st, x, i, n), MarkNext(st, x, i, x.pc.found))));
    } else {
      LocalStep(st, t, x.(pc := if n > 0 then CountDown(0) else Blocked));
    }
  }

  lemma EnlistKeeps(st: State, t: int)
    requires Inv(st) && t in st.sel && st.sel[t].pc.Enlist?
    ensures Inv(AdvanceStep(st, t))
  {
    var x := st.sel[t];
    ListStep(st, t, [t] + st.list, x.(pc := CountUp(0), limit := x.nfds, failed := false,
                                      timedOut := false, signalled := false, sem := 0));
  }

  lemma DelistKeeps(st: State, t: int)
    requires Inv(st) && t in st.sel && st.sel[t].pc.Delist?
    ensures Inv(AdvanceStep(st, t))
  {
    var x := st.sel[t];
    WithoutProps(st.list, t);
    ListStep(st, t, Without(st.list, t),
             x.(pc := Delisted(x)));
  }

  lemma CountUpKeeps(st: State, t: int)
    requires Inv(st) && t in st.sel && st.sel[t].pc.CountUp?
    ensures Inv(AdvanceStep(st, t))
  {
    assert PlaceOk(st.sel[t]);
    hide Inv;
    var x := st.sel[t];
    var i := x.pc.i;
    if i >= x.nfds {
      LocalStep(st, t, x.(pc := SecondScan(0, 0, NOTHING)));
    } else if !x.want.Wants(i) {
      LocalStep(st, t, x.(pc := CountUp(i + 1)));
    } else if i in st.socks {
      CountStep(st, t, i, 1, x.(pc := CountUp(i + 1)));
    } else {
      LocalStep(st, t, x.(pc := CountDown(0), limit := i, failed := true));
    }
  }

  lemma CountDownKeeps(st: State, t: int)
    requires Inv(st) && t in st.sel && st.sel[t].pc.CountDown?
    ensures Inv(AdvanceStep(st, t))
  {
    assert PlaceOk(st.sel[t]);
    hide Inv;
    var x := st.sel[t];
    var i := x.pc.i;
    if i >= x.limit {
      LocalStep(st, t, x.(pc := Delist));
    } else if !x.want.Wants(i) {
      LocalStep(st, t, x.(pc := CountDown(i + 1)));
    } else if i !in st.socks {
      LocalStep(st, t, x.(pc := CountDown(i + 1), failed := true));
    } else {
      CountStep(st, t, i, -1, x.(pc := CountDown(i + 1)));
    }
  }

  lemma NextKeeps(st: State, a: Action)
    requires Inv(st) && Wf(st) && Enabled(st, a)
    ensures Inv(Next(st, a)) && Wf(Next(st, a)) && Next(st, a).socks.Keys == st.socks.Keys
  {
    match a {
      case Begin(t, want, nfds) => BeginKeeps(st, t, want, nfds);
      case Advance(t) => AdvanceKeeps(st, t);
      case TimeOut(t) =>
        LocalStep(st, t, st.sel[t].(pc := CountDown(0), timedOut := true));
      case Poll(t) => LocalStep(st, t, st.sel[t].(pc := Done(0, NOTHING)));
      case Raise(c, s, e) => RaiseKeeps(st, c, s, e);
      case Walk(c) => WalkKeeps(st, c);
      case LeaveData(s, left) => LeaveDataKeeps(st, s, left);
    }
    InvWf(Next(st, a));
  }

  // ----- Every run

  ghost predicate Initial(st: State) {
    st.list == [] && st.sel == map[] && st.cbs == map[] && forall s :: s in st.socks ==> st.socks[s].waiting == 0
  }

  /** `sts` is a run: it starts initially, and each state follows from the one before by an enabled action. */
  ghost predicate IsRun(sts: seq<State>) {
    && sts != [] && Initial(sts[0])
    && forall i :: 0 <= i < |sts| - 1 ==> Follows(sts[i], sts[i + 1])
  }

  ghost predicate Follows(st: State, r: State) {
    Wf(st) && exists a :: Enabled(st, a) && r == Next(st, a)
  }

  lemma InitialInv(st: State)
    requires Initial(st)
    ensures Inv(st)
  {
    forall s | s in st.socks ensures Counters(st, s) == {} {}
  }

  lemma FollowsKeeps(st: State, r: State)
    requires Inv(st) && Follows(st, r)
    ensures Inv(r)
  {
    var a :| Enabled(st, a) && r == Next(st, a);
    hide Inv, Enabled, Next;
    NextKeeps(st, a);
  }

  lemma RunPrefix(sts: seq<State>)
    requires IsRun(sts) && |sts| > 1
    ensures IsRun(sts[..|sts| - 1]) && Follows(sts[|sts| - 2], sts[|sts| - 1])
  {
    hide Follows, Initial;
    var p := sts[..|sts| - 1];
    forall i | 0 <= i < |p| - 1 ensures Follows(p[i], p[i + 1]) { assert Follows(sts[i], sts[i + 1]); }
    var i := |sts| - 2;
    assert Follows(sts[i], sts[i + 1]);
  }

  lemma {:induction false} RunInv(sts: seq<State>)
    requires IsRun(sts)
    ensures Inv(sts[|sts| - 1])
    decreases |sts|
  {
    hide Inv, Follows, Initial;
    if |sts| == 1 {
      InitialInv(sts[0]);
    } else {
      RunPrefix(sts);
      RunInv(sts[..|sts| - 1]);
      FollowsKeeps(sts[|sts| - 2], sts[|sts| - 1]);
    }
  }

  /**
   No lost wakeup: in every reachable state, if a thread sleeps with its semaphore down although a socket it
   selected is ready by its event counters, then some callback for that socket has yet to visit the thread.
   In particular, when no callback is under way nobody sleeps next to a ready socket.
   */
  lemma NoLostWakeup(sts: seq<State>, t: int, s: int)
    requires IsRun(sts)
    requires var st := sts[|sts| - 1];
             && t in st.sel && st.sel[t].pc.Blocked? && st.sel[t].sem == 0
             && s in st.socks && 0 <= s < st.sel[t].nfds && st.sel[t].want.Ready(s, st.socks[s])
    ensures WillBeVisited(sts[|sts| - 1], s, t) && sts[|sts| - 1].cbs != map[]
  {
    RunInv(sts);
    var st := sts[|sts| - 1];
    assert Overlooked(st.sel[t], s, st.socks[s]);
  }

  /** A callback that resumes with an unchanged counter finds the control block it left on the list, alive. */
  lemma NoStaleControlBlock(sts: seq<State>, c: int)
    requires IsRun(sts) && c in sts[|sts| - 1].cbs
    ensures var st := sts[|sts| - 1];
            st.cbs[c].lastCtr == st.ctr ==> st.cbs[c].at in st.list && st.cbs[c].at in st.sel && OnList(st.sel[st.cbs[c].at])
  {
    RunInv(sts);
  }

  /** The assertion select_waiting > 0 holds whenever a thread takes itself off a socket it waited for. */
  lemma WaitingIsPositive(sts: seq<State>, t: int)
    requires IsRun(sts) && t in sts[|sts| - 1].sel && sts[|sts| - 1].sel[t].pc.CountDown?
    ensures var st := sts[|sts| - 1];
            var x := st.sel[t];
            x.pc.i < x.limit && x.want.Wants(x.pc.i) && x.pc.i in st.socks ==> st.socks[x.pc.i].waiting > 0
  {
    RunInv(sts);
    var st := sts[|sts| - 1];
    var i := st.sel[t].pc.i;
    assert PlaceOk(st.sel[t]);
    if i < st.sel[t].limit && st.sel[t].want.Wants(i) && i in st.socks {
      assert t in Counters(st, i);
    }
  }

  // ----- The callback that is expected does arrive

  function WalkN(st: State, c: int, n: nat): State
    requires Wf(st)
    decreases n
  {
    if n == 0 || c !in st.cbs then st
    else
      var r := WalkStep(st, c);
      if Wf(r) then WalkN(r, c, n - 1) else r
  }

  /** One step of an undisturbed walk: the next thread of the list is visited, and nothing else moves. */
  lemma WalkOnce(st: State, c: int)
    requires Inv(st) && Wf(st) && c in st.cbs && st.cbs[c].lastCtr == st.ctr
    requires var i := IndexOf(st.list, st.cbs[c].at) + 1; i < |st.list|
    ensures var (r, b, i) := (WalkStep(st, c), st.cbs[c], IndexOf(st.list, st.cbs[c].at) + 1);
            && Inv(r) && Wf(r) && r.list == st.list && r.socks == st.socks && r.ctr == st.ctr && r.sel.Keys == st.sel.Keys
            && c in r.cbs && r.cbs[c] == Callback(b.s, st.list[i], st.ctr)
            && (forall u :: u in st.sel ==> r.sel[u].want == st.sel[u].want)
            && IndexOf(r.list, st.list[i]) == i
            && (st.sel[st.list[i]].want.Ready(b.s, st.socks[b.s]) ==> r.sel[st.list[i]].signalled)
  {
    WalkKeeps(st, c);
    InvWf(WalkStep(st, c));
    IndexOfDistinct(st.list, IndexOf(st.list, st.cbs[c].at) + 1);
    hide PlaceInv, WaitingInv, SemInv, WakeInv;
  }

  lemma WalkNStep(st: State, c: int, n: nat)
    requires Wf(st) && c in st.cbs && n > 0 && Wf(WalkStep(st, c))
    ensures WalkN(st, c, n) == WalkN(WalkStep(st, c), c, n - 1)
  {
  }

  lemma {:induction false} WalkSignals(st: State, c: int, t: int, n: nat)
    requires Inv(st) && Wf(st) && c in st.cbs && t in st.list
    requires st.sel[t].want.Ready(st.cbs[c].s, st.socks[st.cbs[c].s])
    requires st.cbs[c].lastCtr == st.ctr && n == IndexOf(st.list, t) - IndexOf(st.list, st.cbs[c].at) && n > 0
    ensures t in WalkN(st, c, n).sel && WalkN(st, c, n).sel[t].signalled
    decreases n
  {
    hide Inv, WalkStep, WalkN;
    WalkOnce(st, c);
    WalkNStep(st, c, n);
    var r := WalkStep(st, c);
    if n > 1 {
      WalkSignals(r, c, t, n - 1);
    } else {
      WalkNDone(r, c);
    }
  }

  lemma WalkNDone(st: State, c: int)
    requires Wf(st)
    ensures WalkN(st, c, 0) == st
  {
  }

  /** Left alone, a callback signals a thread it has yet to visit within as many steps as the list is long. */
  lemma ExpectedCallbackSignals(st: State, c: int, t: int) returns (n: nat)
    requires Inv(st) && Wf(st) && c in st.cbs && t in st.list && YetToVisit(st, st.cbs[c], t)
    requires st.sel[t].want.Ready(st.cbs[c].s, st.socks[st.cbs[c].s])
    ensures n <= |st.list| && t in WalkN(st, c, n).sel && WalkN(st, c, n).sel[t].signalled
  {
    if st.cbs[c].lastCtr == st.ctr {
      n := IndexOf(st.list, t) - IndexOf(st.list, st.cbs[c].at);
      WalkSignals(st, c, t, n);
    } else {
      WalkKeeps(st, c);
      var r := WalkStep(st, c);
      InvWf(r);
      IndexOfDistinct(st.list, 0);
      assert r.list == st.list && r.cbs[c] == Callback(st.cbs[c].s, st.list[0], st.ctr);
      assert WalkN(r, c, 0) == r;
      n := 1 + IndexOf(st.list, t);
      hide Inv;
      if st.list[0] != t { WalkSignals(r, c, t, n - 1); }
    }
  }
}
