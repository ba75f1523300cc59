/**
 Receive events during lwip_accept: data may arrive on a new connection before its socket exists. event_callback
 then counts conn->socket down from -1, and lwip_accept turns the count into the new socket's rcvevent. Steps are
 the stretches between protection boundaries, interleaved in any order.
 */
module AcceptHandover {
  datatype Evt = RcvPlus | RcvMinus

  /** Where an event_callback stands: about to look at conn->socket, to look again under protection, or to count. */
  datatype Place = Look | LookAgain | Count

  datatype Callback = Callback(evt: Evt, place: Place)

  /** The connection, the new socket once it exists, and what the callbacks have been called for and have counted. */
  datatype State = State(connSocket: int, rcvevent: int, running: map<int, Callback>, raisedPlus: nat, raisedMinus: nat)

  function Initial(): State { State(-1, 0, map[], 0, 0) }

  datatype Action =
    | Raise(id: int, evt: Evt)
    | Advance(id: int)
    | Accept(newsock: nat)

  ghost predicate Enabled(st: State, a: Action) {
    match a
    case Raise(id, evt) => id !in st.running && (evt.RcvMinus? ==> st.connSocket >= 0)
    case Advance(id) => id in st.running
    case Accept(_) => st.connSocket < 0
  }

  function Next(st: State, a: Action): State {
    match a
    case Raise(id, evt) =>
      st.(running := st.running[id := Callback(evt, Look)],
          raisedPlus := st.raisedPlus + (if evt.RcvPlus? then 1 else 0),
          raisedMinus := st.raisedMinus + if evt.RcvMinus? then 1 else 0)
    case Advance(id) => if id in st.running then Step(st, id) else st
    case Accept(newsock) => st.(rcvevent := st.rcvevent + (-1 - st.connSocket), connSocket := newsock)
  }

  function Step(st: State, id: int): State
    requires id in st.running
  {
    var c := st.running[id];
    match c.place
    case Look => st.(running := st.running[id := c.(place := if st.connSocket < 0 then LookAgain else Count)])
    case LookAgain =>
      if st.connSocket < 0 then
        st.(connSocket := if c.evt.RcvPlus? then st.connSocket - 1 else st.connSocket, running := st.running - {id})
      else st.(running := st.running[id := c.(place := Count)])
    case Count =>
      st.(rcvevent := if c.evt.RcvPlus? then st.rcvevent + 1 else st.rcvevent - 1, running := st.running - {id})
  }

  /** The callbacks for `evt` that have not counted yet. */
  ghost function Waiting(st: State, evt: Evt): set<int> {
    set id | id in st.running && st.running[id].evt == evt
  }

  /** What has been counted, wherever it is kept. */
  function Recorded(st: State): int { if st.connSocket < 0 then -1 - st.connSocket else st.rcvevent }

  /** Every event raised is recorded once, unless its callback is still under way. */
  ghost predicate Inv(st: State) {
    && Recorded(st) == (st.raisedPlus - |Waiting(st, RcvPlus)|) - (st.raisedMinus - |Waiting(st, RcvMinus)|)
    && (st.connSocket < 0 ==> st.rcvevent == 0)
    && (st.connSocket < 0 ==>
          forall id :: id in st.running ==> st.running[id].evt.RcvPlus? && !st.running[id].place.Count?)
  }

  lemma WaitingMore(st: State, r: State, id: int, evt: Evt, e: Evt)
    requires id !in st.running && r.running == st.running[id := Callback(evt, Look)]
    ensures |Waiting(r, e)| == |Waiting(st, e)| + if e == evt then 1 else 0
  {
    assert Waiting(r, e) == if e == evt then Waiting(st, e) + {id} else Waiting(st, e);
    assert id !in Waiting(st, e);
  }

  lemma WaitingLess(st: State, r: State, id: int, e: Evt)
    requires id in st.running && r.running == st.running - {id}
    ensures |Waiting(r, e)| == |Waiting(st, e)| - if e == st.running[id].evt then 1 else 0
  {
    assert Waiting(r, e) == Waiting(st, e) - {id};
    assert id in Waiting(st, e) <==> e == st.running[id].evt;
  }

  lemma RaiseKeeps(st: State, id: int, evt: Evt)
    requires Inv(st) && Enabled(st, Raise(id, evt))
    ensures Inv(Next(st, Raise(id, evt)))
  {
    var r := Next(st, Raise(id, evt));
    WaitingMore(st, r, id, evt, RcvPlus);
    WaitingMore(st, r, id, evt, RcvMinus);
    hide Waiting;
  }

  /** A callback that moves on without counting. */
  lemma MoveKeeps(st: State, id: int, place: Place)
    requires Inv(st) && id in st.running && (place.Count? ==> st.connSocket >= 0)
    ensures Inv(st.(running := st.running[id := st.running[id].(place := place)]))
  {
    var r := st.(running := st.running[id := st.running[id].(place := place)]);
    forall e: Evt ensures Waiting(r, e) == Waiting(st, e) {}
  }

  lemma StepKeeps(st: State, id: int)
    requires Inv(st) && id in st.running
    ensures Inv(Step(st, id))
  {
    var (c, r) := (st.running[id], Step(st, id));
    if c.place.Look? || (c.place.LookAgain? && st.connSocket >= 0) {
      MoveKeeps(st, id, r.running[id].place);
    } else {
      WaitingLess(st, r, id, RcvPlus);
      WaitingLess(st, r, id, RcvMinus);
      hide Waiting;
    }
  }

  lemma NextKeeps(st: State, a: Action)
    requires Inv(st) && Enabled(st, a)
    ensures Inv(Next(st, a))
  {
    match a
    case Raise(id, evt) => RaiseKeeps(st, id, evt);
    case Advance(id) => StepKeeps(st, id);
    case Accept(newsock) =>
      var r := Next(st, a);
      forall e: Evt ensures Waiting(r, e) == Waiting(st, e) {}
  }

  function Run(es: seq<Action>): State {
    if es == [] then Initial() else Next(Run(es[..|es| - 1]), es[|es| - 1])
  }

  ghost predicate Possible(es: seq<Action>) {
    es != [] ==> Possible(es[..|es| - 1]) && Enabled(Run(es[..|es| - 1]), es[|es| - 1])
  }

  lemma {:induction false} RunKeeps(es: seq<Action>)
    requires Possible(es)
    ensures Inv(Run(es))
    decreases |es|
  {
    if es == [] {
      forall e: Evt ensures Waiting(Initial(), e) == {} {}
    } else {
      RunKeeps(es[..|es| - 1]);
      NextKeeps(Run(es[..|es| - 1]), es[|es| - 1]);
    }
  }

  /** How often `evt` was raised. */
  function Raised(es: seq<Action>, evt: Evt): nat {
    if es == [] then 0
    else Raised(es[..|es| - 1], evt) + if es[|es| - 1].Raise? && es[|es| - 1].evt == evt then 1 else 0
  }

  lemma {:induction false} RaisedAre(es: seq<Action>)
    ensures Run(es).raisedPlus == Raised(es, RcvPlus) && Run(es).raisedMinus == Raised(es, RcvMinus)
    decreases |es|
  {
    if es != [] { RaisedAre(es[..|es| - 1]); }
  }

  /** In every interleaving, once no callback is under way each receive event has been counted exactly once. */
  lemma NoEventLost(es: seq<Action>)
    requires Possible(es) && Run(es).running == map[]
    ensures var st := Run(es);
            (if st.connSocket < 0 then -1 - st.connSocket else st.rcvevent) == Raised(es, RcvPlus) - Raised(es, RcvMinus)
  {
    RunKeeps(es);
    RaisedAre(es);
    var st := Run(es);
    forall e: Evt ensures Waiting(st, e) == {} {}
  }

  /** A callback counts and returns within three stretches of its own, whatever happens between them. */
  lemma CallbackCounts(st: State, id: int)
    requires Inv(st) && id in st.running
    ensures var (c, r) := (st.running[id], Next(st, Advance(id)));
            if id in r.running then
              r.running == st.running[id := r.running[id]] && Left(r.running[id].place) < Left(c.place) && Recorded(r) == Recorded(st)
              && r.running[id].evt == c.evt && r.connSocket == st.connSocket
            else r.running == st.running - {id} && Recorded(r) == Recorded(st) + if c.evt.RcvPlus? then 1 else -1
  {
  }

  /** The stretches that a callback has yet to go through at most. */
  function Left(p: Place): nat { match p case Look => 3 case LookAgain => 2 case Count => 1 }

  /** lwip_accept hands over all that has been counted. */
  lemma AcceptHandsOver(st: State, newsock: nat)
    requires Inv(st) && Enabled(st, Accept(newsock))
    ensures var r := Next(st, Accept(newsock)); r.connSocket == newsock && r.rcvevent == Recorded(st) && r.running == st.running
  {
  }
}
