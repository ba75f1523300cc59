/**
 The resolver table of dns.c: queries that are asked, repeated, moved to the next server and given up, one step a
 tick, and the transaction identifiers that tell the answers apart. Callbacks do not call back into the resolver.
 */
module DnsTable {
  import opened Bytes
  import opened MachineWords

  const MAX_RETRIES := 4
  const MAX_TTL := 604800

  datatype State = Unused | New | Asking | Done

  /** An entry of dns_table with its request; `found` tells that a callback waits for the result. */
  datatype Entry = Entry(state: State, txid: int, server: int, tmr: int, retries: int, ttl: nat, seqno: int, found: bool)

  /** Which of the DNS_MAX_SERVERS places for a server are set; there is at least one place. */
  type Servers = v: seq<bool> | v != [] witness [false]

  /** An entry of a resolver with `n` places for servers. */
  ghost predicate EntryOk(e: Entry, n: nat) {
    && (e.state == Asking ==>
          0 <= e.retries < MAX_RETRIES && 1 <= e.tmr <= (if e.retries == 0 then 1 else e.retries) && 0 <= e.server < n)
    && (e.found ==> e.state == New || e.state == Asking)
  }

  // ----- One tick of one query

  /** dns_send gives up at once when the server is not set any more. */
  function Sent(e: Entry, v: Servers): Entry
    requires 0 <= e.server < |v|
  {
    if v[e.server] then e else e.(state := Unused, found := false)
  }

  /** dns_check_entry on a query that has been asked. */
  function Aged(e: Entry, v: Servers): Entry
    requires EntryOk(e, |v|) && e.state == Asking
  {
    if e.tmr > 1 then e.(tmr := e.tmr - 1)
    else if e.retries + 1 < MAX_RETRIES then Sent(e.(tmr := e.retries + 1, retries := e.retries + 1), v)
    else if e.server + 1 < |v| && v[e.server + 1] then Sent(e.(server := e.server + 1, tmr := 1, retries := 0), v)
    else e.(state := Unused, found := false, tmr := 0, retries := MAX_RETRIES)
  }

  /** dns_check_entry on any entry that is not new. */
  function Ticked(e: Entry, v: Servers): Entry
    requires EntryOk(e, |v|)
  {
    match e.state
    case Asking => Aged(e, v)
    case Done => if e.ttl <= 1 then e.(state := Unused, ttl := 0) else e.(ttl := e.ttl - 1)
    case _ => e
  }

  /** The tick calls the waiting callback with a failure. */
  predicate GivesUp(e: Entry, v: Servers)
    requires EntryOk(e, |v|)
  {
    e.found && Ticked(e, v).state == Unused
  }

  lemma TickedOk(e: Entry, v: Servers)
    requires EntryOk(e, |v|)
    ensures EntryOk(Ticked(e, v), |v|) && (Ticked(e, v).state == Asking ==> e.state == Asking && Ticked(e, v).txid == e.txid)
    ensures Ticked(e, v).found ==> e.found
    ensures e.found && !GivesUp(e, v) ==> Ticked(e, v).found
  {
  }

  // ----- How long a query lasts

  /** Ticks that a query with so many retries still spends on its server once its timer runs out. */
  function Rest(retries: int): nat {
    if retries <= 0 then 6 else if retries == 1 then 5 else if retries == 2 then 3 else 0
  }

  /** Ticks left if `n` servers are to be asked in all. */
  function Left(e: Entry, n: int): int { e.tmr + Rest(e.retries) + 7 * (n - 1 - e.server) }

  /** How many of the servers are asked before giving up. */
  function Reachable(v: seq<bool>): (n: nat)
    ensures n <= |v| && (forall i :: 0 <= i < n ==> v[i]) && (n < |v| ==> !v[n])
  {
    if v == [] || !v[0] then 0 else 1 + Reachable(v[1..])
  }

  /** Every tick takes one of the ticks left, until the query is given up. */
  lemma AgedCounts(e: Entry, v: Servers)
    requires EntryOk(e, |v|) && e.state == Asking
    ensures Aged(e, v).state == Asking ==> Left(Aged(e, v), |v|) == Left(e, |v|) - 1
    ensures Left(e, |v|) == 1 ==> Aged(e, v).state == Unused
    ensures Left(e, |v|) >= 1
  {
  }

  /** With a fixed set of servers the ticks left are exact. */
  lemma AgedCountsExactly(e: Entry, v: Servers)
    requires EntryOk(e, |v|) && e.state == Asking && e.server < Reachable(v)
    ensures var (f, n) := (Aged(e, v), Reachable(v));
            && Left(e, n) >= 1
            && (f.state == Asking <==> Left(e, n) > 1)
            && (f.state == Asking ==> f.server < n && Left(f, n) == Left(e, n) - 1)
            && (f.state != Asking ==> f.state == Unused)
  {
  }

  /** All the sets of servers have `n` places. */
  ghost predicate Places(vs: seq<Servers>, n: nat) {
    forall i :: 0 <= i < |vs| ==> |vs[i]| == n
  }

  /** The failures reported for an entry over a run of ticks. */
  ghost function Reports(e: Entry, vs: seq<Servers>, n: nat): nat
    requires EntryOk(e, n) && Places(vs, n)
    decreases |vs|
  {
    if vs == [] then 0
    else (if GivesUp(e, vs[0]) then 1 else 0) + (TickedOk(e, vs[0]); Reports(Ticked(e, vs[0]), vs[1..], n))
  }

  /** Nothing is reported when no callback waits. */
  lemma {:induction false} QuietWithoutCallback(e: Entry, vs: seq<Servers>, n: nat)
    requires EntryOk(e, n) && Places(vs, n) && !e.found
    ensures Reports(e, vs, n) == 0
    decreases |vs|
  {
    if vs != [] {
      TickedOk(e, vs[0]);
      QuietWithoutCallback(Ticked(e, vs[0]), vs[1..], n);
    }
  }

  /** An unanswered query reports failure at most once, and does so within the ticks left, whatever servers come and go. */
  lemma {:induction false} ReportedOnce(e: Entry, vs: seq<Servers>, n: nat)
    requires EntryOk(e, n) && Places(vs, n) && e.state == Asking && e.found
    ensures 1 <= Left(e, n) <= 7 * n && Reports(e, vs, n) <= 1 && (|vs| >= Left(e, n) ==> Reports(e, vs, n) == 1)
    decreases |vs|
  {
    if vs != [] {
      var f := Ticked(e, vs[0]);
      TickedOk(e, vs[0]);
      AgedCounts(e, vs[0]);
      if f.state == Asking { ReportedOnce(f, vs[1..], n); } else { QuietWithoutCallback(f, vs[1..], n); }
    }
  }

  ghost predicate Constant(vs: seq<Servers>, v: Servers) {
    forall i :: 0 <= i < |vs| ==> vs[i] == v
  }

  lemma {:induction false} ReportedExactly(e: Entry, vs: seq<Servers>, v: Servers)
    requires EntryOk(e, |v|) && e.state == Asking && e.found && Constant(vs, v) && e.server < Reachable(v)
    ensures Places(vs, |v|) && Reports(e, vs, |v|) == if |vs| >= Left(e, Reachable(v)) then 1 else 0
    decreases |vs|
  {
    AgedCountsExactly(e, v);
    if vs != [] {
      var f := Ticked(e, v);
      TickedOk(e, v);
      if f.state == Asking { ReportedExactly(f, vs[1..], v); } else { QuietWithoutCallback(f, vs[1..], |v|); }
    }
  }

  /** The entry as dns_check_entry leaves it right after the query was enqueued. */
  predicate JustAsked(e: Entry) {
    e.state == Asking && e.server == 0 && e.tmr == 1 && e.retries == 0 && e.found
  }

  /** A new unanswered query reports failure exactly once, seven ticks for every server that is asked. */
  lemma SevenTicksPerServer(e: Entry, vs: seq<Servers>, v: Servers)
    requires JustAsked(e) && Constant(vs, v) && v[0]
    ensures EntryOk(e, |v|) && Places(vs, |v|) && Reports(e, vs, |v|) == if |vs| >= 7 * Reachable(v) then 1 else 0
  {
    ReportedExactly(e, vs, v);
  }

  /** A query that is due to be sent to a server that is no longer set is given up at once. */
  lemma UnsetServerGivesUp(e: Entry, v: Servers)
    requires EntryOk(e, |v|) && e.state == Asking && e.found && e.tmr == 1 && !v[e.server] && e.retries + 1 < MAX_RETRIES
    ensures GivesUp(e, v)
  {
  }

  // ----- How long an answer is kept

  ghost function TickedBy(e: Entry, vs: seq<Servers>, n: nat): Entry
    requires EntryOk(e, n) && Places(vs, n)
    decreases |vs|
  {
    if vs == [] then e
    else
      TickedOk(e, vs[0]);
      TickedBy(Ticked(e, vs[0]), vs[1..], n)
  }

  lemma {:induction false} UnusedStays(e: Entry, vs: seq<Servers>, n: nat)
    requires EntryOk(e, n) && Places(vs, n) && e.state == Unused
    ensures TickedBy(e, vs, n).state == Unused
    decreases |vs|
  {
    if vs != [] { UnusedStays(e, vs[1..], n); }
  }

  /** An answer is kept for as many ticks, one a second, as its time to live says, but for one tick at least. */
  lemma {:induction false} AnswerLasts(e: Entry, vs: seq<Servers>, n: nat)
    requires EntryOk(e, n) && Places(vs, n) && e.state == Done
    ensures TickedBy(e, vs, n).state == if |vs| < e.ttl || vs == [] then Done else Unused
    decreases |vs|
  {
    if vs != [] {
      TickedOk(e, vs[0]);
      var f := Ticked(e, vs[0]);
      if f.state == Done { AnswerLasts(f, vs[1..], n); } else { UnusedStays(f, vs[1..], n); }
    }
  }

  // ----- Transaction identifiers

  ghost function UsedIds(t: seq<Entry>): set<int> {
    if t == [] then {} else (if t[0].state == Asking then {t[0].txid} else {}) + UsedIds(t[1..])
  }

  function CountAsking(t: seq<Entry>): nat {
    if t == [] then 0 else (if t[0].state == Asking then 1 else 0) + CountAsking(t[1..])
  }

  lemma {:induction false} UsedIdsSize(t: seq<Entry>)
    ensures |UsedIds(t)| <= CountAsking(t) <= |t|
  {
    if t != [] { UsedIdsSize(t[1..]); }
  }

  lemma {:induction false} UsedIdsAre(t: seq<Entry>, id: int)
    ensures id in UsedIds(t) <==> exists i :: 0 <= i < |t| && t[i].state == Asking && t[i].txid == id
  {
    if t != [] {
      UsedIdsAre(t[1..], id);
      if i :| 0 <= i < |t| && t[i].state == Asking && t[i].txid == id {
        assert i > 0 ==> t[1..][i - 1] == t[i];
      }
      if i :| 0 <= i < |t[1..]| && t[1..][i].state == Asking && t[1..][i].txid == id {
        assert t[i + 1] == t[1..][i];
      }
    }
  }

  /** The identifiers that the counter yields in its first `k` steps from `t`. */
  ghost function Tried(t: int, k: nat): set<int> {
    if k == 0 then {} else Tried(t, k - 1) + {(t + k) % TWO16}
  }

  lemma {:induction false} TriedIs(t: int, k: nat, x: int)
    ensures x in Tried(t, k) <==> exists j :: 1 <= j <= k && x == Id(t, j)
  {
    if k > 0 { TriedIs(t, k - 1, x); }
    assert k > 0 ==> Id(t, k) == (t + k) % TWO16;
  }

  function Id(t: int, j: int): int { (t + j) % TWO16 }

  lemma {:induction false} TriedSize(t: int, k: nat)
    requires k <= TWO16
    ensures |Tried(t, k)| == k
  {
    if k > 0 {
      TriedSize(t, k - 1);
      TriedIs(t, k - 1, (t + k) % TWO16);
      forall j | 1 <= j <= k - 1 ensures Id(t, j) != (t + k) % TWO16 { DistinctIds(t, j, k); }
    }
  }

  lemma DistinctIds(t: int, j: int, k: int)
    requires 0 < k - j < TWO16
    ensures (t + j) % TWO16 != (t + k) % TWO16
  {
  }

  lemma NothingTried(t: int)
    ensures Tried(t, 0) == {}
  {
  }

  lemma NextId(t: int, k: nat)
    ensures ((if k == 0 then t else Id(t, k)) + 1) % TWO16 == Id(t, k + 1)
  {
  }

  /** Identifiers tried in vain are all in use, so there are no more of them than queries. */
  lemma TryMore(t: int, k: nat, used: set<int>)
    requires 0 < k <= |used| + 1 <= TWO16 && Tried(t, k - 1) <= used && Id(t, k) in used
    ensures Tried(t, k) <= used && k <= |used|
  {
    TriedSize(t, k - 1);
    SubsetSize(Tried(t, k - 1), used);
    TriedSize(t, k);
    SubsetSize(Tried(t, k), used);
  }

  // ----- The resolver

  ghost predicate Unique(t: seq<Entry>) {
    forall i, j :: 0 <= i < j < |t| && t[i].state == Asking && t[j].state == Asking ==> t[i].txid != t[j].txid
  }

  ghost predicate TableOk(t: seq<Entry>, n: nat) {
    0 < |t| < 256 && 0 < n && Unique(t) && forall i :: 0 <= i < |t| ==> EntryOk(t[i], n)
  }

  /** The callbacks that a pass over the entries below `k` makes, in order. */
  ghost function Failures(t: seq<Entry>, v: Servers, k: nat): seq<(int, bool)>
    requires k <= |t| && forall i :: 0 <= i < |t| ==> EntryOk(t[i], |v|)
  {
    if k == 0 then [] else Failures(t, v, k - 1) + if GivesUp(t[k - 1], v) then [(k - 1, false)] else []
  }

  class Resolver {
    var table: seq<Entry>
    var txid: int
    var seqno: int
    /** DNS_MAX_SERVERS */
    const places: nat
    /** The callbacks made so far: which request, and whether an address was found. */
    ghost var log: seq<(int, bool)>

    ghost predicate Valid()
      reads this
    {
      TableOk(table, places)
    }

    constructor (size: nat, maxServers: nat)
      requires 0 < size < 256 && 0 < maxServers
      ensures Valid() && |table| == size && places == maxServers && log == []
    {
      places := maxServers;
      table := seq(size, i => Entry(Unused, 0, 0, 0, 0, 0, 0, false));
      txid, seqno, log := 0, 0, [];
    }

    /** The loop in dns_create_txid. */
    method InUse(id: int) returns (b: bool)
      ensures b <==> id in UsedIds(table)
    {
      var i := 0;
      UsedIdsAre(table, id);
      while i < |table|
        invariant 0 <= i <= |table| && forall j :: 0 <= j < i ==> !(table[j].state == Asking && table[j].txid == id)
      {
        if table[i].state == Asking && table[i].txid == id { return true; }
        i := i + 1;
      }
      b := false;
    }

    /** dns_create_txid with the counter: an unused identifier after at most one try more than there are queries. */
    method CreateTxid() returns (id: int, tries: nat)
      requires Valid()
      modifies this`txid
      ensures id == txid && id !in UsedIds(table) && 1 <= tries <= CountAsking(table) + 1
      ensures id == Id(old(txid), tries) && Tried(old(txid), tries - 1) <= UsedIds(table)
    {
      UsedIdsSize(table);
      tries := 0;
      ghost var start := txid;
      hide Tried, UsedIds, CountAsking, Id;
      assert Tried(start, 0) <= UsedIds(table) by { NothingTried(start); }
      while true
        invariant tries <= |UsedIds(table)| && Tried(start, tries) <= UsedIds(table)
        invariant txid == if tries == 0 then start else Id(start, tries)
        decreases |UsedIds(table)| - tries
      {
        NextId(start, tries);
        txid := (txid + 1) % TWO16;
        tries := tries + 1;
        id := txid;
        var used := InUse(id);
        if !used { return; }
        TryMore(start, tries, UsedIds(table));
      }
    }

    /** dns_call_found */
    method CallFound(i: nat, ok: bool)
      requires i < |table|
      modifies this`table, this`log
      ensures table == old(table)[i := old(table)[i].(found := false)]
      ensures log == old(log) + if old(table)[i].found then [(i as int, ok)] else []
    {
      if table[i].found { log := log + [(i as int, ok)]; }
      table := table[i := table[i].(found := false)];
    }

    /** dns_send up to the packet itself. */
    method Send(i: nat, v: Servers)
      requires i < |table| && 0 <= table[i].server < |v|
      modifies this`table, this`log
      ensures table == old(table)[i := Sent(old(table)[i], v)]
      ensures log == old(log) + if old(table)[i].found && !v[old(table)[i].server] then [(i as int, false)] else []
    {
      if !v[table[i].server] {
        CallFound(i, false);
        table := table[i := table[i].(state := Unused)];
      }
    }

    /** dns_check_entry for a new query. */
    method CheckNew(i: nat, v: Servers)
      requires Valid() && |v| == places && i < |table| && table[i].state == New
      modifies this
      ensures Valid() && seqno == old(seqno) && txid !in UsedIds(old(table))
      ensures table == old(table)[i := Sent(old(table)[i].(txid := txid, state := Asking, server := 0, tmr := 1, retries := 0), v)]
      ensures log == old(log) + if old(table)[i].found && !v[0] then [(i as int, false)] else []
    {
      ghost var was := table;
      var id, tries := CreateTxid();
      var e := table[i].(txid := id, state := Asking, server := 0, tmr := 1, retries := 0);
      table := table[i := e];
      UsedIdsAre(was, id);
      Send(i, v);
    }

    /** dns_check_entry for any other entry. */
    method CheckOld(i: nat, v: Servers)
      requires Valid() && |v| == places && i < |table| && table[i].state != New
      modifies this`table, this`log
      ensures Valid() && table == old(table)[i := Ticked(old(table)[i], v)]
      ensures log == old(log) + if GivesUp(old(table)[i], v) then [(i as int, false)] else []
    {
      var e := table[i];
      TickedOk(e, v);
      match e.state
      case Asking =>
        var tmr := e.tmr - 1;
        e := e.(tmr := tmr);
        if tmr != 0 {
          table := table[i := e];
        } else {
          var retries := e.retries + 1;
          e := e.(retries := retries);
          if retries == MAX_RETRIES {
            if e.server + 1 < |v| && v[e.server + 1] {
              table := table[i := e.(server := e.server + 1, tmr := 1, retries := 0)];
              Send(i, v);
            } else {
              table := table[i := e];
              CallFound(i, false);
              table := table[i := table[i].(state := Unused)];
            }
          } else {
            table := table[i := e.(tmr := retries)];
            Send(i, v);
          }
        }
      case Done =>
        if e.ttl == 0 {
          table := table[i := e.(state := Unused)];
        } else {
          var ttl := e.ttl - 1;
          e := e.(ttl := ttl);
          table := table[i := if ttl == 0 then e.(state := Unused) else e];
        }
      case Unused =>
      case New =>
    }
  
    /** dns_check_entries: one tick of the whole table; new entries do not outlive the call that made them. */
    method CheckEntries(v: Servers)
      requires Valid() && |v| == places && forall i :: 0 <= i < |table| ==> table[i].state != New
      modifies this`table, this`log
      ensures Valid() && |table| == |old(table)|
      ensures forall i :: 0 <= i < |table| ==> table[i] == Ticked(old(table)[i], v)
      ensures log == old(log) + Failures(old(table), v, |old(table)|)
    {
      hide Ticked, EntryOk, Unique;
      var i := 0;
      ghost var was := table;
      while i < |table|
        invariant 0 <= i <= |table| == |was| && Valid()
        invariant forall j :: 0 <= j < |was| ==> table[j] == if j < i then Ticked(was[j], v) else was[j]
        invariant log == old(log) + Failures(was, v, i)
      {
        CheckOld(i, v);
        i := i + 1;
      }
    }

    /** dns_correct_response: the callback learns of the address once, and the entry is kept for its time to live. */
    method CorrectResponse(i: nat, ttl: nat)
      requires Valid() && i < |table| && table[i].state == Asking
      modifies this`table, this`log
      ensures Valid() && log == old(log) + if old(table)[i].found then [(i as int, true)] else []
      ensures var kept := if ttl > MAX_TTL then MAX_TTL else ttl;
              table == old(table)[i := old(table)[i].(found := false, ttl := kept, state := if kept == 0 then Unused else Done)]
    {
      var e := table[i].(state := Done, ttl := ttl);
      if e.ttl > MAX_TTL { e := e.(ttl := MAX_TTL); }
      table := table[i := e];
      CallFound(i, true);
      if table[i].ttl == 0 && table[i].state == Done {
        table := table[i := table[i].(state := Unused)];
      }
    }

    /** The search in dns_enqueue for an unused entry, or else the oldest finished one. */
    method FindSlot() returns (slot: int)
      ensures -1 <= slot < |table|
      ensures slot >= 0 ==> table[slot].state == Unused || table[slot].state == Done
      ensures slot == -1 <==>
              forall i :: 0 <= i < |table| ==> table[i].state != Unused && !(table[i].state == Done && table[i].seqno % 256 != seqno % 256)
      ensures slot >= 0 && table[slot].state == Done ==>
                forall i :: 0 <= i < |table| ==>
                  && table[i].state != Unused
                  && (table[i].state == Done ==> (seqno - table[i].seqno) % 256 <= (seqno - table[slot].seqno) % 256)
    {
      var lseq, lseqi, i := 0, -1, 0;
      while i < |table|
        invariant 0 <= i <= |table| && -1 <= lseqi < i && 0 <= lseq
        invariant forall j :: 0 <= j < i ==> table[j].state != Unused && (table[j].state == Done ==> Age(j) <= lseq)
        invariant lseqi >= 0 ==> table[lseqi].state == Done && Age(lseqi) == lseq > 0
        invariant lseqi == -1 ==> lseq == 0
      {
        if table[i].state == Unused { return i; }
        if table[i].state == Done && Age(i) > lseq { lseq, lseqi := Age(i), i; }
        i := i + 1;
      }
      slot := lseqi;
    }

    /** The 8-bit age of an entry. */
    function Age(i: int): (a: int)
      requires 0 <= i < |table|
      reads this
      ensures 0 <= a < 256
    {
      (seqno - table[i].seqno) % 256
    }

    /** dns_enqueue: no query in progress is displaced, and the new one is asked at once. */
    method Enqueue(v: Servers, found: bool) returns (slot: int)
      requires Valid() && |v| == places && forall i :: 0 <= i < |table| ==> table[i].state != New
      modifies this
      ensures Valid() && -1 <= slot < |old(table)| == |table|
      ensures slot == -1 ==> table == old(table) && log == old(log)
      ensures slot >= 0 ==> old(table)[slot].state == Unused || old(table)[slot].state == Done
      ensures slot >= 0 ==> forall i :: 0 <= i < |table| && i != slot ==> table[i] == old(table)[i]
      ensures slot >= 0 && v[0] ==> log == old(log) && table[slot].txid !in UsedIds(old(table))
      ensures slot >= 0 && v[0] && found ==> JustAsked(table[slot])
      ensures slot >= 0 && !v[0] ==> table[slot].state == Unused && log == old(log) + if found then [(slot, false)] else []
    {
      slot := FindSlot();
      if slot >= 0 {
        ghost var was := table;
        table := table[slot := table[slot].(state := New, seqno := seqno, found := found)];
        seqno := (seqno + 1) % 256;
        UsedIdsSame(was, table, slot);
        CheckNew(slot, v);
      }
    }
  }

  /** An entry that asks neither before nor after does not matter. */
  lemma UsedIdsSame(t: seq<Entry>, u: seq<Entry>, k: nat)
    requires k < |t| == |u| && u == t[k := u[k]] && t[k].state != Asking && u[k].state != Asking
    ensures UsedIds(u) == UsedIds(t)
  {
    forall id ensures id in UsedIds(u) <==> id in UsedIds(t) {
      UsedIdsAre(t, id);
      UsedIdsAre(u, id);
      assert forall i :: 0 <= i < |t| && i != k ==> t[i] == u[i];
    }
  }
}
