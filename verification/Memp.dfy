/**
 Fixed-size pools: a free list threaded through the unused elements of an array, and the sanity check that
 looks for a cycle in it with a slow and a fast pointer.
 */
module Memp {
  import opened Bytes

  const NULL := -1

  /** The links of the elements `own` stay among them or lead nowhere; the rest of the pool may hold anything. */
  ghost predicate Closed(next: seq<int>, own: set<int>) {
    forall i :: i in own ==> 0 <= i < |next| && (next[i] == NULL || next[i] in own)
  }

  function Next(next: seq<int>, e: int): int
    requires e == NULL || 0 <= e < |next|
  {
    if e == NULL then NULL else next[e]
  }

  /** The element `k` links behind `e`; nowhere is its own successor. */
  ghost function Walk(next: seq<int>, own: set<int>, e: int, k: nat): (r: int)
    requires Closed(next, own) && (e == NULL || e in own)
    ensures r == NULL || r in own
  {
    if k == 0 then e else Next(next, Walk(next, own, e, k - 1))
  }

  /** The list ends. */
  ghost predicate Ends(next: seq<int>, own: set<int>, e: int)
    requires Closed(next, own) && (e == NULL || e in own)
  {
    exists k: nat :: Walk(next, own, e, k) == NULL
  }

  lemma {:induction false} StaysNull(next: seq<int>, own: set<int>, e: int, j: nat, k: nat)
    requires Closed(next, own) && (e == NULL || e in own) && j <= k && Walk(next, own, e, j) == NULL
    ensures Walk(next, own, e, k) == NULL
    decreases k
  {
    if j < k { StaysNull(next, own, e, j, k - 1); }
  }

  /** From equal elements the walk goes on equally. */
  lemma {:induction false} WalkOn(next: seq<int>, own: set<int>, e: int, i: nat, j: nat, k: nat)
    requires Closed(next, own) && (e == NULL || e in own) && Walk(next, own, e, i) == Walk(next, own, e, j)
    ensures Walk(next, own, e, i + k) == Walk(next, own, e, j + k)
  {
    if k > 0 { WalkOn(next, own, e, i, j, k - 1); }
  }

  lemma {:induction false} Period(next: seq<int>, own: set<int>, e: int, i: nat, d: nat, m: nat)
    requires Closed(next, own) && (e == NULL || e in own) && Walk(next, own, e, i) == Walk(next, own, e, i + d)
    ensures Walk(next, own, e, i) == Walk(next, own, e, i + m * d)
  {
    if m > 0 {
      Period(next, own, e, i, d, m - 1);
      WalkOn(next, own, e, i, i + (m - 1) * d, d);
      assert i + (m - 1) * d + d == i + m * d;
    }
  }

  /** A walk that meets itself never ends. */
  lemma MetMeansNoEnd(next: seq<int>, own: set<int>, e: int, i: nat, d: nat)
    requires Closed(next, own) && (e == NULL || e in own) && d > 0
    requires Walk(next, own, e, i) == Walk(next, own, e, i + d) != NULL
    ensures !Ends(next, own, e)
  {
    forall k: nat ensures Walk(next, own, e, k) != NULL {
      Period(next, own, e, i, d, k);
      assert i + k * d >= k;
      if Walk(next, own, e, k) == NULL { StaysNull(next, own, e, k, i + k * d); }
    }
  }

  // ----- More steps than elements repeat an element

  ghost function Below(n: nat): (r: set<int>)
    ensures forall x :: x in r <==> 0 <= x < n
  {
    if n == 0 then {} else Below(n - 1) + {n - 1}
  }

  lemma {:induction false} BelowSize(n: nat)
    ensures |Below(n)| == n
  {
    if n > 0 { BelowSize(n - 1); }
  }

  ghost function Elements(s: seq<int>): set<int> { set i | 0 <= i < |s| :: s[i] }

  lemma {:induction false} DistinctSize(s: seq<int>)
    requires forall i, j :: 0 <= i < j < |s| ==> s[i] != s[j]
    ensures |Elements(s)| == |s|
  {
    if s != [] {
      var k := |s| - 1;
      var t := s[..k];
      DistinctSize(t);
      assert Elements(s) == Elements(t) + {s[k]} by {
        forall x | x in Elements(s) ensures x in Elements(t) + {s[k]} {
          var i :| 0 <= i < |s| && s[i] == x;
          if i < k { assert t[i] == x; }
        }
        forall x | x in Elements(t) ensures x in Elements(s) {
          var i :| 0 <= i < |t| && t[i] == x;
          assert s[i] == x;
        }
      }
      assert s[k] !in Elements(t);
    }
  }

  lemma Repeats(s: seq<int>, n: nat) returns (a: nat, b: nat)
    requires |s| > n && forall i :: 0 <= i < |s| ==> 0 <= s[i] < n
    ensures a < b < |s| && s[a] == s[b]
  {
    if forall i, j :: 0 <= i < j < |s| ==> s[i] != s[j] {
      DistinctSize(s);
      BelowSize(n);
      SubsetSize(Elements(s), Below(n));
      assert false;
    }
    a, b :| 0 <= a < b < |s| && s[a] == s[b];
  }

  ghost function Steps(next: seq<int>, own: set<int>, e: int, n: nat): (s: seq<int>)
    requires Closed(next, own) && (e == NULL || e in own)
    ensures |s| == n && forall i :: 0 <= i < n ==> s[i] == Walk(next, own, e, i)
  {
    seq(n, i requires 0 <= i < n => Walk(next, own, e, i))
  }

  /** In a cycle of length d entered by step a, the slow pointer meets the fast one within one round. */
  lemma Meet(a: nat, d: nat) returns (i: nat, m: nat)
    requires d > 0
    ensures a <= i < a + d && i + 1 == m * d
  {
    m := a / d + 1;
    i := m * d - 1;
    assert a == a / d * d + a % d;
  }

  /** On a walk that has not ended after as many steps as there are elements, the pointers meet. */
  lemma Meets(next: seq<int>, own: set<int>, e: int) returns (k: nat)
    requires Closed(next, own) && e in own && forall k :: 0 <= k <= |next| ==> Walk(next, own, e, k) != NULL
    ensures k < |next| && Walk(next, own, e, k) == Walk(next, own, e, 2 * k + 1)
  {
    var a, b := Repeats(Steps(next, own, e, |next| + 1), |next|);
    var m;
    k, m := Meet(a, b - a);
    WalkOn(next, own, e, a, b, k - a);
    Period(next, own, e, k, b - a, m);
  }

  /** The fast pointer runs off the list or is met before the slow one has taken as many steps as there are elements. */
  lemma Bounded(next: seq<int>, own: set<int>, e: int, i: nat)
    requires Closed(next, own) && e in own
    requires forall k :: 0 <= k < i ==> Walk(next, own, e, k) != Walk(next, own, e, 2 * k + 1)
    requires Walk(next, own, e, 2 * i + 1) != NULL
    ensures i < |next|
  {
    if i >= |next| {
      forall k | 0 <= k <= |next| ensures Walk(next, own, e, k) != NULL {
        if Walk(next, own, e, k) == NULL { StaysNull(next, own, e, k, 2 * i + 1); }
      }
      var k := Meets(next, own, e);
    }
  }

  /** memp_sanity: 1 exactly when the free list ends. */
  method Sanity(next: array<int>, tab: int, ghost own: set<int>) returns (r: int)
    requires Closed(next[..], own) && (tab == NULL || tab in own)
    ensures r == (if Ends(next[..], own, tab) then 1 else 0)
  {
    var t := tab;
    if t == NULL {
      assert Walk(next[..], own, tab, 0) == NULL;
      return 1;
    }
    var h := next[t];
    ghost var i := 0;
    assert Walk(next[..], own, tab, 1) == Next(next[..], Walk(next[..], own, tab, 0));
    while t != NULL && h != NULL
      invariant 0 <= i && (t == NULL || t in own) && (h == NULL || h in own)
      invariant t == Walk(next[..], own, tab, i) && h == Walk(next[..], own, tab, 2 * i + 1)
      invariant forall k :: 0 <= k < i ==> Walk(next[..], own, tab, k) != Walk(next[..], own, tab, 2 * k + 1)
      decreases next.Length - i
    {
      if t == h {
        MetMeansNoEnd(next[..], own, tab, i, i + 1);
        return 0;
      }
      Bounded(next[..], own, tab, i);
      assert Walk(next[..], own, tab, 2 * i + 3) == Next(next[..], Walk(next[..], own, tab, 2 * i + 2));
      assert Walk(next[..], own, tab, 2 * i + 2) == Next(next[..], Walk(next[..], own, tab, 2 * i + 1));
      t := next[t];
      h := if next[h] != NULL then next[next[h]] else NULL;
      i := i + 1;
    }
    r := 1;
  }

  // ----- The pool

  ghost predicate Distinct(s: seq<int>) {
    forall i, j :: 0 <= i < j < |s| ==> s[i] != s[j]
  }

  /** `free` is the list that starts at `tab`. */
  ghost predicate Threaded(next: seq<int>, tab: int, free: seq<int>) {
    && Distinct(free)
    && (forall i :: 0 <= i < |free| ==> 0 <= free[i] < |next|)
    && tab == (if free == [] then NULL else free[0])
    && (forall i, j :: 0 <= i && j == i + 1 < |free| ==> next[free[i]] == free[j])
    && (free != [] ==> next[free[|free| - 1]] == NULL)
  }

  lemma ThreadedClosed(next: seq<int>, tab: int, free: seq<int>)
    requires Threaded(next, tab, free)
    ensures Closed(next, Elements(free)) && (tab == NULL || tab in Elements(free))
  {
    forall e | e in Elements(free) ensures 0 <= e < |next| && (next[e] == NULL || next[e] in Elements(free)) {
      var i :| 0 <= i < |free| && free[i] == e;
      if i + 1 < |free| {
        var j := i + 1;
        assert next[free[i]] == free[j] && free[j] in Elements(free);
      }
    }
  }

  lemma {:induction false} ThreadedWalk(next: seq<int>, tab: int, free: seq<int>, k: nat)
    requires Threaded(next, tab, free) && k < |free| && Closed(next, Elements(free)) && tab in Elements(free)
    ensures Walk(next, Elements(free), tab, k) == free[k]
  {
    if k > 0 {
      ThreadedWalk(next, tab, free, k - 1);
      var i := k - 1;
      assert next[free[i]] == free[k];
    }
  }

  /** A properly threaded free list passes the sanity check. */
  lemma ThreadedEnds(next: seq<int>, tab: int, free: seq<int>)
    requires Threaded(next, tab, free)
    ensures Closed(next, Elements(free)) && (tab == NULL || tab in Elements(free)) && Ends(next, Elements(free), tab)
  {
    ThreadedClosed(next, tab, free);
    if free == [] {
      assert Walk(next, Elements(free), tab, 0) == NULL;
    } else {
      ThreadedWalk(next, tab, free, |free| - 1);
      assert Walk(next, Elements(free), tab, |free|) == NULL;
    }
  }

  /** One memory pool: element i is free or handed out, and only free elements carry a link. */
  class Pool {
    const next: array<int>
    var tab: int
    var used: int
    ghost var free: seq<int>
    ghost var live: set<int>

    /** Free and live elements partition the pool, and `used` counts the live ones. */
    ghost predicate Valid()
      reads this, next
    {
      && Threaded(next[..], tab, free)
      && (forall e :: 0 <= e < next.Length <==> e in Elements(free) || e in live)
      && (forall e :: e in live ==> e !in Elements(free))
      && used == |live|
    }

    /** memp_init_pool */
    constructor (num: nat)
      ensures Valid() && fresh(next) && next.Length == num && live == {} && |free| == num
    {
      next := new int[num];
      tab, used, free, live := NULL, 0, [], {};
      new;
      var i := 0;
      while i < num
        invariant 0 <= i <= num && Threaded(next[..], tab, free) && |free| == i && live == {} && used == 0
        invariant forall k :: 0 <= k < i ==> free[k] == i - 1 - k
      {
        ghost var was := next[..];
        next[i] := tab;
        PushThreads(was, tab, free, i);
        tab := i;
        free := [i] + free;
        i := i + 1;
      }
      forall e | 0 <= e < num ensures e in Elements(free) { assert free[num - 1 - e] == e; }
    }

    /** do_memp_malloc_pool */
    method Malloc() returns (e: int)
      requires Valid()
      modifies this
      ensures Valid() && next[..] == old(next[..])
      ensures e == NULL <==> old(free) == []
      ensures e == NULL ==> free == old(free) && live == old(live)
      ensures e != NULL ==> old(free) == [e] + free && live == old(live) + {e} && e !in old(live)
    {
      e := tab;
      if e != NULL {
        PopThreads(next[..], tab, free);
        ConsElements(free);
        tab := next[e];
        used := used + 1;
        live := live + {e};
        free := free[1..];
      }
    }

    /** The owner of a live element writes to it, over the place of the link. */
    method Write(e: int, v: int)
      requires Valid() && e in live
      modifies next
      ensures Valid() && next[..] == old(next[..])[e := v]
    {
      next[e] := v;
      forall i | 0 <= i < |free| ensures free[i] != e { assert free[i] in Elements(free); }
    }

    /** do_memp_free_pool; the sanity assertion at its end always holds. */
    method Free(e: int)
      requires Valid() && e in live
      modifies this, next
      ensures Valid() && free == [e] + old(free) && live == old(live) - {e}
      ensures forall i :: 0 <= i < next.Length && i != e ==> next[i] == old(next[i])
    {
      used := used - 1;
      forall i | 0 <= i < |free| ensures free[i] != e { assert free[i] in Elements(free); }
      PushThreads(next[..], tab, free, e);
      next[e] := tab;
      tab := e;
      free := [e] + free;
      ConsElements(free);
      live := live - {e};
      ThreadedEnds(next[..], tab, free);
      var sane := Sanity(next, tab, Elements(free));
      assert sane == 1;
    }
  }

  lemma ConsElements(s: seq<int>)
    requires s != []
    ensures Elements(s) == {s[0]} + Elements(s[1..])
  {
    forall x | x in Elements(s) ensures x in {s[0]} + Elements(s[1..]) {
      var i :| 0 <= i < |s| && s[i] == x;
      if i > 0 { assert s[1..][i - 1] == x; }
    }
    forall x | x in Elements(s[1..]) ensures x in Elements(s) {
      var i :| 0 <= i < |s[1..]| && s[1..][i] == x;
      assert s[i + 1] == x;
    }
  }

  lemma PushThreads(next: seq<int>, tab: int, free: seq<int>, e: int)
    requires Threaded(next, tab, free) && 0 <= e < |next| && forall i :: 0 <= i < |free| ==> free[i] != e
    ensures Threaded(next[e := tab], e, [e] + free)
  {
    var (next', free') := (next[e := tab], [e] + free);
    forall i, j | 0 <= i && j == i + 1 < |free'| ensures next'[free'[i]] == free'[j] {
      if i > 0 {
        var (a, b) := (i - 1, j - 1);
        assert next[free[a]] == free[b];
      }
    }
  }

  lemma PopThreads(next: seq<int>, tab: int, free: seq<int>)
    requires Threaded(next, tab, free) && tab != NULL
    ensures free != [] && free[0] == tab && Threaded(next, next[tab], free[1..])
    ensures free == [tab] + free[1..] && tab !in Elements(free[1..])
  {
    var rest := free[1..];
    if rest != [] {
      var (i, j) := (0, 1);
      assert next[free[i]] == free[j];
    }
    forall i, j | 0 <= i && j == i + 1 < |rest| ensures next[rest[i]] == rest[j] {
      var (a, b) := (i + 1, j + 1);
      assert next[free[a]] == free[b];
    }
    forall i | 0 <= i < |rest| ensures rest[i] != tab { assert free[0] != free[i + 1]; }
  }
}
