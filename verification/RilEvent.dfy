/** The RIL event loop's timer and pending queues: intrusive circular doubly linked lists (ril_event.cpp). */
module RilEvent {

  // ---------------------------------------------------------------- time

  datatype Timeval = Timeval(sec: int, usec: int)

  predicate Normal(t: Timeval)
  {
    0 <= t.usec < 1_000_000
  }

  /** Microseconds. */
  function Micros(t: Timeval): (r: int)
  {
    t.sec * 1_000_000 + t.usec
  }

  /** timercmp with > (ril_event.cpp:49-54). */
  predicate After(a: Timeval, b: Timeval)
  {
    if a.sec == b.sec then a.usec > b.usec else a.sec > b.sec
  }

  /** timeradd (ril_event.cpp:37-47). */
  function Later(a: Timeval, b: Timeval): (r: Timeval)
    requires Normal(a) && Normal(b)
    ensures Normal(r) && Micros(r) == Micros(a) + Micros(b)
  {
    if a.usec + b.usec >= 1_000_000 then Timeval(a.sec + b.sec + 1, a.usec + b.usec - 1_000_000)
    else Timeval(a.sec + b.sec, a.usec + b.usec)
  }

  /** timersub (ril_event.cpp:56-66). */
  function Difference(a: Timeval, b: Timeval): (r: Timeval)
    requires Normal(a) && Normal(b)
    ensures Normal(r) && Micros(r) == Micros(a) - Micros(b)
  {
    if a.usec - b.usec < 0 then Timeval(a.sec - b.sec - 1, a.usec - b.usec + 1_000_000)
    else Timeval(a.sec - b.sec, a.usec - b.usec)
  }

  lemma AfterIsLater(a: Timeval, b: Timeval)
    requires Normal(a) && Normal(b)
    ensures After(a, b) <==> Micros(a) > Micros(b)
  {
  }

  // ---------------------------------------------------------------- lists

  class Event {
    var next: Event?
    var prev: Event?
    var fd: int
    var index: int
    var persist: bool
    var timeout: Timeval

    /** init_list (ril_event.cpp:108-114), and ril_event_set for the fields a list needs. */
    constructor ()
      ensures next == this && prev == this && fd == -1 && timeout == Timeval(0, 0) && !persist && index == 0
    {
      next, prev, fd, index, persist, timeout := this, this, -1, 0, false, Timeval(0, 0);
    }
  }

  ghost function Elems(ns: seq<Event>): (s: set<Event>)
  {
    set e | e in ns
  }

  /** ns is a circular doubly linked list of distinct nodes; its first node is the list head. */
  ghost predicate Ring(ns: seq<Event>)
    reads Elems(ns)`next, Elems(ns)`prev
  {
    && |ns| > 0
    && (forall i, j :: 0 <= i < j < |ns| ==> ns[i] != ns[j])
    && (forall i :: 0 <= i < |ns| - 1 ==> ns[i].next == ns[i + 1])
    && (forall i :: 0 < i < |ns| ==> ns[i].prev == ns[i - 1])
    && ns[|ns| - 1].next == ns[0] && ns[0].prev == ns[|ns| - 1]
  }

  /** ns with ev inserted before index k, before the head meaning at the end. */
  ghost function Inserted(ns: seq<Event>, k: nat, ev: Event): (r: seq<Event>)
    requires k < |ns|
  {
    if k == 0 then ns + [ev] else ns[..k] + [ev] + ns[k..]
  }

  ghost function Removed(ns: seq<Event>, k: nat): (r: seq<Event>)
    requires k < |ns|
  {
    ns[..k] + ns[k + 1..]
  }

  lemma HeadApart(ns: seq<Event>)
    requires Ring(ns)
    ensures forall i :: 0 < i < |ns| ==> ns[i] != ns[0]
  {
  }

  /** The two lists share no node. */
  ghost predicate Apart(ns: seq<Event>, ms: seq<Event>)
  {
    forall i, j :: 0 <= i < |ns| && 0 <= j < |ms| ==> ns[i] != ms[j]
  }

  lemma ApartElems(ns: seq<Event>, ms: seq<Event>)
    ensures Apart(ns, ms) ==> Elems(ns) !! Elems(ms)
    ensures |ns| == 1 && Apart(ns, ms) ==> ns[0] !in ms && ns[0] !in Elems(ms)
  {
  }

  lemma ApartInserted(ns: seq<Event>, ms: seq<Event>, k: nat, ev: Event)
    requires Apart(ns, ms) && Apart([ev], ms) && k < |ns|
    ensures Apart(Inserted(ns, k, ev), ms)
  {
    var r := Inserted(ns, k, ev);
    forall i, j | 0 <= i < |r| && 0 <= j < |ms|
      ensures r[i] != ms[j]
    {
      assert [ev][0] != ms[j];
    }
  }

  lemma InsertedTimers(t: Event, ts: seq<Event>, k: nat, ev: Event)
    requires k <= |ts|
    ensures Inserted([t] + ts, if k == |ts| then 0 else k + 1, ev) == [t] + (ts[..k] + [ev] + ts[k..])
  {
    if k == |ts| {
      assert ts[..k] == ts && ts[k..] == [];
    } else {
      var ns := [t] + ts;
      assert ns[..k + 1] == [t] + ts[..k] && ns[k + 1..] == ts[k..];
    }
  }

  lemma RingNext(ns: seq<Event>, i: nat)
    requires Ring(ns) && i < |ns|
    ensures ns[i].next == if i + 1 == |ns| then ns[0] else ns[i + 1]
  {
  }

  /** addToList (ril_event.cpp:116-123): ev goes in front of the node list. */
  method AddToList(ev: Event, list: Event, ghost ns: seq<Event>, ghost k: nat, ghost others: seq<Event>)
    requires Ring(ns) && k < |ns| && ns[k] == list && ev !in ns
    requires Ring(others) && Elems(ns) !! Elems(others) && ev !in others
    modifies ev`next, ev`prev, Elems(ns)`next, Elems(ns)`prev
    ensures Ring(Inserted(ns, k, ev)) && Ring(others)
  {
    ghost var n := |ns|;
    ghost var before := if k == 0 then n - 1 else k - 1;
    assert list.prev == ns[before] && ns[before] in Elems(ns) && list in Elems(ns);
    ev.next := list;
    ev.prev := list.prev;
    ev.prev.next := ev;
    list.prev := ev;
    if k == 0 { RingGrows(ns, ev); } else { RingWidens(ns, k, ev); }
  }

  /** The list with ev linked in before its head. */
  lemma RingGrows(ns: seq<Event>, ev: Event)
    requires |ns| > 0 && ev !in ns && forall i, j :: 0 <= i < j < |ns| ==> ns[i] != ns[j]
    requires forall i :: 0 <= i < |ns| - 1 ==> ns[i].next == ns[i + 1]
    requires forall i :: 0 < i < |ns| ==> ns[i].prev == ns[i - 1]
    requires ns[|ns| - 1].next == ev && ns[0].prev == ev && ev.next == ns[0] && ev.prev == ns[|ns| - 1]
    ensures Ring(Inserted(ns, 0, ev))
  {
  }

  /** The list with ev linked in before its k-th node. */
  lemma RingWidens(ns: seq<Event>, k: nat, ev: Event)
    requires 0 < k < |ns| && ev !in ns && forall i, j :: 0 <= i < j < |ns| ==> ns[i] != ns[j]
    requires forall i :: 0 <= i < |ns| - 1 && i != k - 1 ==> ns[i].next == ns[i + 1]
    requires forall i :: 0 < i < |ns| && i != k ==> ns[i].prev == ns[i - 1]
    requires ns[|ns| - 1].next == ns[0] && ns[0].prev == ns[|ns| - 1]
    requires ns[k - 1].next == ev && ns[k].prev == ev && ev.next == ns[k] && ev.prev == ns[k - 1]
    ensures Ring(Inserted(ns, k, ev))
  {
    var r := Inserted(ns, k, ev);
    assert forall i :: 0 <= i < k ==> r[i] == ns[i];
    assert r[k] == ev;
    assert forall i :: k < i <= |ns| ==> r[i] == ns[i - 1];
  }

  /** removeFromList (ril_event.cpp:125-134). */
  method RemoveFromList(ev: Event, ghost ns: seq<Event>, ghost k: nat, ghost others: seq<Event>)
    requires Ring(ns) && 0 < k < |ns| && ns[k] == ev
    requires Ring(others) && Elems(ns) !! Elems(others)
    modifies Elems(ns)`next, Elems(ns)`prev
    ensures Ring(Removed(ns, k)) && ev !in Removed(ns, k) && Ring(others)
  {
    ghost var n := |ns|;
    ghost var after := if k == n - 1 then 0 else k + 1;
    assert ev.next == ns[after] && ns[after] in Elems(ns) && ev.prev == ns[k - 1] && ns[k - 1] in Elems(ns) &&
        ev in Elems(ns);
    ev.next.prev := ev.prev;
    ev.prev.next := ev.next;
    ev.next := null;
    ev.prev := null;
    RingShrinks(ns, k);
  }

  /** The list with its k-th node bypassed. */
  lemma RingShrinks(ns: seq<Event>, k: nat)
    requires 0 < k < |ns| && forall i, j :: 0 <= i < j < |ns| ==> ns[i] != ns[j]
    requires forall i :: 0 <= i < |ns| - 1 && i != k - 1 && i != k ==> ns[i].next == ns[i + 1]
    requires forall i :: 0 < i < |ns| && i != k && i != k + 1 ==> ns[i].prev == ns[i - 1]
    requires if k == |ns| - 1 then ns[k - 1].next == ns[0] && ns[0].prev == ns[k - 1]
             else
               && ns[|ns| - 1].next == ns[0] && ns[0].prev == ns[|ns| - 1]
               && ns[k - 1].next == ns[k + 1] && ns[k + 1].prev == ns[k - 1]
    ensures Ring(Removed(ns, k)) && ns[k] !in Removed(ns, k)
  {
    var r := Removed(ns, k);
    assert forall i :: 0 <= i < k ==> r[i] == ns[i];
    assert forall i :: k <= i < |ns| - 1 ==> r[i] == ns[i + 1];
  }

  // ---------------------------------------------------------------- the queues

  /** Deadlines never decrease along the list. */
  ghost predicate Sorted(es: seq<Event>)
    reads Elems(es)`timeout
  {
    && (forall i :: 0 <= i < |es| ==> Normal(es[i].timeout))
    && (forall i, j :: 0 <= i < j < |es| ==> Micros(es[i].timeout) <= Micros(es[j].timeout))
  }

  twostate lemma SortedKept(es: seq<Event>)
    requires old(Sorted(es)) && forall i :: 0 <= i < |es| ==> es[i].timeout == old(es[i].timeout)
    ensures Sorted(es)
  {
  }

  lemma SortedNormal(es: seq<Event>)
    requires Sorted(es)
    ensures forall i :: 0 <= i < |es| ==> Normal(es[i].timeout)
  {
  }

  lemma InsertSorted(es: seq<Event>, k: nat, ev: Event)
    requires Sorted(es) && Normal(ev.timeout) && k <= |es|
    requires forall i :: 0 <= i < k ==> Micros(es[i].timeout) < Micros(ev.timeout)
    requires k < |es| ==> Micros(es[k].timeout) >= Micros(ev.timeout)
    ensures Sorted(es[..k] + [ev] + es[k..])
  {
    var r := es[..k] + [ev] + es[k..];
    forall i | 0 <= i < |r|
      ensures r[i] == if i < k then es[i] else if i == k then ev else es[i - 1]
    {
    }
  }

  /** How many events at the front of a sorted list have deadlines before now. */
  ghost function Expired(es: seq<Event>, now: Timeval): (n: nat)
    reads Elems(es)`timeout
    ensures n <= |es|
    ensures forall i :: 0 <= i < n ==> Micros(es[i].timeout) < Micros(now)
    ensures n < |es| ==> Micros(es[n].timeout) >= Micros(now)
  {
    if es == [] || Micros(es[0].timeout) >= Micros(now) then 0 else 1 + Expired(es[1..], now)
  }

  datatype Wait = Forever | For(tv: Timeval)

  class Queues {
    const timerList: Event
    const pendingList: Event
    ghost var Timers: seq<Event>
    ghost var Pending: seq<Event>

    ghost function Nodes(): (s: set<Event>)
      reads this
    {
      Elems([timerList] + Timers) + Elems([pendingList] + Pending)
    }

    /** Both lists are well-formed, share no node, and the timers are in order of deadline. */
    ghost predicate Valid()
      reads this, timerList, pendingList, Timers, Pending
    {
      && Ring([timerList] + Timers) && Ring([pendingList] + Pending)
      && Apart([timerList] + Timers, [pendingList] + Pending)
      && Sorted(Timers)
    }

    /** ril_event_init (ril_event.cpp:242-250). */
    constructor ()
      ensures Valid() && fresh(timerList) && fresh(pendingList) && Timers == [] && Pending == []
    {
      var t := new Event();
      var p := new Event();
      timerList, pendingList, Timers, Pending := t, p, [], [];
    }

    /** The first event whose deadline is not before ev's (ril_event.cpp:302-306). */
    method FindPlace(ev: Event) returns (list: Event, ghost k: nat)
      requires Valid() && Normal(ev.timeout)
      ensures Valid() && k <= |Timers| && list == (if k == |Timers| then timerList else Timers[k])
      ensures forall i :: 0 <= i < k ==> Micros(Timers[i].timeout) < Micros(ev.timeout)
      ensures k < |Timers| ==> Micros(Timers[k].timeout) >= Micros(ev.timeout)
    {
      ghost var ns := [timerList] + Timers;
      hide Sorted;
      SortedNormal(Timers);
      k := 0;
      RingNext(ns, 0);
      HeadApart(ns);
      list := timerList.next;
      while After(ev.timeout, list.timeout) && list != timerList
        invariant Valid() && k <= |Timers| && list == (if k == |Timers| then timerList else Timers[k])
        invariant forall i :: 0 <= i < k ==> Micros(Timers[i].timeout) < Micros(ev.timeout)
        decreases |Timers| - k
      {
        RingNext(ns, k + 1);
        assert list == ns[k + 1];
        AfterIsLater(ev.timeout, list.timeout);
        list := list.next;
        k := k + 1;
      }
      if k < |Timers| {
        assert list == ns[k + 1];
        AfterIsLater(ev.timeout, list.timeout);
      }
    }

    /** Links ev into the timer list in front of its k-th event. */
    method Link(ev: Event, list: Event, ghost k: nat)
      requires Valid() && Apart([ev], [timerList] + Timers) && Apart([ev], [pendingList] + Pending)
      requires k <= |Timers| && list == (if k == |Timers| then timerList else Timers[k])
      requires Sorted(Timers[..k] + [ev] + Timers[k..])
      modifies this`Timers, ev`next, ev`prev, Elems([timerList] + Timers)`next, Elems([timerList] + Timers)`prev
      ensures Valid() && Timers == old(Timers)[..k] + [ev] + old(Timers)[k..]
    {
      hide Apart, Sorted;
      ghost var ns, ms := [timerList] + Timers, [pendingList] + Pending;
      ghost var at := if k == |Timers| then 0 else k + 1;
      assert ns[at] == list;
      ApartElems(ns, ms);
      ApartElems([ev], ms);
      ApartElems([ev], ns);
      ApartInserted(ns, ms, at, ev);
      InsertedTimers(timerList, Timers, k, ev);
      hide Ring, Inserted;
      AddToList(ev, list, ns, at, ms);
      Timers := Timers[..k] + [ev] + Timers[k..];
      SortedKept(Timers);
    }

    /** ril_event.cpp:296-300 */
    method SetDeadline(ev: Event, tv: Timeval, now: Timeval)
      requires Valid() && Apart([ev], [timerList] + Timers) && Apart([ev], [pendingList] + Pending) && Normal(tv) &&
               Normal(now)
      modifies ev`fd, ev`timeout
      ensures Valid() && ev.timeout == Later(now, tv) && ev.fd == -1
    {
      ApartElems([ev], [timerList] + Timers);
      ev.fd := -1;
      ev.timeout := Later(now, tv);
      hide Ring;
      NotAmong(ev, Timers);
      SortedKept(Timers);
    }

    /** ril_timer_add (ril_event.cpp:287-313): the event goes in front of the first one not due before it. */
    method TimerAdd(ev: Event, tv: Timeval, now: Timeval) returns (ghost k: nat)
      requires Valid() && Apart([ev], [timerList] + Timers) && Apart([ev], [pendingList] + Pending) && Normal(tv) &&
               Normal(now)
      modifies this`Timers, ev, Elems([timerList] + Timers)`next, Elems([timerList] + Timers)`prev
      ensures Valid() && ev.timeout == Later(now, tv) && ev.fd == -1
      ensures k <= |old(Timers)| && Timers == old(Timers)[..k] + [ev] + old(Timers)[k..]
      ensures forall i :: 0 <= i < k ==> Micros(Timers[i].timeout) < Micros(ev.timeout)
    {
      hide Sorted, Apart;
      SetDeadline(ev, tv, now);
      var list;
      list, k := FindPlace(ev);
      InsertSorted(Timers, k, ev);
      Link(ev, list, k);
    }

    /** Takes the first timer off the timer list and puts it last on the pending list (ril_event.cpp:173-176). */
    method MoveFirst(tev: Event) returns (next: Event)
      requires Valid() && Timers != [] && tev == Timers[0]
      modifies this`Timers, this`Pending, Nodes()`next, Nodes()`prev
      ensures Valid() && Timers == old(Timers)[1..] && Pending == old(Pending) + [tev]
      ensures next == (if Timers == [] then timerList else Timers[0]) && Nodes() == old(Nodes())
    {
      hide Sorted, Apart, Ring, Removed;
      ghost var ns, ms := [timerList] + Timers, [pendingList] + Pending;
      SortedTail(Timers);
      ReadyToMove(timerList, Timers, ms);
      ElemsMoved(timerList, pendingList, Timers, Pending);
      next := tev.next;
      RemoveFromList(tev, ns, 1, ms);
      SortedKept(Timers[1..]);
      MovePending(tev, ns, ms);
    }

    /** The second half of a move: tev, already unlinked, goes to the end of the pending list. */
    method MovePending(tev: Event, ghost ns: seq<Event>, ghost ms: seq<Event>)
      requires Ring(ms) && ms == [pendingList] + Pending && ns == [timerList] + Timers && Timers != [] &&
               tev == Timers[0]
      requires Ring(Removed(ns, 1)) && Apart([tev], ms) && Apart([tev], Removed(ns, 1)) && Apart(Removed(ns, 1), ms) &&
               Sorted(Timers[1..])
      modifies this`Timers, this`Pending, tev`next, tev`prev, Elems(ms)`next, Elems(ms)`prev
      ensures Timers == old(Timers)[1..] && Pending == old(Pending) + [tev]
      ensures Valid()
    {
      hide Apart, Sorted;
      ghost var rs := Removed(ns, 1);
      ApartElems([tev], ms);
      ApartElems([tev], rs);
      ApartElems(rs, ms);
      ApartSnoc(rs, ms, tev);
      AddToList(tev, pendingList, ms, 0, rs);
      assert Inserted(ms, 0, tev) == [pendingList] + (Pending + [tev]);
      assert rs == [timerList] + Timers[1..];
      Timers, Pending := Timers[1..], Pending + [tev];
      SortedKept(Timers);
    }

    /** processTimeouts (ril_event.cpp:159-181): exactly the timers due before now move, in order. */
    method ProcessTimeouts(now: Timeval)
      requires Valid() && Normal(now)
      modifies this`Timers, this`Pending, Nodes()`next, Nodes()`prev
      ensures Valid() && Nodes() == old(Nodes())
      ensures Timers == old(Timers[Expired(Timers, now)..]) && Pending == old(Pending + Timers[..Expired(Timers, now)])
    {
      hide Ring, Sorted, Apart, Expired, Micros, After, Nodes;
      ghost var n, all, pend := Expired(Timers, now), Timers, Pending;
      SortedNormal(Timers);
      ghost var i := 0;
      RingNext([timerList] + Timers, 0);
      HeadApart([timerList] + Timers);
      NotHead(timerList, Timers);
      var tev := timerList.next;
      while tev != timerList && After(now, tev.timeout)
        invariant Valid() && i <= n && Timers == all[i..] && Pending == pend + all[..i]
        invariant tev == (if Timers == [] then timerList else Timers[0]) && (Timers != [] ==> tev != timerList)
        invariant forall k :: 0 <= k < |all| ==> all[k].timeout == old(all[k].timeout)
        invariant Nodes() == old(Nodes())
        decreases n - i
      {
        AfterIsLater(now, tev.timeout);
        assert tev == all[i] && i < n;
        tev := MoveFirst(tev);
        assert all[..i + 1] == all[..i] + [all[i]];
        i := i + 1;
      }
      if Timers != [] { AfterIsLater(now, tev.timeout); }
      assert i == n;
    }

    /** Takes the first event off the pending list (ril_event.cpp:208-209). */
    method TakeFirst(ev: Event)
      requires Valid() && Pending != [] && ev == Pending[0]
      modifies this`Pending, Elems([pendingList] + Pending)`next, Elems([pendingList] + Pending)`prev
      ensures Valid() && Pending == old(Pending)[1..]
    {
      hide Sorted, Apart;
      ghost var ns, ms := [timerList] + Timers, [pendingList] + Pending;
      ApartElems(ns, ms);
      ApartRemoved(ns, ms);
      assert ms[1] == ev && Removed(ms, 1) == [pendingList] + Pending[1..];
      hide Ring;
      RemoveFromList(ev, ms, 1, ns);
      Pending := Pending[1..];
      SortedKept(Timers);
    }

    /** firePending (ril_event.cpp:203-214): every pending event is taken off and called once, in list order. */
    method FirePending() returns (fired: seq<Event>)
      requires Valid()
      modifies this`Pending, Elems([pendingList] + Pending)`next, Elems([pendingList] + Pending)`prev
      ensures Valid() && Pending == [] && fired == old(Pending)
    {
      hide Ring, Sorted, Apart;
      ghost var all := Pending;
      RingNext([pendingList] + Pending, 0);
      HeadApart([pendingList] + Pending);
      NotHead(pendingList, Pending);
      fired := [];
      var ev := pendingList.next;
      while ev != pendingList
        invariant Valid() && |fired| <= |all| && Pending == all[|fired|..] && fired == all[..|fired|]
        invariant ev == (if Pending == [] then pendingList else Pending[0])
        invariant Elems([pendingList] + Pending) <= old(Elems([pendingList] + Pending))
        decreases |all| - |fired|
      {
        RingNext([pendingList] + Pending, 1);
        var next := ev.next;
        TakeFirst(ev);
        fired := fired + [ev];
        ev := next;
      }
    }

    /** calcNextTimeout (ril_event.cpp:216-239): the wait ends at the first deadline, or now if that has passed. */
    method CalcNextTimeout(now: Timeval) returns (w: Wait)
      requires Valid() && Normal(now)
      ensures w == Forever <==> Timers == []
      ensures w.For? ==> Normal(w.tv) && Micros(w.tv) >= 0
      ensures w.For? ==> forall i :: 0 <= i < |Timers| ==>
                Micros(now) + Micros(w.tv) <= Max(Micros(now), Micros(Timers[i].timeout))
      ensures w.For? ==> Micros(now) + Micros(w.tv) == Max(Micros(now), Micros(Timers[0].timeout))
    {
      RingNext([timerList] + Timers, 0);
      HeadApart([timerList] + Timers);
      NotHead(timerList, Timers);
      hide Ring;
      var tev := timerList.next;
      if tev == timerList {
        return Forever;
      }
      AfterIsLater(tev.timeout, now);
      if After(tev.timeout, now) {
        w := For(Difference(tev.timeout, now));
      } else {
        w := For(Timeval(0, 0));
      }
    }

    /** One turn of ril_event_loop without readable descriptors (ril_event.cpp:353-384): what fires is what is due. */
    method Turn(now: Timeval) returns (fired: seq<Event>)
      requires Valid() && Normal(now)
      modifies this`Timers, this`Pending, Nodes()`next, Nodes()`prev
      ensures Valid() && Pending == []
      ensures fired == old(Pending + Timers[..Expired(Timers, now)]) && Timers == old(Timers[Expired(Timers, now)..])
    {
      ProcessTimeouts(now);
      assert Elems([pendingList] + Pending) <= Nodes();
      hide *;
      fired := FirePending();
    }
  }

  function Max(a: int, b: int): (m: int)
    ensures m >= a && m >= b && (m == a || m == b)
  {
    if a < b then b else a
  }

  lemma NotHead(t: Event, ts: seq<Event>)
    requires forall i :: 0 < i < |[t] + ts| ==> ([t] + ts)[i] != ([t] + ts)[0]
    ensures forall i :: 0 <= i < |ts| ==> ts[i] != t
  {
    forall i | 0 <= i < |ts|
      ensures ts[i] != t
    {
      assert ([t] + ts)[i + 1] == ts[i];
    }
  }

  lemma ApartRemoved(ns: seq<Event>, ms: seq<Event>)
    requires |ms| > 1 && Apart(ns, ms)
    ensures Apart(ns, Removed(ms, 1))
  {
    var r := Removed(ms, 1);
    forall i | 0 <= i < |r|
      ensures r[i] == if i < 1 then ms[i] else ms[i + 1]
    {
    }
  }

  /** In a sorted list the events due before now are exactly its expired front. */
  lemma SortedDue(es: seq<Event>, now: Timeval)
    requires Sorted(es)
    ensures var n := Expired(es, now);
      && Sorted(es[..n])
      && (forall e :: e in es[..n] ==> Micros(e.timeout) < Micros(now))
      && (forall e :: e in es[n..] ==> Micros(e.timeout) >= Micros(now))
      && (forall e :: e in es ==> (e in es[n..] <==> Micros(e.timeout) >= Micros(now)))
  {
    var n := Expired(es, now);
    SortedFront(es, n);
    FrontDue(es, now);
    RestNotDue(es, now);
    hide *;
    forall e | e in es
      ensures e in es[..n] || e in es[n..]
    {
      Somewhere(es, n, e);
    }
  }

  lemma Somewhere(es: seq<Event>, n: nat, e: Event)
    requires n <= |es| && e in es
    ensures e in es[..n] || e in es[n..]
  {
    assert es == es[..n] + es[n..];
  }

  lemma FrontDue(es: seq<Event>, now: Timeval)
    ensures forall e :: e in es[..Expired(es, now)] ==> Micros(e.timeout) < Micros(now)
  {
    var n := Expired(es, now);
    hide *;
    forall e | e in es[..n]
      ensures Micros(e.timeout) < Micros(now)
    {
      var i :| 0 <= i < n && es[..n][i] == e;
      assert es[i] == e;
    }
  }

  lemma RestNotDue(es: seq<Event>, now: Timeval)
    requires Sorted(es)
    ensures forall e :: e in es[Expired(es, now)..] ==> Micros(e.timeout) >= Micros(now)
  {
    var n := Expired(es, now);
    hide *;
    forall e | e in es[n..]
      ensures Micros(e.timeout) >= Micros(now)
    {
      var i :| 0 <= i < |es| - n && es[n..][i] == e;
      assert es[n + i] == e;
      SortedPair(es, n, n + i);
    }
  }

  lemma SortedFront(es: seq<Event>, n: nat)
    requires Sorted(es) && n <= |es|
    ensures Sorted(es[..n])
  {
  }

  lemma SortedPair(es: seq<Event>, i: nat, j: nat)
    requires Sorted(es) && i <= j < |es|
    ensures Micros(es[i].timeout) <= Micros(es[j].timeout)
  {
  }

  lemma ReadyToMove(t: Event, ts: seq<Event>, ms: seq<Event>)
    requires ts != [] && Ring([t] + ts) && Apart([t] + ts, ms)
    ensures var ns := [t] + ts;
      && ns[1] == ts[0] && Elems(ns) !! Elems(ms)
      && Removed(ns, 1) == [t] + ts[1..]
      && Apart([ts[0]], ms) && Apart(Removed(ns, 1), ms) && Apart([ts[0]], Removed(ns, 1))
      && ts[0].next == if ts[1..] == [] then t else ts[1..][0]
  {
    var ns := [t] + ts;
    RingNext(ns, 1);
    ApartElems(ns, ms);
    SplitSecond(ns, ms);
  }

  lemma SplitSecond(ns: seq<Event>, ms: seq<Event>)
    requires |ns| > 1 && Apart(ns, ms) && forall i, j :: 0 <= i < j < |ns| ==> ns[i] != ns[j]
    ensures Apart([ns[1]], ms) && Apart(Removed(ns, 1), ms) && Apart([ns[1]], Removed(ns, 1))
  {
    var r := Removed(ns, 1);
    forall i | 0 <= i < |r|
      ensures r[i] == if i < 1 then ns[i] else ns[i + 1]
    {
    }
  }

  lemma ApartSnoc(ns: seq<Event>, ms: seq<Event>, e: Event)
    requires Apart(ns, ms) && Apart([e], ns)
    ensures Apart(ns, ms + [e])
  {
    forall i, j | 0 <= i < |ns| && 0 <= j < |ms + [e]|
      ensures ns[i] != (ms + [e])[j]
    {
      assert [e][0] != ns[i];
    }
  }

  lemma SortedTail(es: seq<Event>)
    requires Sorted(es) && es != []
    ensures Sorted(es[1..])
  {
  }

  lemma ElemsMoved(t: Event, p: Event, ts: seq<Event>, ps: seq<Event>)
    requires ts != []
    ensures Elems([t] + ts[1..]) + Elems([p] + (ps + [ts[0]])) == Elems([t] + ts) + Elems([p] + ps)
  {
    assert ts == [ts[0]] + ts[1..];
  }

  lemma NotAmong(ev: Event, es: seq<Event>)
    requires ev !in es
    ensures forall i :: 0 <= i < |es| ==> es[i] != ev
  {
  }
}
