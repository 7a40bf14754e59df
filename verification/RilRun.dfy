/**
 Whole runs of the timer queues: timers are added and the loop turns, in any order, as time passes (ril_event.cpp).
 */
module RilRun {
  import opened RilEvent

  /** A call of ril_timer_add, or a turn of the event loop, and when. */
  datatype Op = Add(ev: Event, tv: Timeval, now: Timeval) | Tick(now: Timeval)

  /** An event that was added, and its deadline in microseconds. */
  datatype Timer = Timer(ev: Event, deadline: int)

  /** A timer that fired, and when. */
  datatype Firing = Firing(timer: Timer, at: int)

  /** The timer an addition asks for: its delay after the time of the call. */
  ghost function TimerOf(op: Op): (t: Timer)
    requires op.Add?
  {
    Timer(op.ev, Micros(op.now) + Micros(op.tv))
  }

  /** Between the two operations there is a turn late enough to fire what the first one adds. */
  ghost predicate FiredBetween(ops: seq<Op>, i: int, j: int)
  {
    exists t :: 0 <= i < t < j < |ops| && ops[t].Tick? && ops[i].Add? && Micros(ops[t].now) > TimerOf(ops[i]).deadline
  }

  /** Time never goes back, delays are not negative, and an event is added again only after it has fired. */
  ghost predicate Sane(ops: seq<Op>)
  {
    && (forall i :: 0 <= i < |ops| ==>
        Normal(ops[i].now) && (ops[i].Add? ==> Normal(ops[i].tv) && Micros(ops[i].tv) >= 0))
    && (forall i, j :: 0 <= i < j < |ops| ==> Micros(ops[i].now) <= Micros(ops[j].now))
    && (forall i, j :: 0 <= i < j < |ops| && ops[i].Add? && ops[j].Add? && ops[i].ev == ops[j].ev ==>
        FiredBetween(ops, i, j))
  }

  ghost function Added(ops: seq<Op>): (ts: seq<Timer>)
  {
    if ops == [] then []
    else Added(ops[..|ops| - 1]) + if ops[|ops| - 1].Add? then [TimerOf(ops[|ops| - 1])] else []
  }

  ghost function Fired(log: seq<Firing>): (ts: seq<Timer>)
    ensures |ts| == |log| && forall i :: 0 <= i < |log| ==> ts[i] == log[i].timer
  {
    seq(|log|, i requires 0 <= i < |log| => log[i].timer)
  }

  /** Every timer fires after its deadline, and deadlines and times never decrease along the log. */
  ghost predicate InOrder(log: seq<Firing>)
  {
    && (forall k :: 0 <= k < |log| ==> log[k].timer.deadline < log[k].at)
    && (forall j, k :: 0 <= j < k < |log| ==> log[j].timer.deadline <= log[k].timer.deadline && log[j].at <= log[k].at)
  }

  /** Every timer fires in a turn, and no turn came between its deadline and that one. */
  ghost predicate Prompt(log: seq<Firing>, done: seq<Op>)
  {
    forall k :: 0 <= k < |log| ==> FirstTurn(log[k], done)
  }

  ghost predicate FirstTurn(f: Firing, done: seq<Op>)
  {
    && (exists i :: 0 <= i < |done| && done[i].Tick? && Micros(done[i].now) == f.at)
    && (forall i :: 0 <= i < |done| && done[i].Tick? ==>
        Micros(done[i].now) <= f.timer.deadline || f.at <= Micros(done[i].now))
  }

  /** Every timer added was fired once or is waiting, and no other. */
  ghost predicate Conserved(waiting: seq<Timer>, log: seq<Firing>, done: seq<Op>)
  {
    multiset(Fired(log)) + multiset(waiting) == multiset(Added(done))
  }

  /** No turn came after the deadline of a waiting timer. */
  ghost predicate NotYet(waiting: seq<Timer>, done: seq<Op>)
  {
    forall t, i :: t in waiting && 0 <= i < |done| && done[i].Tick? ==> Micros(done[i].now) <= t.deadline
  }

  /** What was fired was due before last, and nothing waiting is; last is the time of the latest turn, if any. */
  ghost predicate Split(waiting: seq<Timer>, log: seq<Firing>, done: seq<Op>, last: int)
  {
    && (forall k :: 0 <= k < |log| ==> log[k].timer.deadline < last && log[k].at <= last)
    && (forall t :: t in waiting ==> t.deadline >= last)
    && (forall i :: 0 <= i < |done| && done[i].Tick? ==> Micros(done[i].now) <= last)
  }

  /** What a run keeps. */
  ghost predicate Kept(waiting: seq<Timer>, log: seq<Firing>, done: seq<Op>, last: int)
  {
    Conserved(waiting, log, done) && InOrder(log) && Prompt(log, done) && Split(waiting, log, done, last)
  }

  lemma Next(ops: seq<Op>, i: nat)
    requires i < |ops|
    ensures ops[..i + 1] == ops[..i] + [ops[i]]
    ensures Added(ops[..i + 1]) == Added(ops[..i]) + if ops[i].Add? then [TimerOf(ops[i])] else []
  {
    assert ops[..i + 1][..i] == ops[..i];
  }

  lemma {:induction false} AddedFrom(ops: seq<Op>, i: nat, t: Timer)
    requires i <= |ops| && t in Added(ops[..i])
    ensures exists j :: 0 <= j < i && ops[j].Add? && TimerOf(ops[j]) == t
  {
    assert ops[..0] == [];
    if i > 0 {
      Next(ops, i - 1);
      if t in Added(ops[..i - 1]) { AddedFrom(ops, i - 1, t); }
    }
  }

  /** What is waiting was added. */
  lemma WasAdded(waiting: seq<Timer>, log: seq<Firing>, ops: seq<Op>, i: nat, t: Timer)
    requires i <= |ops| && Conserved(waiting, log, ops[..i]) && t in waiting
    ensures exists j :: 0 <= j < i && ops[j].Add? && TimerOf(ops[j]) == t
  {
    assert t in multiset(waiting) && t in multiset(Added(ops[..i]));
    AddedFrom(ops, i, t);
  }

  /** An event that may be added is not waiting. */
  lemma NotWaiting(waiting: seq<Timer>, log: seq<Firing>, ops: seq<Op>, i: nat, last: int, t: Timer)
    requires Sane(ops) && i < |ops| && ops[i].Add? && Kept(waiting, log, ops[..i], last) && t in waiting
    ensures t.ev != ops[i].ev
  {
    WasAdded(waiting, log, ops, i, t);
    var j :| 0 <= j < i && ops[j].Add? && TimerOf(ops[j]) == t;
    assert !FiredBetween(ops, j, i) by {
      assert forall u :: 0 <= u < i ==> ops[..i][u] == ops[u];
    }
  }

  lemma AddStep(waiting: seq<Timer>, log: seq<Firing>, ops: seq<Op>, i: nat, last: int, k: nat)
    requires i < |ops| && ops[i].Add? && Kept(waiting, log, ops[..i], last) && k <= |waiting|
    requires last <= Micros(ops[i].now) && Micros(ops[i].tv) >= 0
    ensures Kept(waiting[..k] + [TimerOf(ops[i])] + waiting[k..], log, ops[..i + 1], last)
  {
    var r := waiting[..k] + [TimerOf(ops[i])] + waiting[k..];
    ConservedAdd(waiting, log, ops, i, k);
    Next(ops, i);
    hide Conserved, Added, Micros;
    forall j | 0 <= j < |log|
      ensures FirstTurn(log[j], ops[..i + 1])
    {
      TurnKept(log[j], ops[..i], ops[i]);
    }
    hide FirstTurn;
    assert waiting == waiting[..k] + waiting[k..];
    assert forall t :: t in r ==> t == TimerOf(ops[i]) || t in waiting;
    SplitAdd(waiting, r, log, ops[..i], ops[i], last);
  }

  lemma SplitAdd(waiting: seq<Timer>, r: seq<Timer>, log: seq<Firing>, done: seq<Op>, op: Op, last: int)
    requires Split(waiting, log, done, last) && op.Add? && forall t :: t in r ==> t == TimerOf(op) || t in waiting
    requires last <= Micros(op.now) && Micros(op.tv) >= 0
    ensures Split(r, log, done + [op], last)
  {
  }

  /** A firing stays prompt when an addition or a turn not before it follows. */
  lemma TurnKept(f: Firing, done: seq<Op>, op: Op)
    requires FirstTurn(f, done) && (op.Tick? ==> f.at <= Micros(op.now))
    ensures FirstTurn(f, done + [op])
  {
    var all := done + [op];
    var i :| 0 <= i < |done| && done[i].Tick? && Micros(done[i].now) == f.at;
    assert all[i] == done[i];
  }

  lemma ConservedAdd(waiting: seq<Timer>, log: seq<Firing>, ops: seq<Op>, i: nat, k: nat)
    requires i < |ops| && ops[i].Add? && Conserved(waiting, log, ops[..i]) && k <= |waiting|
    ensures Conserved(waiting[..k] + [TimerOf(ops[i])] + waiting[k..], log, ops[..i + 1])
  {
    Next(ops, i);
    hide Added;
    assert waiting == waiting[..k] + waiting[k..];
  }

  lemma ConservedTick(due: seq<Timer>, rest: seq<Timer>, log: seq<Firing>, new_: seq<Firing>, ops: seq<Op>, i: nat)
    requires i < |ops| && ops[i].Tick? && Conserved(due + rest, log, ops[..i]) && Fired(new_) == due
    ensures Conserved(rest, log + new_, ops[..i + 1])
  {
    Next(ops, i);
    hide Added;
    assert Fired(log + new_) == Fired(log) + due;
  }

  /** The firings of a turn: what is due before now, in order of deadline, when rest is not due. */
  ghost predicate Divided(due: seq<Timer>, rest: seq<Timer>, now: int)
  {
    && (forall k :: 0 <= k < |due| ==> due[k].deadline < now)
    && (forall j, k :: 0 <= j < k < |due| ==> due[j].deadline <= due[k].deadline)
    && (forall t :: t in rest ==> t.deadline >= now)
  }

  function Firings(due: seq<Timer>, now: int): (r: seq<Firing>)
    ensures |r| == |due| && forall k :: 0 <= k < |due| ==> r[k] == Firing(due[k], now)
  {
    seq(|due|, k requires 0 <= k < |due| => Firing(due[k], now))
  }

  lemma TickStep(due: seq<Timer>, rest: seq<Timer>, log: seq<Firing>, ops: seq<Op>, i: nat, last: int)
    requires i < |ops| && ops[i].Tick? && Kept(due + rest, log, ops[..i], last) && last <= Micros(ops[i].now)
    requires Divided(due, rest, Micros(ops[i].now))
    ensures Kept(rest, log + Firings(due, Micros(ops[i].now)), ops[..i + 1], Micros(ops[i].now))
  {
    var new_ := Firings(due, Micros(ops[i].now));
    assert Fired(new_) == due;
    ConservedTick(due, rest, log, new_, ops, i);
    Next(ops, i);
    hide Added, Conserved, Micros, FirstTurn;
    OrderTick(due, rest, log, ops[..i], Micros(ops[i].now), last);
    PromptTick(due, rest, log, ops[..i], ops[i], last);
  }

  lemma OrderTick(due: seq<Timer>, rest: seq<Timer>, log: seq<Firing>, done: seq<Op>, now: int, last: int)
    requires InOrder(log) && Split(due + rest, log, done, last) && last <= now && Divided(due, rest, now)
    ensures InOrder(log + Firings(due, now))
  {
    hide Micros;
    assert forall k :: 0 <= k < |due| ==> (due + rest)[k] == due[k];
  }

  lemma PromptTick(due: seq<Timer>, rest: seq<Timer>, log: seq<Firing>, done: seq<Op>, op: Op, last: int)
    requires Prompt(log, done) && Split(due + rest, log, done, last) && op.Tick? && last <= Micros(op.now) &&
             Divided(due, rest, Micros(op.now))
    ensures Prompt(log + Firings(due, Micros(op.now)), done + [op])
  {
    var new_ := Firings(due, Micros(op.now));
    forall k | 0 <= k < |log + new_|
      ensures FirstTurn((log + new_)[k], done + [op])
    {
      if k < |log| {
        TurnKept(log[k], done, op);
      } else {
        var n := k - |log|;
        assert (due + rest)[n] == due[n] && (log + new_)[k] == new_[n] && (done + [op])[|done|] == op;
      }
    }
  }

  // ---------------------------------------------------------------- the lists

  /** The timers of a list of events. */
  function Timing(es: seq<Event>): (r: seq<Timer>)
    reads Elems(es)`timeout
    ensures |r| == |es| && forall k :: 0 <= k < |es| ==> r[k] == Timer(es[k], Micros(es[k].timeout))
  {
    if es == [] then [] else [Timer(es[0], Micros(es[0].timeout))] + Timing(es[1..])
  }

  ghost function Events(ops: seq<Op>): (s: set<Event>)
  {
    set i | 0 <= i < |ops| && ops[i].Add? :: ops[i].ev
  }

  ghost function Cast(q: Queues, ops: seq<Op>): (s: set<Event>)
  {
    {q.timerList, q.pendingList} + Events(ops)
  }

  /**
   Any sequence of additions and turns from empty queues, events being added again once they have fired.  Every timer
   added fires exactly once or is still waiting; it fires in the first turn strictly after its deadline; timers fire in
   order of deadline over the whole run; and one is still waiting only if no turn so far came after its deadline.
   */
  method Run(q: Queues, ops: seq<Op>) returns (log: seq<Firing>)
    requires q.Valid() && q.Timers == [] && q.Pending == [] && Sane(ops)
    requires q.timerList !in Events(ops) && q.pendingList !in Events(ops)
    modifies q`Timers, q`Pending, Cast(q, ops)
    ensures q.Valid() && q.Pending == [] && Conserved(Timing(q.Timers), log, ops)
    ensures InOrder(log) && Prompt(log, ops) && NotYet(Timing(q.Timers), ops)
  {
    log := [];
    ghost var last := if ops == [] then 0 else Micros(ops[0].now);
    KeptStart(ops, last);
    hide *;
    for i := 0 to |ops|
      invariant q.Valid() && q.Pending == [] && Kept(Timing(q.Timers), log, ops[..i], last)
      invariant i < |ops| ==> last <= Micros(ops[i].now)
    {
      if ops[i].Add? {
        RunAdd(q, log, ops, i, last);
      } else {
        log, last := RunTick(q, log, ops, i, last);
      }
      SaneNext(ops, i, last);
    }
    assert ops[..|ops|] == ops;
    KeptEnd(Timing(q.Timers), log, ops, last);
  }

  lemma KeptStart(ops: seq<Op>, last: int)
    ensures Kept(Timing([]), [], ops[..0], last)
  {
    assert ops[..0] == [];
  }

  lemma KeptEnd(waiting: seq<Timer>, log: seq<Firing>, ops: seq<Op>, last: int)
    requires Kept(waiting, log, ops, last)
    ensures Conserved(waiting, log, ops) && InOrder(log) && Prompt(log, ops) && NotYet(waiting, ops)
  {
    hide Conserved, InOrder, Prompt;
  }

  lemma SaneNext(ops: seq<Op>, i: nat, last: int)
    requires Sane(ops) && i < |ops| && last <= Micros(ops[i].now)
    ensures i + 1 < |ops| ==> last <= Micros(ops[i + 1].now)
  {
  }

  lemma SaneAt(ops: seq<Op>, i: nat)
    requires Sane(ops) && i < |ops|
    ensures Normal(ops[i].now) && (ops[i].Add? ==> Normal(ops[i].tv) && Micros(ops[i].tv) >= 0)
  {
  }

  method RunAdd(q: Queues, ghost log: seq<Firing>, ops: seq<Op>, i: nat, ghost last: int)
    requires q.Valid() && q.Pending == [] && Sane(ops) && i < |ops| && ops[i].Add?
    requires q.timerList !in Events(ops) && q.pendingList !in Events(ops)
    requires Kept(Timing(q.Timers), log, ops[..i], last) && last <= Micros(ops[i].now)
    modifies q`Timers, Cast(q, ops)
    ensures q.Valid() && q.Pending == [] && Kept(Timing(q.Timers), log, ops[..i + 1], last)
  {
    Newcomer(q, log, ops, i, last);
    Residents(q, log, ops, i, last);
    SaneAt(ops, i);
    ghost var waiting := Timing(q.Timers);
    hide *;
    ghost var k := TimelyAdd(q, ops[i]);
    AddStep(waiting, log, ops, i, last, k);
  }

  method TimelyAdd(q: Queues, op: Op) returns (ghost k: nat)
    requires q.Valid() && q.Pending == [] && op.Add? && Normal(op.tv) && Normal(op.now) && op.ev !in q.Timers
    requires op.ev != q.timerList && op.ev != q.pendingList
    modifies q`Timers, op.ev, q.Nodes()`next, q.Nodes()`prev
    ensures q.Valid() && q.Pending == [] && k <= |old(q.Timers)|
    ensures Timing(q.Timers) == old(Timing(q.Timers))[..k] + [TimerOf(op)] + old(Timing(q.Timers))[k..]
  {
    ghost var ts, w := q.Timers, Timing(q.Timers);
    hide *;
    k := PlainAdd(q, op);
    TimingInsert(ts, w, k, op.ev, TimerOf(op));
  }

  method PlainAdd(q: Queues, op: Op) returns (ghost k: nat)
    requires q.Valid() && q.Pending == [] && op.Add? && Normal(op.tv) && Normal(op.now) && op.ev !in q.Timers
    requires op.ev != q.timerList && op.ev != q.pendingList
    modifies q`Timers, op.ev, q.Nodes()`next, q.Nodes()`prev
    ensures q.Valid() && q.Pending == [] && k <= |old(q.Timers)| &&
            q.Timers == old(q.Timers)[..k] + [op.ev] + old(q.Timers)[k..]
    ensures Timing(old(q.Timers)) == old(Timing(q.Timers)) && TimerOf(op) == Timer(op.ev, Micros(op.ev.timeout))
  {
    Alone(op.ev, q.timerList, q.Timers);
    Alone(op.ev, q.pendingList, q.Pending);
    NodesAre(q);
    TimerLater(op);
    hide *;
    k := q.TimerAdd(op.ev, op.tv, op.now);
  }

  lemma {:induction false} TimingInsert(ts: seq<Event>, w: seq<Timer>, k: nat, ev: Event, t: Timer)
    requires k <= |ts| && w == Timing(ts) && t == Timer(ev, Micros(ev.timeout))
    ensures Timing(ts[..k] + [ev] + ts[k..]) == w[..k] + [t] + w[k..]
  {
    hide *;
  }

  lemma NodesAre(q: Queues)
    ensures Elems([q.timerList] + q.Timers) <= q.Nodes() && forall e :: e in q.Timers <==> e in Elems(q.Timers)
  {
  }

  lemma TimerLater(op: Op)
    requires op.Add? && Normal(op.tv) && Normal(op.now)
    ensures TimerOf(op) == Timer(op.ev, Micros(Later(op.now, op.tv)))
  {
  }

  lemma Alone(ev: Event, head: Event, es: seq<Event>)
    requires ev != head && ev !in es
    ensures Apart([ev], [head] + es)
  {
  }

  /** The event to be added is not in a list. */
  lemma Newcomer(q: Queues, log: seq<Firing>, ops: seq<Op>, i: nat, last: int)
    requires Sane(ops) && i < |ops| && ops[i].Add? && Kept(Timing(q.Timers), log, ops[..i], last)
    ensures ops[i].ev !in q.Timers && ops[i].ev in Events(ops)
  {
    if ops[i].ev in q.Timers {
      var k :| 0 <= k < |q.Timers| && q.Timers[k] == ops[i].ev;
      NotWaiting(Timing(q.Timers), log, ops, i, last, Timing(q.Timers)[k]);
    }
  }

  /** The lists hold only events of the run. */
  lemma Residents(q: Queues, log: seq<Firing>, ops: seq<Op>, i: nat, last: int)
    requires q.Pending == [] && i <= |ops| && Kept(Timing(q.Timers), log, ops[..i], last)
    ensures q.Nodes() <= Cast(q, ops)
  {
    hide Kept, Micros;
    forall e | e in q.Timers
      ensures e in Events(ops)
    {
      var k :| 0 <= k < |q.Timers| && q.Timers[k] == e;
      assert Timing(q.Timers)[k] in Timing(q.Timers);
      ResidentsAre(Timing(q.Timers), log, ops, i, last, Timing(q.Timers)[k]);
    }
  }

  lemma ResidentsAre(waiting: seq<Timer>, log: seq<Firing>, ops: seq<Op>, i: nat, last: int, t: Timer)
    requires i <= |ops| && Kept(waiting, log, ops[..i], last) && t in waiting
    ensures t.ev in Events(ops)
  {
    WasAdded(waiting, log, ops, i, t);
  }

  method RunTick(q: Queues, log: seq<Firing>, ops: seq<Op>, i: nat, ghost last: int)
    returns (log': seq<Firing>, ghost last': int)
    requires q.Valid() && q.Pending == [] && Sane(ops) && i < |ops| && ops[i].Tick?
    requires Kept(Timing(q.Timers), log, ops[..i], last) && last <= Micros(ops[i].now)
    modifies q`Timers, q`Pending, Cast(q, ops)
    ensures q.Valid() && q.Pending == [] && Kept(Timing(q.Timers), log', ops[..i + 1], last') &&
            last' == Micros(ops[i].now)
  {
    SaneAt(ops, i);
    Residents(q, log, ops, i, last);
    hide *;
    var due := TimelyTurn(q, ops[i].now);
    log', last' := log + Firings(due, Micros(ops[i].now)), Micros(ops[i].now);
    TickStep(due, Timing(q.Timers), log, ops, i, last);
  }

  /** A turn: what fires is what is due, in order of deadline. */
  method TimelyTurn(q: Queues, now: Timeval) returns (due: seq<Timer>)
    requires q.Valid() && q.Pending == [] && Normal(now)
    modifies q`Timers, q`Pending, q.Nodes()`next, q.Nodes()`prev
    ensures q.Valid() && q.Pending == [] && old(Timing(q.Timers)) == due + Timing(q.Timers)
    ensures Divided(due, Timing(q.Timers), Micros(now))
  {
    ghost var ts, w, n := q.Timers, Timing(q.Timers), Expired(q.Timers, now);
    TickFacts(ts, now);
    hide *;
    var fired := PlainTurn(q, now);
    due := Timing(fired);
    TimingParts(ts, n);
  }

  method PlainTurn(q: Queues, now: Timeval) returns (fired: seq<Event>)
    requires q.Valid() && q.Pending == [] && Normal(now)
    modifies q`Timers, q`Pending, q.Nodes()`next, q.Nodes()`prev
    ensures q.Valid() && q.Pending == [] && Timing(old(q.Timers)) == old(Timing(q.Timers))
    ensures fired == old(q.Timers[..Expired(q.Timers, now)]) && q.Timers == old(q.Timers[Expired(q.Timers, now)..])
  {
    hide *;
    fired := q.Turn(now);
  }

  lemma {:induction false} TimingParts(ts: seq<Event>, n: nat)
    requires n <= |ts|
    ensures Timing(ts[..n]) == Timing(ts)[..n] && Timing(ts[n..]) == Timing(ts)[n..] &&
            Timing(ts) == Timing(ts[..n]) + Timing(ts[n..])
  {
    hide *;
    var w, a, b := Timing(ts), Timing(ts[..n]), Timing(ts[n..]);
    assert a == w[..n];
    assert b == w[n..];
    assert w == w[..n] + w[n..];
  }

  /** In a sorted list the expired front is due, in order, and the rest is not. */
  lemma TickFacts(ts: seq<Event>, now: Timeval)
    requires Sorted(ts)
    ensures var w, n := Timing(ts), Expired(ts, now); Divided(w[..n], w[n..], Micros(now))
  {
    var w, n := Timing(ts), Expired(ts, now);
    hide Micros, Expired;
    forall k | n <= k < |ts|
      ensures w[k].deadline >= Micros(now)
    {
      SortedPair(ts, n, k);
    }
    assert forall j, k :: 0 <= j < k < |ts| ==> w[j].deadline <= w[k].deadline;
  }
}
