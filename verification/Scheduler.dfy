// The round-robin thread scheduler. Code that runs with interrupts off is one
// step; between steps the timer or any other interrupt may come.
module Scheduler {
  type Tid = nat

  const TIME_SLICE := 4

  datatype Status = Running | Ready | Blocked | Dying

  // Thread 1 is the initial thread, thread 2 the idle thread; `idle` is 0, the
  // null pointer, until the idle thread has run for the first time.
  datatype State = State(current: Tid, ready: seq<Tid>, all: seq<Tid>, status: map<Tid, Status>,
                         idle: Tid, ticks: nat, nextTid: Tid)

  // Create is init_thread in thread_create: the new thread is blocked until its
  // creator, which may lose the processor before that, takes an Unblock.
  datatype Action = Block | Yield | Exit | Unblock(t: Tid) | Create | Tick | StartIdle

  // thread_init, then thread_create of the idle thread in thread_start.
  function Boot(): State {
    State(1, [2], [1, 2], map[1 := Running, 2 := Ready], 0, 0, 3)
  }

  // What callers owe: the idle thread only ever blocks, is never unblocked and
  // never exits; until it has started there is nothing but thread 1 on its way
  // to wait for it.
  predicate Enabled(s: State, a: Action) {
    match a
    case Block => s.idle != 0 || s.current != 2
    case Yield => s.current != s.idle
    case Exit => s.idle != 0 && s.current != s.idle
    case Unblock(t) => t in s.status && s.status[t].Blocked? && t != s.idle
    case Create => s.idle != 0
    case Tick => true
    case StartIdle => s.idle == 0 && s.current == 2
  }

  function Without(l: seq<Tid>, t: Tid): seq<Tid> {
    if l == [] then [] else if l[0] == t then l[1..] else [l[0]] + Without(l[1..], t)
  }

  // next_thread_to_run.
  function NextToRun(s: State): Tid {
    if s.ready == [] then s.idle else s.ready[0]
  }

  // schedule and thread_schedule_tail: the page of a thread that is dying goes
  // back, except the first thread's.
  function Schedule(s: State): State {
    var next := NextToRun(s);
    var status := if s.current in s.status && s.status[s.current].Dying? && s.current != 1 && s.current != next
                  then s.status - {s.current} else s.status;
    s.(current := next, ready := if s.ready == [] then [] else s.ready[1..],
       status := status[next := Running], ticks := 0)
  }

  // The current thread leaves the processor asleep, still ready, or for good.
  function Slept(s: State): State {
    s.(status := s.status[s.current := Blocked])
  }

  function Requeued(s: State): State {
    s.(ready := if s.current == s.idle then s.ready else s.ready + [s.current], status := s.status[s.current := Ready])
  }

  function Left(s: State): State {
    s.(all := Without(s.all, s.current), status := s.status[s.current := Dying])
  }

  function Step(s: State, a: Action): State {
    match a
    case Block => Schedule(Slept(s))
    case Yield => Schedule(Requeued(s))
    case Exit => Schedule(Left(s))
    case Unblock(t) => s.(ready := s.ready + [t], status := s.status[t := Ready])
    case Create =>
      s.(all := s.all + [s.nextTid], status := s.status[s.nextTid := Blocked], nextTid := s.nextTid + 1)
    case Tick => if s.ticks + 1 >= 4 then Schedule(Requeued(s.(ticks := s.ticks + 1))) else s.(ticks := s.ticks + 1)
    case StartIdle => s.(idle := 2)
  }

  // Whether a step calls schedule.
  predicate Schedules(s: State, a: Action) {
    a.Block? || a.Yield? || a.Exit? || (a.Tick? && s.ticks + 1 >= 4)
  }

  // ---- The invariant. ----

  ghost predicate Distinct(l: seq<Tid>) {
    forall i, j :: 0 <= i < j < |l| ==> l[i] != l[j]
  }

  ghost predicate ThreadOk(s: State, t: Tid)
    requires t in s.status
  {
    && 0 < t < s.nextTid
    && (s.status[t].Running? <==> t == s.current)
    && (t in s.ready <==> s.status[t].Ready? && t != s.idle)
    && (t in s.all <==> !s.status[t].Dying?)
    && (s.status[t].Dying? ==> t == 1)
  }

  ghost predicate Inv(s: State) {
    && (forall t :: t in s.status ==> ThreadOk(s, t))
    && (forall t :: t in s.ready || t in s.all ==> t in s.status)
    && s.current in s.status && Distinct(s.ready) && Distinct(s.all)
    && s.ticks < 4 && 2 in s.status && !s.status[2].Dying?
    && (s.idle == 0 || s.idle == 2)
    && (s.idle == 0 ==> s.status.Keys == {1, 2} && !s.status[2].Blocked? && !s.status[1].Dying?)
  }

  // Between taking the current thread off the processor and choosing the next.
  ghost predicate OffProcessor(s: State, t: Tid)
    requires t in s.status
  {
    && 0 < t < s.nextTid && !s.status[t].Running?
    && (t in s.ready <==> s.status[t].Ready? && t != s.idle)
    && (t in s.all <==> !s.status[t].Dying?)
    && (s.status[t].Dying? ==> t == 1 || t == s.current)
  }

  ghost predicate Between(s: State) {
    && (forall t :: t in s.status ==> OffProcessor(s, t))
    && (forall t :: t in s.ready || t in s.all ==> t in s.status)
    && s.current in s.status && Distinct(s.ready) && Distinct(s.all)
    && 2 in s.status && !s.status[2].Dying? && (s.idle == 0 || s.idle == 2)
    && (s.idle == 0 ==> s.status.Keys == {1, 2} && !s.status[2].Blocked? && !s.status[1].Dying?)
  }

  // There is always a thread to switch to, and it is not on its way out.
  lemma SomeThreadToRun(s: State)
    requires Between(s)
    ensures NextToRun(s) in s.status && NextToRun(s) != 0 && !s.status[NextToRun(s)].Dying?
    ensures s.ready != [] ==> NextToRun(s) in s.ready && s.status[NextToRun(s)].Ready?
    ensures s.ready == [] ==> s.idle == 2
  {
    assert OffProcessor(s, 2);
    if s.ready != [] {
      assert s.ready[0] in s.ready;
      assert OffProcessor(s, s.ready[0]);
    }
  }

  lemma {:induction false} WithoutMembers(l: seq<Tid>, t: Tid)
    requires Distinct(l)
    ensures Distinct(Without(l, t)) && forall u :: u in Without(l, t) <==> u in l && u != t
  {
    if l != [] {
      HeadApart(l);
      if l[0] != t {
        WithoutMembers(l[1..], t);
        assert forall u :: u in Without(l, t) <==> u == l[0] || u in Without(l[1..], t);
        PushFront(l[0], Without(l[1..], t));
      }
    }
  }

  lemma HeadApart(l: seq<Tid>)
    requires Distinct(l) && l != []
    ensures Distinct(l[1..]) && l[0] !in l[1..] && l == [l[0]] + l[1..]
    ensures forall u :: u in l[1..] <==> u in l && u != l[0]
  {
    assert l == [l[0]] + l[1..];
  }

  lemma PushFront(h: Tid, l: seq<Tid>)
    requires Distinct(l) && h !in l
    ensures Distinct([h] + l)
  {
  }

  lemma PushBack(l: seq<Tid>, t: Tid)
    requires Distinct(l) && t !in l
    ensures Distinct(l + [t]) && forall u :: u in l + [t] <==> u in l || u == t
  {
  }

  lemma Scheduled(s: State)
    requires Between(s)
    ensures Inv(Schedule(s))
  {
    hide Distinct;
    SomeThreadToRun(s);
    if s.ready != [] { HeadApart(s.ready); }
    var s' := Schedule(s);
    forall t | t in s'.status
      ensures ThreadOk(s', t)
    {
      assert OffProcessor(s, t);
    }
    forall t | t in s'.ready || t in s'.all
      ensures t in s'.status
    {
      assert t in s.status && OffProcessor(s, t);
    }
  }

  lemma OffToReady(s: State)
    requires Inv(s.(ticks := 0))
    ensures Between(Requeued(s))
  {
    hide Distinct;
    var z, m := s.(ticks := 0), Requeued(s);
    assert ThreadOk(z, s.current);
    if s.current != s.idle { PushBack(s.ready, s.current); }
    forall t | t in m.status
      ensures OffProcessor(m, t)
    {
      assert ThreadOk(z, t);
    }
  }

  lemma OffToSleep(s: State)
    requires Inv(s) && Enabled(s, Block)
    ensures Between(Slept(s))
  {
    hide Distinct;
    var m := Slept(s);
    forall t | t in m.status
      ensures OffProcessor(m, t)
    {
      assert ThreadOk(s, t);
    }
  }

  lemma OffForGood(s: State)
    requires Inv(s) && Enabled(s, Exit)
    ensures Between(Left(s))
  {
    hide Distinct;
    var m := Left(s);
    WithoutMembers(s.all, s.current);
    forall t | t in m.status
      ensures OffProcessor(m, t)
    {
      assert ThreadOk(s, t);
    }
    assert ThreadOk(s, s.current);
  }

  lemma UnblockKept(s: State, t: Tid)
    requires Inv(s) && Enabled(s, Unblock(t))
    ensures Inv(Step(s, Unblock(t)))
  {
    hide Distinct;
    var s' := Step(s, Unblock(t));
    assert ThreadOk(s, t);
    PushBack(s.ready, t);
    forall u | u in s'.status
      ensures ThreadOk(s', u)
    {
      assert ThreadOk(s, u);
    }
  }

  lemma CreateKept(s: State)
    requires Inv(s) && Enabled(s, Create)
    ensures Inv(Step(s, Create))
  {
    hide Distinct;
    var s', n := Step(s, Create), s.nextTid;
    FreshTid(s);
    assert ThreadOk(s, 2) && ThreadOk(s, s.current);
    PushBack(s.all, n);
    forall u | u in s'.status
      ensures ThreadOk(s', u)
    {
      assert u != n ==> ThreadOk(s, u);
    }
  }

  lemma StartKept(s: State)
    requires Inv(s) && Enabled(s, StartIdle)
    ensures Inv(Step(s, StartIdle))
  {
    hide Distinct;
    var s' := Step(s, StartIdle);
    forall u | u in s'.status
      ensures ThreadOk(s', u)
    {
      assert ThreadOk(s, u);
    }
  }

  // The count of ticks is nobody else's business.
  lemma TicksApart(s: State, n: nat)
    requires Inv(s)
    ensures Inv(s.(ticks := 0)) && (n < 4 ==> Inv(s.(ticks := n)))
  {
    hide Distinct;
    forall t | t in s.status
      ensures ThreadOk(s.(ticks := 0), t) && ThreadOk(s.(ticks := n), t)
    {
      assert ThreadOk(s, t);
    }
  }

  lemma InvKept(s: State, a: Action)
    requires Inv(s) && Enabled(s, a)
    ensures Inv(Step(s, a))
  {
    hide Inv, Between, Schedule, Slept, Requeued, Left;
    match a
    case Block => OffToSleep(s); Scheduled(Slept(s));
    case Yield => TicksApart(s, 0); OffToReady(s); Scheduled(Requeued(s));
    case Exit => OffForGood(s); Scheduled(Left(s));
    case Unblock(t) => UnblockKept(s, t);
    case Create => CreateKept(s);
    case Tick =>
      var m := s.(ticks := s.ticks + 1);
      TicksApart(s, s.ticks + 1);
      assert m.(ticks := 0) == s.(ticks := 0);
      if s.ticks + 1 >= 4 {
        OffToReady(m);
        Scheduled(Requeued(m));
      }
    case StartIdle => StartKept(s);
  }

  // ---- Whole runs. ----

  function Next(s: State, a: Action): State {
    if Enabled(s, a) then Step(s, a) else s
  }

  function After(s: State, actions: seq<Action>): State {
    if actions == [] then s else Next(After(s, actions[..|actions| - 1]), actions[|actions| - 1])
  }

  lemma BootOk()
    ensures Inv(Boot())
  {
    assert ThreadOk(Boot(), 1) && ThreadOk(Boot(), 2);
  }

  lemma {:induction false} InvAfter(s: State, actions: seq<Action>)
    requires Inv(s)
    ensures Inv(After(s, actions))
  {
    hide Inv, Step, Enabled;
    if actions != [] {
      InvAfter(s, actions[..|actions| - 1]);
      var m, a := After(s, actions[..|actions| - 1]), actions[|actions| - 1];
      if Enabled(m, a) { InvKept(m, a); }
    }
  }

  // Whatever happens from the start of thread_start on, one thread runs, the
  // ready list has each other ready thread but the idle one once and nothing
  // else, and the list of all threads has each that has not exited once.
  lemma EveryRunOk(actions: seq<Action>)
    ensures var s := After(Boot(), actions);
            && s.current in s.status && s.status[s.current].Running?
            && (forall t :: t in s.status && s.status[t].Running? ==> t == s.current)
            && (forall t :: t in s.ready <==> t in s.status && s.status[t].Ready? && t != s.idle)
            && (forall t :: t in s.all <==> t in s.status && !s.status[t].Dying?)
            && (forall i, j :: 0 <= i < j < |s.ready| ==> s.ready[i] != s.ready[j])
            && (forall i, j :: 0 <= i < j < |s.all| ==> s.all[i] != s.all[j])
            && s.ticks < 4
  {
    BootOk();
    InvAfter(Boot(), actions);
    var s := After(Boot(), actions);
    forall t | t in s.status
      ensures ThreadOk(s, t)
    {
    }
  }

  lemma TwoActions(s: State, a: Action, b: Action)
    ensures After(s, [a, b]) == Next(Next(s, a), b)
  {
    assert [a, b][..1] == [a] && [a][..0] == [];
    assert After(s, [a]) == Next(After(s, []), a);
  }

  lemma CreatedBlocked(s: State)
    requires Inv(s) && Enabled(s, Create)
    ensures Enabled(Step(s, Create), Unblock(s.nextTid))
  {
    FreshTid(s);
    assert ThreadOk(s, 2);
  }

  // A blocked thread sleeps, whatever happens meanwhile, until it is unblocked;
  // then it is the last on the ready list.
  lemma {:induction false} SleepsUntilUnblocked(s: State, t: Tid, between: seq<Action>)
    requires Inv(s) && Enabled(s, Unblock(t)) && Unblock(t) !in between
    ensures var m := After(s, between);
            && Inv(m) && Enabled(m, Unblock(t)) && m.current != t && t in m.all && t !in m.ready
            && Step(m, Unblock(t)).ready == m.ready + [t]
  {
    hide Inv, Step, Enabled;
    InvAfter(s, between);
    if between == [] {
      NewcomerListed(s, t);
    } else {
      var rest, a := between[..|between| - 1], between[|between| - 1];
      assert forall x :: x in rest ==> x in between;
      SleepsUntilUnblocked(s, t, rest);
      var m := After(s, rest);
      if Enabled(m, a) {
        assert a in between;
        StaysBlocked(m, a, t);
        InvKept(m, a);
        NewcomerListed(Step(m, a), t);
      }
    }
  }

  // So does a new thread, until its creator unblocks it.
  lemma CreatedInTwoSteps(s: State, between: seq<Action>)
    requires Inv(s) && Enabled(s, Create) && Unblock(s.nextTid) !in between
    ensures var m := After(Step(s, Create), between);
            && Inv(m) && Enabled(m, Unblock(s.nextTid)) && s.nextTid in m.all && s.nextTid !in m.ready
            && Step(m, Unblock(s.nextTid)).ready == m.ready + [s.nextTid]
  {
    InvKept(s, Create);
    CreatedBlocked(s);
    hide *;
    SleepsUntilUnblocked(Step(s, Create), s.nextTid, between);
  }

  // And so does a thread that has blocked; the idle thread alone runs again
  // without being unblocked.
  lemma BlockSleeps(s: State, between: seq<Action>)
    requires Inv(s) && Enabled(s, Block) && s.current != s.idle && Unblock(s.current) !in between
    ensures var m := After(Step(s, Block), between);
            && Inv(m) && Enabled(m, Unblock(s.current)) && m.status[s.current].Blocked?
            && m.current != s.current && s.current in m.all && s.current !in m.ready
            && Step(m, Unblock(s.current)).ready == m.ready + [s.current]
  {
    InvKept(s, Block);
    BlockedNow(s);
    hide *;
    SleepsUntilUnblocked(Step(s, Block), s.current, between);
    IsAsleep(After(Step(s, Block), between), s.current);
  }

  lemma BlockedNow(s: State)
    requires Inv(s) && Enabled(s, Block) && s.current != s.idle
    ensures Enabled(Step(s, Block), Unblock(s.current)) && Step(s, Block).status[s.current].Blocked?
    ensures s.current !in Step(s, Block).ready
  {
    hide Distinct;
    assert ThreadOk(s, s.current);
    OffToSleep(s);
    SomeThreadToRun(Slept(s));
  }

  lemma IsAsleep(s: State, t: Tid)
    requires Enabled(s, Unblock(t))
    ensures t in s.status && s.status[t].Blocked?
  {
  }

  // A thread that has exited is on no list and never runs again.
  lemma {:induction false} ExitIsForGood(s: State, more: seq<Action>)
    requires Inv(s) && Enabled(s, Exit)
    ensures var m := After(Step(s, Exit), more);
            Inv(m) && m.current != s.current && s.current !in m.all && s.current !in m.ready && Gone(m, s.current)
  {
    InvKept(s, Exit);
    ExitedNow(s);
    hide Inv, Step, Enabled, Gone;
    InvAfter(Step(s, Exit), more);
    if more != [] {
      var rest, a := more[..|more| - 1], more[|more| - 1];
      ExitIsForGood(s, rest);
      var m := After(Step(s, Exit), rest);
      if Enabled(m, a) { StaysGone(m, a, s.current); }
    }
    GoneIsNowhere(After(Step(s, Exit), more), s.current);
  }

  // Its tid is taken, and it is dead.
  ghost predicate Gone(s: State, t: Tid) {
    t < s.nextTid && (t in s.status ==> s.status[t].Dying?)
  }

  lemma ExitedNow(s: State)
    requires Inv(s) && Enabled(s, Exit)
    ensures Gone(Step(s, Exit), s.current)
  {
    hide Distinct;
    assert ThreadOk(s, s.current);
    OffForGood(s);
    SomeThreadToRun(Left(s));
  }

  lemma StaysGone(s: State, a: Action, t: Tid)
    requires Inv(s) && Enabled(s, a) && Gone(s, t)
    ensures Gone(Step(s, a), t)
  {
    hide Distinct, Without;
    assert ThreadOk(s, 2) && ThreadOk(s, s.current);
    if s.ready != [] { assert s.ready[0] in s.ready && ThreadOk(s, s.ready[0]); }
  }

  lemma GoneIsNowhere(s: State, t: Tid)
    requires Inv(s) && Gone(s, t)
    ensures s.current != t && t !in s.all && t !in s.ready
  {
    hide Distinct;
    if t in s.status { assert ThreadOk(s, t); }
    assert ThreadOk(s, s.current);
  }

  lemma StaysBlocked(s: State, a: Action, t: Tid)
    requires Inv(s) && Enabled(s, a) && Enabled(s, Unblock(t)) && a != Unblock(t)
    ensures Enabled(Step(s, a), Unblock(t))
  {
    hide Distinct, Without;
    assert ThreadOk(s, t) && ThreadOk(s, 2) && ThreadOk(s, s.current);
    if s.ready != [] { assert s.ready[0] in s.ready && ThreadOk(s, s.ready[0]); }
    if a.Create? { FreshTid(s); }
  }

  lemma NewcomerListed(s: State, t: Tid)
    requires Inv(s) && Enabled(s, Unblock(t))
    ensures s.current != t && t in s.all && t !in s.ready && Step(s, Unblock(t)).ready == s.ready + [t]
  {
    assert ThreadOk(s, t);
  }

  // ---- Round robin. ----

  function TicksIn(actions: seq<Action>): nat {
    if actions == [] then 0
    else TicksIn(actions[..|actions| - 1]) + if actions[|actions| - 1].Tick? then 1 else 0
  }

  // How often a run calls schedule.
  function Switches(s: State, actions: seq<Action>): nat {
    if actions == [] then 0
    else
      var m, a := After(s, actions[..|actions| - 1]), actions[|actions| - 1];
      Switches(s, actions[..|actions| - 1]) + if Enabled(m, a) && Schedules(m, a) then 1 else 0
  }

  // A step that calls schedule runs the head of the list and moves the others
  // up; no other step changes what is on it.
  lemma ReadyMovesUp(s: State, a: Action)
    requires Inv(s) && Enabled(s, a)
    ensures Schedules(s, a) && s.ready != [] ==> Step(s, a).current == s.ready[0] && s.ready[1..] <= Step(s, a).ready
    ensures !Schedules(s, a) ==> s.ready <= Step(s, a).ready
  {
  }

  // A thread that yields, or whose slice is over, goes behind those that are
  // ready; the idle thread goes on no list.
  lemma PreemptedGoesLast(s: State, a: Action)
    requires Inv(s) && Enabled(s, a) && Schedules(s, a) && (a.Yield? || a.Tick?)
    ensures var queue := if s.current == s.idle then s.ready else s.ready + [s.current];
            if queue == [] then Step(s, a).current == s.idle && Step(s, a).ready == []
            else Step(s, a).current == queue[0] && Step(s, a).ready == queue[1..]
    ensures s.current in Step(s, a).status && !Step(s, a).status[s.current].Blocked? && Step(s, a).ticks == 0
  {
    hide Distinct;
    assert ThreadOk(s, s.current);
  }

  // A thread that does not give up the processor keeps it for four ticks.
  lemma {:induction false} SliceIsWhole(s: State, actions: seq<Action>)
    requires Inv(s) && s.ticks + TicksIn(actions) < 4
    requires forall a :: a in actions ==> !a.Block? && !a.Yield? && !a.Exit?
    ensures After(s, actions).current == s.current && After(s, actions).ticks == s.ticks + TicksIn(actions)
  {
    hide Inv;
    if actions != [] {
      var rest, a := actions[..|actions| - 1], actions[|actions| - 1];
      assert a in actions && forall x :: x in rest ==> x in actions;
      SliceIsWhole(s, rest);
    }
  }

  // Whoever is dispatched starts with a whole slice.
  lemma SliceStarts(s: State, a: Action)
    requires Inv(s) && Enabled(s, a) && Step(s, a).current != s.current
    ensures Schedules(s, a) && Step(s, a).ticks == 0
  {
  }

  // From its first run on the idle thread is known to be the second thread.
  lemma {:induction false} IdleKnown(actions: seq<Action>, i: nat)
    requires i < |actions| && actions[i] == StartIdle && Enabled(After(Boot(), actions[..i]), StartIdle)
    ensures After(Boot(), actions).idle == 2
  {
    hide Inv;
    var rest := actions[..|actions| - 1];
    if i < |rest| {
      assert actions[..i] == rest[..i];
      IdleKnown(rest, i);
    } else {
      assert actions[..i] == rest;
    }
  }

  // The thread at index k of the ready list moves to the front one place a
  // schedule ...
  lemma {:induction false} Advances(s: State, actions: seq<Action>, k: nat)
    requires Inv(s) && k < |s.ready| && Switches(s, actions) <= k
    ensures var at := k - Switches(s, actions);
            at < |After(s, actions).ready| && After(s, actions).ready[at] == s.ready[k]
  {
    hide Inv, Step, Enabled, Schedules;
    if actions != [] {
      var rest, a := actions[..|actions| - 1], actions[|actions| - 1];
      var m := After(s, rest);
      Advances(s, rest, k);
      InvAfter(s, rest);
      if Enabled(m, a) {
        ReadyMovesUp(m, a);
      }
    }
  }

  // ... and the (k + 1)-th one, after i steps of the run, puts it on the processor.
  lemma {:induction false} RunsInTurn(s: State, actions: seq<Action>, k: nat) returns (i: nat)
    requires Inv(s) && k < |s.ready| && Switches(s, actions) > k
    ensures i <= |actions| && Switches(s, actions[..i]) == k + 1 && After(s, actions[..i]).current == s.ready[k]
  {
    hide Inv, Step, Enabled, Schedules;
    var rest, a := actions[..|actions| - 1], actions[|actions| - 1];
    if Switches(s, rest) > k {
      i := RunsInTurn(s, rest, k);
      assert actions[..i] == rest[..i];
    } else {
      i := |actions|;
      assert actions[..i] == actions;
      Advances(s, rest, k);
      InvAfter(s, rest);
      ReadyMovesUp(After(s, rest), a);
    }
  }

  // Four ticks make a schedule.
  lemma {:induction false} TicksForceSwitches(s: State, actions: seq<Action>)
    requires Inv(s)
    ensures s.ticks + TicksIn(actions) <= 4 * Switches(s, actions) + After(s, actions).ticks
    ensures After(s, actions).ticks < 4
  {
    InvAfter(s, actions);
    if actions != [] {
      TicksForceSwitches(s, actions[..|actions| - 1]);
    }
  }

  // So a ready thread at index k runs within 4 (k + 1) ticks of any run.
  lemma RunsWithinTicks(s: State, actions: seq<Action>, k: nat) returns (i: nat)
    requires Inv(s) && k < |s.ready| && TicksIn(actions) >= 4 * (k + 1)
    ensures i <= |actions| && TicksIn(actions[..i]) <= 4 * (k + 1)
    ensures Switches(s, actions[..i]) == k + 1 && After(s, actions[..i]).current == s.ready[k]
  {
    hide Inv;
    var cut := TickPrefix(actions, 4 * (k + 1));
    var prefix := actions[..cut];
    TicksForceSwitches(s, prefix);
    i := RunsInTurn(s, prefix, k);
    assert prefix[..i] == actions[..i];
    TicksMonotone(prefix, i);
  }

  lemma {:induction false} TickPrefix(actions: seq<Action>, n: nat) returns (cut: nat)
    requires TicksIn(actions) >= n
    ensures cut <= |actions| && TicksIn(actions[..cut]) == n
  {
    if TicksIn(actions) == n {
      assert actions[..|actions|] == actions;
      cut := |actions|;
    } else {
      cut := TickPrefix(actions[..|actions| - 1], n);
      assert actions[..|actions| - 1][..cut] == actions[..cut];
    }
  }

  lemma {:induction false} TicksMonotone(actions: seq<Action>, i: nat)
    requires i <= |actions|
    ensures TicksIn(actions[..i]) <= TicksIn(actions)
  {
    if i == |actions| {
      assert actions[..i] == actions;
    } else {
      TicksMonotone(actions[..|actions| - 1], i);
      assert actions[..|actions| - 1][..i] == actions[..i];
    }
  }

  // ---- The scheduler's global variables. ----

  class Cpu {
    var current: Tid
    var ready: seq<Tid>
    var all: seq<Tid>
    var status: map<Tid, Status>
    var idle: Tid
    var ticks: nat
    var nextTid: Tid
    var yieldOnReturn: bool

    function S(): State
      reads this
    {
      State(current, ready, all, status, idle, ticks, nextTid)
    }

    ghost predicate Valid()
      reads this
    {
      Inv(S()) && !yieldOnReturn
    }

    constructor ()
      ensures Valid() && S() == Boot()
    {
      current, ready, all, status, idle, ticks, nextTid := 1, [2], [1, 2], map[1 := Running, 2 := Ready], 0, 0, 3;
      yieldOnReturn := false;
      new;
      BootOk();
    }

    // schedule, with the current thread already off the processor.
    method Reschedule()
      requires Between(S())
      modifies this
      ensures S() == Schedule(old(S())) && Inv(S())
      ensures yieldOnReturn == old(yieldOnReturn)
    {
      hide Between, Inv;
      Scheduled(S());
      var prev := current;
      var next := PopNext();
      current := next;
      ScheduleTail(prev);
    }

    method PopNext() returns (next: Tid)
      modifies this`ready
      ensures next == NextToRun(old(S())) && ready == if old(ready) == [] then [] else old(ready)[1..]
    {
      next := idle;
      if ready != [] {
        next := ready[0];
        ready := ready[1..];
      }
    }

    // thread_schedule_tail, after the switch from prev.
    method ScheduleTail(prev: Tid)
      modifies this`status, this`ticks
      ensures ticks == 0
      ensures status == (if prev in old(status) && old(status)[prev].Dying? && prev != 1 && prev != current
                         then old(status) - {prev} else old(status))[current := Running]
    {
      var dying := prev in status && status[prev].Dying?;
      if prev != current && dying && prev != 1 {
        status := status - {prev};
      }
      status := status[current := Running];
      ticks := 0;
    }

    // thread_block.
    method ThreadBlock()
      requires Valid() && Enabled(S(), Block)
      modifies this
      ensures Valid() && S() == Step(old(S()), Block)
    {
      hide Between, Inv, Schedule;
      OffToSleep(S());
      status := status[current := Blocked];
      Reschedule();
    }

    // thread_unblock.
    method ThreadUnblock(t: Tid)
      requires Valid() && Enabled(S(), Unblock(t))
      modifies this
      ensures Valid() && S() == Step(old(S()), Unblock(t))
    {
      hide Inv;
      InvKept(S(), Unblock(t));
      ready := ready + [t];
      status := status[t := Ready];
    }

    // thread_yield.
    method ThreadYield()
      requires Inv(S().(ticks := 0))
      modifies this
      ensures Inv(S()) && S() == Schedule(Requeued(old(S()))) && yieldOnReturn == old(yieldOnReturn)
    {
      hide Between, Inv, Schedule;
      OffToReady(S());
      if current != idle {
        ready := ready + [current];
      }
      status := status[current := Ready];
      Reschedule();
    }

    // thread_exit, once process_exit has returned.
    method ThreadExit()
      requires Valid() && Enabled(S(), Exit)
      modifies this
      ensures Valid() && S() == Step(old(S()), Exit)
    {
      hide Between, Inv, Schedule;
      OffForGood(S());
      all := Without(all, current);
      status := status[current := Dying];
      Reschedule();
    }

    // init_thread: a blocked thread on the list of all threads.
    method InitThread() returns (tid: Tid)
      requires Valid() && Enabled(S(), Create)
      modifies this
      ensures Valid() && S() == Step(old(S()), Create) && tid == old(nextTid)
      ensures tid !in old(status)
    {
      FreshTid(S());
      hide Inv, Step, Enabled;
      InvKept(S(), Create);
      StepCreate(S());
      tid := nextTid;
      nextTid := nextTid + 1;
      status := status[tid := Blocked];
      all := all + [tid];
    }

    // thread_create when nothing comes between its two steps; without a page for
    // the thread it changes nothing.
    method ThreadCreate(pageFree: bool) returns (created: bool, tid: Tid)
      requires Valid() && Enabled(S(), Create)
      modifies this
      ensures Valid() && (created <==> pageFree)
      ensures created ==> tid == old(nextTid) && tid !in old(status) && S() == After(old(S()), [Create, Unblock(tid)])
      ensures !created ==> S() == old(S())
    {
      ghost var s := S();
      created, tid := pageFree, 0;
      if !created {
        return;
      }
      tid := InitThread();
      CreatedBlocked(s);
      TwoActions(s, Create, Unblock(tid));
      hide Inv;
      ThreadUnblock(tid);
    }

    // The timer interrupt: thread_tick, then the end of the handler.
    method TimerInterrupt()
      requires Valid()
      modifies this
      ensures Valid() && S() == Step(old(S()), Tick)
    {
      hide Inv, Schedule;
      InvKept(S(), Tick);
      TicksApart(S(), 0);
      ticks := ticks + 1;
      if ticks >= TIME_SLICE {
        yieldOnReturn := true;
      }
      if yieldOnReturn {
        yieldOnReturn := false;
        ThreadYield();
      }
    }

    // idle, on its first run.
    method IdleStarts()
      requires Valid() && Enabled(S(), StartIdle)
      modifies this
      ensures Valid() && S() == Step(old(S()), StartIdle)
    {
      hide Inv;
      InvKept(S(), StartIdle);
      idle := current;
    }

    // Any run.
    method Run(actions: seq<Action>)
      requires Valid()
      modifies this
      ensures Valid() && S() == After(old(S()), actions)
    {
      hide Inv, Step, Enabled;
      for n := 0 to |actions|
        invariant Valid() && S() == After(old(S()), actions[..n])
      {
        assert actions[..n + 1][..n] == actions[..n];
        if Enabled(S(), actions[n]) {
          match actions[n]
          case Block => ThreadBlock();
          case Yield => YieldNow();
          case Exit => ThreadExit();
          case Unblock(t) => ThreadUnblock(t);
          case Create => var _ := InitThread();
          case Tick => TimerInterrupt();
          case StartIdle => IdleStarts();
        }
      }
      assert actions[..|actions|] == actions;
    }

    // thread_yield called by a thread.
    method YieldNow()
      requires Valid()
      modifies this
      ensures Valid() && S() == Step(old(S()), Yield)
    {
      hide Inv;
      TicksApart(S(), 0);
      ThreadYield();
    }
  }

  lemma StepCreate(s: State)
    requires Enabled(s, Create)
    ensures Step(s, Create) ==
            s.(all := s.all + [s.nextTid], status := s.status[s.nextTid := Blocked], nextTid := s.nextTid + 1)
  {
  }

  lemma FreshTid(s: State)
    requires Inv(s)
    ensures s.nextTid !in s.status
  {
    assert s.nextTid in s.status ==> ThreadOk(s, s.nextTid);
  }
}
