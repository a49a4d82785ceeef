// The threads of the kernel as objects: the steps of Processes carried out on
// thread pages and the semaphores in them.
module ProcessTable {
  import opened Semaphores
  import P = Processes

  class Thread {
    const parent: Tid
    const childSema: Semaphore
    const memSema: Semaphore
    var pc: P.Pc
    var children: seq<Tid>
    var status: int

    ghost function View(): P.Proc
      reads this, childSema, memSema
    {
      P.Proc(pc, parent, children, status, childSema.S(), memSema.S())
    }

    // init_thread.
    constructor (parent: Tid, children: seq<Tid>)
      ensures View() == P.Proc(P.Running, parent, children, 0, Init(0), Init(0))
      ensures fresh(childSema) && fresh(memSema) && childSema != memSema
    {
      this.parent, this.children, pc, status := parent, children, P.Running, 0;
      childSema := new Semaphore(0);
      memSema := new Semaphore(0);
    }
  }

  // No two threads share a page or a semaphore.
  ghost predicate AllApart(m: map<Tid, Thread>) {
    && (forall t, u :: t in m && u in m && t != u ==>
          m[t] != m[u] && m[t].childSema != m[u].childSema && m[t].memSema != m[u].memSema)
    && (forall t, u :: t in m && u in m ==> m[t].childSema != m[u].memSema)
  }

  // A new thread shares nothing with the others.
  ghost predicate Newcomer(m: map<Tid, Thread>, n: Thread) {
    && n.childSema != n.memSema
    && forall t :: t in m ==>
         && m[t] != n && m[t].childSema != n.childSema && m[t].memSema != n.memSema
         && m[t].childSema != n.memSema && m[t].memSema != n.childSema
  }

  lemma NewcomerApart(m: map<Tid, Thread>, tid: Tid, n: Thread)
    requires AllApart(m) && Newcomer(m, n)
    ensures AllApart(m[tid := n])
  {
  }

  class Kernel {
    var threads: map<Tid, Thread>
    var nextTid: Tid
    ghost var log: seq<P.Answer>

    ghost function Objects(): set<object>
      reads this`threads
    {
      (set t | t in threads :: threads[t] as object) + (set t | t in threads :: threads[t].childSema as object)
      + (set t | t in threads :: threads[t].memSema as object)
    }

    ghost function Procs(): map<Tid, P.Proc>
      reads this`threads, Objects()
    {
      map t | t in threads :: threads[t].View()
    }

    ghost function State(): P.System
      reads this, Objects()
    {
      P.System(Procs(), nextTid, log)
    }

    ghost predicate Apart()
      reads this`threads
    {
      AllApart(threads)
    }

    ghost predicate Valid()
      reads this, Objects()
    {
      Apart() && P.Inv(State())
    }

    constructor ()
      ensures Valid() && State() == P.Boot() && fresh(Objects())
    {
      var main := new Thread(1, [1]);
      threads, nextTid, log := map[1 := main], 2, [];
      new;
      P.BootOk();
      assert Procs() == P.Boot().procs;
    }

    // ---- What happens to one thread alone. ----

    method SetPc(t: Tid, pc: P.Pc)
      requires Apart() && t in threads
      modifies threads[t]
      ensures Procs() == old(Procs())[t := old(Procs())[t].(pc := pc)]
    {
      threads[t].pc := pc;
    }

    method SetChildren(t: Tid, children: seq<Tid>)
      requires Apart() && t in threads
      modifies threads[t]
      ensures Procs() == old(Procs())[t := old(Procs())[t].(children := children)]
    {
      threads[t].children := children;
    }

    method StoreStatus(t: Tid, v: int)
      requires Apart() && t in threads
      modifies threads[t]
      ensures Procs() == old(Procs())[t := old(Procs())[t].(status := v)]
    {
      threads[t].status := v;
    }

    method DownChildSema(c: Tid, t: Tid) returns (done: bool)
      requires Apart() && c in threads && threads[c].childSema.Valid() && t !in threads[c].childSema.waiters
      modifies threads[c].childSema
      ensures Procs() == old(Procs())[c := old(Procs())[c].(childSema := Down(old(Procs())[c].childSema, t))]
      ensures done <==> old(Procs())[c].childSema.value > 0
    {
      hide SemaOk, Down;
      done := threads[c].childSema.DownStep(t);
    }

    method UpChildSema(c: Tid) returns (unblock: bool, w: Tid)
      requires Apart() && c in threads && threads[c].childSema.Valid()
      modifies threads[c].childSema
      ensures Procs() == old(Procs())[c := old(Procs())[c].(childSema := Up(old(Procs())[c].childSema))]
      ensures unblock <==> old(Procs())[c].childSema.waiters != []
      ensures unblock ==> w == old(Procs())[c].childSema.waiters[0]
    {
      hide SemaOk, Up;
      unblock, w := threads[c].childSema.UpStep();
    }

    method DownMemSema(c: Tid) returns (done: bool)
      requires Apart() && c in threads && threads[c].memSema.Valid() && c !in threads[c].memSema.waiters
      modifies threads[c].memSema
      ensures Procs() == old(Procs())[c := old(Procs())[c].(memSema := Down(old(Procs())[c].memSema, c))]
      ensures done <==> old(Procs())[c].memSema.value > 0
    {
      hide SemaOk, Down;
      done := threads[c].memSema.DownStep(c);
    }

    method UpMemSema(c: Tid) returns (unblock: bool, w: Tid)
      requires Apart() && c in threads && threads[c].memSema.Valid()
      modifies threads[c].memSema
      ensures Procs() == old(Procs())[c := old(Procs())[c].(memSema := Up(old(Procs())[c].memSema))]
      ensures unblock <==> old(Procs())[c].memSema.waiters != []
      ensures unblock ==> w == old(Procs())[c].memSema.waiters[0]
    {
      hide SemaOk, Up;
      unblock, w := threads[c].memSema.UpStep();
    }

    // ---- The steps. ----

    // exit (status) up to thread_exit.
    method SetStatus(t: Tid, v: int)
      requires Valid() && P.Enabled(State(), P.SetStatus(v), t)
      modifies Objects()
      ensures Valid() && State() == P.Step(old(State()), P.SetStatus(v), t)
    {
      hide P.Inv, Apart, Procs, Objects, Thread.View;
      P.InvKept(State(), P.SetStatus(v), t);
      KeysOfProcs(t);
      StoreStatus(t, v);
    }

    // thread_create.
    method Fork(t: Tid) returns (tid: Tid, ghost n: Thread)
      requires Valid() && P.Enabled(State(), P.Fork, t)
      modifies this, threads[t]
      ensures Valid() && State() == P.Step(old(State()), P.Fork, t)
      ensures tid == old(nextTid) && threads == old(threads)[tid := n]
      ensures fresh(n) && fresh(n.childSema) && fresh(n.memSema)
    {
      hide P.Inv, Apart, ApartFrom, Procs, Objects;
      FreshTid(State());
      ForkIsStep(State(), t);
      KeysOfProcs(t);
      tid := nextTid;
      SetChildren(t, threads[t].children + [tid]);
      var thread := MakeThread(t);
      n := thread;
      Enroll(tid, thread);
      KeysOfProcs(t);
      nextTid := nextTid + 1;
      assert State() == P.Forked(old(State()), t);
    }

    lemma KeysOfProcs(t: Tid)
      ensures Procs().Keys == threads.Keys && this !in Objects()
      ensures t in threads ==> Procs()[t] == threads[t].View() && Procs()[t].pc == threads[t].pc
                               && Procs()[t].children == threads[t].children && Procs()[t].status == threads[t].status
                               && Procs()[t].childSema == threads[t].childSema.S()
                               && Procs()[t].memSema == threads[t].memSema.S()
      ensures t in threads ==>
                threads[t] in Objects() && threads[t].childSema in Objects() && threads[t].memSema in Objects()
    {
    }

    method MakeThread(parent: Tid) returns (n: Thread)
      ensures fresh(n) && fresh(n.childSema) && fresh(n.memSema) && ApartFrom(n)
      ensures n.View() == P.Proc(P.Running, parent, [], 0, Init(0), Init(0)) && Procs() == old(Procs())
    {
      n := new Thread(parent, []);
    }

    ghost predicate ApartFrom(n: Thread)
      reads this`threads
    {
      Newcomer(threads, n)
    }

    method Enroll(tid: Tid, n: Thread)
      requires Apart() && ApartFrom(n) && tid !in threads
      modifies this`threads
      ensures Apart() && Procs() == old(Procs())[tid := n.View()] && threads == old(threads)[tid := n]
    {
      hide AllApart, Newcomer, Thread.View;
      NewcomerApart(threads, tid, n);
      threads := threads[tid := n];
    }

    // process_wait: the search of the child list.
    method CallWait(t: Tid, asked: Tid)
      requires Valid() && P.Enabled(State(), P.CallWait(asked), t)
      modifies this`log, Objects()
      ensures Valid() && State() == P.Step(old(State()), P.CallWait(asked), t)
    {
      hide P.Inv, Apart, Procs, Objects;
      P.InvKept(State(), P.CallWait(asked), t);
      KeysOfProcs(t);
      var l := threads[t].children;
      var i := 0;
      while i < |l| && l[i] != asked
        invariant i <= |l| && asked !in l[..i]
      {
        i := i + 1;
      }
      if i < |l| {
        SetPc(t, P.WaitDown(asked));
      } else {
        assert l[..i] == l;
        log := log + [P.Answer(t, asked, false, -1)];
      }
    }

    // sema_down (&t->childSema), one pass.
    method DownChild(t: Tid)
      requires Valid() && P.Enabled(State(), P.DownChild, t)
      modifies Objects()
      ensures Valid() && State() == P.Step(old(State()), P.DownChild, t)
    {
      hide P.Inv, Apart, Procs, Objects, Down, SemaOk, P.Forked, P.Called, P.Removed, P.WithRead;
      P.InvKept(State(), P.DownChild, t);
      KeysOfProcs(t);
      var c := threads[t].pc.child;
      KeysOfProcs(c);
      ChildReady(State(), t, c);
      var done := DownChildSema(c, t);
      SetPc(t, if done then P.ReadStatus(c) else P.WaitBlocked(c));
    }

    // int exit_status = t->exit_status.
    method ReadStatus(t: Tid)
      requires Valid() && P.Enabled(State(), P.Read, t)
      modifies Objects()
      ensures Valid() && State() == P.Step(old(State()), P.Read, t)
    {
      hide P.Inv, Apart, Procs, Objects;
      P.InvKept(State(), P.Read, t);
      KeysOfProcs(t);
      var c := threads[t].pc.child;
      KeysOfProcs(c);
      SetPc(t, P.Unlink(c, threads[c].status));
    }

    // list_remove (&t->child).
    method RemoveChild(t: Tid)
      requires Valid() && P.Enabled(State(), P.Remove, t)
      modifies Objects()
      ensures Valid() && State() == P.Step(old(State()), P.Remove, t)
    {
      hide P.Inv, Apart, Procs, Objects, P.Without;
      P.InvKept(State(), P.Remove, t);
      KeysOfProcs(t);
      var c, ret := threads[t].pc.child, threads[t].pc.ret;
      SetChildren(t, P.Without(threads[t].children, c));
      SetPc(t, P.UpMem(c, ret));
      assert State() == P.Step(old(State()), P.Remove, t);
    }

    // The woken child and its parent go on.
    method GoOn(t: Tid, c: Tid, unblock: bool, w: Tid)
      requires Apart() && t in threads && c in threads && (unblock ==> w == c)
      modifies Objects()
      ensures var m := if unblock then old(Procs())[c := old(Procs())[c].(pc := P.ExitWoken)] else old(Procs());
              Procs() == m[t := m[t].(pc := P.Running)]
    {
      hide Apart, Procs, Objects, Thread.View;
      KeysOfProcs(t);
      KeysOfProcs(c);
      if unblock {
        SetPc(w, P.ExitWoken);
      }
      KeysOfProcs(t);
      SetPc(t, P.Running);
    }

    // sema_up (&t->memSema), and the return.
    method WakeChild(t: Tid)
      requires Valid() && P.Enabled(State(), P.WakeChild, t)
      modifies this`log, Objects()
      ensures Valid() && State() == P.Step(old(State()), P.WakeChild, t)
    {
      hide P.Inv, Apart, Procs, Objects, Up, SemaOk, P.Forked, P.Called, P.Removed, P.WithRead, Thread.View, P.Told, P.Awaited, P.Downed;
      P.InvKept(State(), P.WakeChild, t);
      KeysOfProcs(t);
      var c, ret := threads[t].pc.child, threads[t].pc.ret;
      KeysOfProcs(c);
      SleeperIsChild(State(), t, c, ret);
      AnsweredProcs(State(), t, c, ret);
      var unblock, w := UpMemSema(c);
      GoOn(t, c, unblock, w);
      KeysOfProcs(t);
      log := log + [P.Answer(t, c, true, ret)];
      assert State() == P.Step(old(State()), P.WakeChild, t);
    }

    // thread_exit, into process_exit.
    method CallExit(t: Tid)
      requires Valid() && P.Enabled(State(), P.CallExit, t)
      modifies Objects()
      ensures Valid() && State() == P.Step(old(State()), P.CallExit, t)
    {
      hide P.Inv, Apart, Procs, Objects;
      P.InvKept(State(), P.CallExit, t);
      KeysOfProcs(t);
      SetPc(t, P.ExitUp);
    }

    // sema_up (&cur->childSema).
    method TellParent(t: Tid)
      requires Valid() && P.Enabled(State(), P.TellParent, t)
      modifies Objects()
      ensures Valid() && State() == P.Step(old(State()), P.TellParent, t)
    {
      hide P.Inv, Apart, Procs, Objects, Up, SemaOk, P.Forked, P.Called, P.Removed, P.WithRead, P.Answered, P.Awaited, P.Downed;
      P.InvKept(State(), P.TellParent, t);
      KeysOfProcs(t);
      SleeperIsParent(State(), t);
      ToldProcs(State(), t);
      var unblock, w := UpChildSema(t);
      SetPc(t, P.ExitDown);
      if unblock {
        KeysOfProcs(w);
        SetPc(w, P.WaitWoken(t));
      }
      assert State() == P.Step(old(State()), P.TellParent, t);
    }

    // sema_down (&cur->memSema), one pass.
    method AwaitParent(t: Tid)
      requires Valid() && P.Enabled(State(), P.AwaitParent, t)
      modifies Objects()
      ensures Valid() && State() == P.Step(old(State()), P.AwaitParent, t)
    {
      hide P.Inv, Apart, Procs, Objects, Down, SemaOk, P.Forked, P.Called, P.Removed, P.WithRead;
      P.InvKept(State(), P.AwaitParent, t);
      KeysOfProcs(t);
      NotAsleepYet(State(), t);
      var done := DownMemSema(t);
      SetPc(t, if done then P.Dying else P.ExitBlocked);
      assert State() == P.Step(old(State()), P.AwaitParent, t);
    }

    // palloc_free_page (prev) in the next thread's thread_schedule_tail.
    method Reap(t: Tid)
      requires Valid() && P.Enabled(State(), P.Reap, t)
      modifies Objects()
      ensures Valid() && State() == P.Step(old(State()), P.Reap, t)
    {
      hide P.Inv, Apart, Procs, Objects;
      P.InvKept(State(), P.Reap, t);
      KeysOfProcs(t);
      SetPc(t, P.Freed);
    }

    // One step, if the thread's place in the code allows it.
    method Do(a: P.Action, t: Tid)
      requires Valid()
      modifies this, Objects()
      ensures Valid() && State() == P.Next(old(State()), P.Event(a, t))
      ensures fresh(Objects() - old(Objects()))
    {
      hide P.Inv, P.Step, P.Allowed, Apart, Procs;
      KeysOfProcs(t);
      if t in threads && P.Allowed(threads[t].pc, threads.Keys, a, t) {
        match a
        case Fork =>
          var _, _ := Fork(t);
        case SetStatus(v) => SetStatus(t, v);
        case CallWait(asked) => CallWait(t, asked);
        case DownChild => DownChild(t);
        case Read => ReadStatus(t);
        case Remove => RemoveChild(t);
        case WakeChild => WakeChild(t);
        case CallExit => CallExit(t);
        case TellParent => TellParent(t);
        case AwaitParent => AwaitParent(t);
        case Reap => Reap(t);
      }
    }

    // Any schedule.
    method Run(events: seq<P.Event>)
      requires Valid()
      modifies this, Objects()
      ensures Valid() && State() == P.After(old(State()), events)
    {
      hide P.Inv, P.Step, P.Enabled, Apart, Procs, Objects;
      for n := 0 to |events|
        invariant Valid() && State() == P.After(old(State()), events[..n])
        invariant fresh(Objects() - old(Objects()))
      {
        assert events[..n + 1][..n] == events[..n];
        ghost var before := Objects();
        Do(events[n].a, events[n].t);
        assert fresh(before - old(Objects()));
        assert fresh(Objects() - before);
        assert forall o :: o in Objects() - old(Objects()) ==> o in before - old(Objects()) || o in Objects() - before;
      }
      assert events[..|events|] == events;
    }
  }

  // What the two steps that may wake another thread come to.
  lemma AnsweredProcs(s: P.System, t: Tid, c: Tid, ret: int)
    requires t in s.procs && c in s.procs && (s.procs[c].memSema.waiters == [] || s.procs[c].memSema.waiters == [c])
    ensures var p := s.procs[c];
            var m1 := s.procs[c := p.(memSema := Up(p.memSema))];
            var m2 := if p.memSema.waiters != [] then m1[c := m1[c].(pc := P.ExitWoken)] else m1;
            P.Answered(s, t, c, ret).procs == m2[t := m2[t].(pc := P.Running)]
  {
    hide Up;
  }

  lemma ToldProcs(s: P.System, t: Tid)
    requires t in s.procs
    requires s.procs[t].childSema.waiters != [] ==> s.procs[t].childSema.waiters[0] in s.procs
    ensures var p := s.procs[t];
            var m1 := s.procs[t := p.(childSema := Up(p.childSema))];
            var m2 := m1[t := m1[t].(pc := P.ExitDown)];
            P.Told(s, t).procs ==
            if p.childSema.waiters != [] then
              m2[p.childSema.waiters[0] := m2[p.childSema.waiters[0]].(pc := P.WaitWoken(t))]
            else m2
  {
    hide Up;
  }

  // A child asleep in process_exit is the one its parent wakes ...
  lemma SleeperIsChild(s: P.System, t: Tid, c: Tid, ret: int)
    requires P.Inv(s) && t in s.procs && s.procs[t].pc == P.UpMem(c, ret)
    ensures c in s.procs && SemaOk(s.procs[c].memSema)
    ensures s.procs[c].memSema.waiters == if s.procs[c].pc.ExitBlocked? then [c] else []
  {
    hide P.Inv, P.OwnOk, SemaOk;
    P.BusinessOf(s, t, c);
    P.WokenChild(s, t, c, ret);
  }

  // ... and a parent asleep in process_wait the one its child tells.
  lemma SleeperIsParent(s: P.System, t: Tid)
    requires P.Inv(s) && P.Enabled(s, P.TellParent, t)
    ensures SemaOk(s.procs[t].childSema)
    ensures s.procs[t].childSema.waiters != [] ==> s.procs[t].childSema.waiters[0] in s.procs
  {
    hide P.Inv, P.OwnOk, SemaOk;
    P.Facts(s, t);
    P.ToldChild(s, t);
  }

  lemma NotAsleepYet(s: P.System, t: Tid)
    requires P.Inv(s) && P.Enabled(s, P.AwaitParent, t)
    ensures SemaOk(s.procs[t].memSema) && t !in s.procs[t].memSema.waiters
  {
    hide P.Inv, P.OwnOk, SemaOk;
    P.Facts(s, t);
  }

  lemma ForkIsStep(s: P.System, t: Tid)
    requires P.Inv(s) && P.Enabled(s, P.Fork, t)
    ensures P.Inv(P.Forked(s, t))
  {
    hide P.Inv;
    P.InvKept(s, P.Fork, t);
  }

  lemma FreshTid(s: P.System)
    requires P.Inv(s)
    ensures s.nextTid !in s.procs
  {
    hide P.Inv;
    if s.nextTid in s.procs { P.Facts(s, s.nextTid); }
  }

  // The semaphore a parent is about to go down on is in order and it is not
  // asleep there.
  lemma ChildReady(s: P.System, t: Tid, c: Tid)
    requires P.Inv(s) && P.Enabled(s, P.DownChild, t) && c == s.procs[t].pc.child
    ensures SemaOk(s.procs[c].childSema) && t !in s.procs[c].childSema.waiters
  {
    hide P.Inv, P.OwnOk, SemaOk;
    P.BusinessOf(s, t, c);
  }
}
