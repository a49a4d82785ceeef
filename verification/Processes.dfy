// process_wait and process_exit under every interleaving: a parent and its
// children meet on two semaphores kept in the child's thread page.
module Processes {
  import opened Semaphores

  // Where a thread stands. The child it waits for is named by its tid.
  datatype Pc =
    | Running
    | WaitDown(child: Tid) | WaitBlocked(child: Tid) | WaitWoken(child: Tid)
    | ReadStatus(child: Tid) | Unlink(child: Tid, ret: int) | UpMem(child: Tid, ret: int)
    | ExitUp | ExitDown | ExitBlocked | ExitWoken
    | Dying | Freed

  // A thread's page. `parent` is history: whose child list it was put on.
  datatype Proc = Proc(pc: Pc, parent: Tid, children: seq<Tid>, status: int, childSema: Sema, memSema: Sema)

  // The outcome of one call of process_wait.
  datatype Answer = Answer(waiter: Tid, asked: Tid, found: bool, ret: int)

  datatype System = System(procs: map<Tid, Proc>, nextTid: Tid, log: seq<Answer>)

  // The first thread is put on its own child list.
  function Boot(): System {
    System(map[1 := Proc(Running, 1, [1], 0, Init(0), Init(0))], 2, [])
  }

  datatype Action =
    | Fork | SetStatus(v: int) | CallWait(asked: Tid) | DownChild | Read | Remove | WakeChild
    | CallExit | TellParent | AwaitParent | Reap

  predicate Enabled(s: System, a: Action, t: Tid) {
    t in s.procs && Allowed(s.procs[t].pc, s.procs.Keys, a, t)
  }

  predicate Allowed(pc: Pc, tids: set<Tid>, a: Action, t: Tid) {
    match a
    case Fork => pc.Running?
    case SetStatus(_) => pc.Running?
    case CallWait(_) => pc.Running?
    case DownChild => (pc.WaitDown? || pc.WaitWoken?) && pc.child in tids
    case Read => pc.ReadStatus? && pc.child in tids
    case Remove => pc.Unlink?
    case WakeChild => pc.UpMem? && pc.child in tids
    case CallExit => pc.Running?
    case TellParent => pc.ExitUp?
    case AwaitParent => pc.ExitDown? || pc.ExitWoken?
    case Reap => pc.Dying? && t != 1
  }

  function Set(s: System, t: Tid, p: Proc): System {
    s.(procs := s.procs[t := p])
  }

  // thread_create.
  function Forked(s: System, t: Tid): System
    requires t in s.procs
  {
    var p, n := s.procs[t], s.nextTid;
    s.(procs := s.procs[t := p.(children := p.children + [n])][n := Proc(Running, t, [], 0, Init(0), Init(0))],
       nextTid := n + 1)
  }

  // process_wait up to its sema_down; an unknown tid returns -1 at once.
  function Called(s: System, t: Tid, asked: Tid): System
    requires t in s.procs
  {
    if asked in s.procs[t].children then Set(s, t, s.procs[t].(pc := WaitDown(asked)))
    else s.(log := s.log + [Answer(t, asked, false, -1)])
  }

  // A pass through sema_down (&child->childSema).
  function Downed(s: System, t: Tid, c: Tid): System
    requires t in s.procs && c in s.procs
  {
    var s' := Set(s, c, s.procs[c].(childSema := Down(s.procs[c].childSema, t)));
    Set(s', t, s'.procs[t].(pc := if s.procs[c].childSema.value == 0 then WaitBlocked(c) else ReadStatus(c)))
  }

  function WithRead(s: System, t: Tid, c: Tid): System
    requires t in s.procs && c in s.procs
  {
    Set(s, t, s.procs[t].(pc := Unlink(c, s.procs[c].status)))
  }

  // list_remove.
  function Without(l: seq<Tid>, c: Tid): seq<Tid> {
    if l == [] then [] else if l[0] == c then l[1..] else [l[0]] + Without(l[1..], c)
  }

  function Removed(s: System, t: Tid, c: Tid, ret: int): System
    requires t in s.procs
  {
    Set(s, t, s.procs[t].(children := Without(s.procs[t].children, c), pc := UpMem(c, ret)))
  }

  // sema_up (&child->memSema), then the return.
  function Answered(s: System, t: Tid, c: Tid, ret: int): System
    requires t in s.procs && c in s.procs
  {
    var p := s.procs[c];
    var s' := Set(s, c, p.(memSema := Up(p.memSema), pc := if p.memSema.waiters == [c] then ExitWoken else p.pc));
    Set(s', t, s'.procs[t].(pc := Running)).(log := s.log + [Answer(t, c, true, ret)])
  }

  // process_exit: sema_up (&cur->childSema) ...
  function Told(s: System, t: Tid): System
    requires t in s.procs
  {
    var p := s.procs[t];
    var s' := Set(s, t, p.(childSema := Up(p.childSema), pc := ExitDown));
    if p.childSema.waiters != [] && p.childSema.waiters[0] in s'.procs then
      var w := p.childSema.waiters[0];
      Set(s', w, s'.procs[w].(pc := WaitWoken(t)))
    else s'
  }

  // ... and a pass through sema_down (&cur->memSema).
  function Awaited(s: System, t: Tid): System
    requires t in s.procs
  {
    var p := s.procs[t];
    Set(s, t, p.(memSema := Down(p.memSema, t), pc := if p.memSema.value == 0 then ExitBlocked else Dying))
  }

  function Step(s: System, a: Action, t: Tid): System
    requires Enabled(s, a, t)
  {
    var p := s.procs[t];
    match a
    case Fork => Forked(s, t)
    case SetStatus(v) => Set(s, t, p.(status := v))
    case CallWait(asked) => Called(s, t, asked)
    case DownChild => Downed(s, t, p.pc.child)
    case Read => WithRead(s, t, p.pc.child)
    case Remove => Removed(s, t, p.pc.child, p.pc.ret)
    case WakeChild => Answered(s, t, p.pc.child, p.pc.ret)
    case CallExit => Set(s, t, p.(pc := ExitUp))
    case TellParent => Told(s, t)
    case AwaitParent => Awaited(s, t)
    case Reap => Set(s, t, p.(pc := Freed))
  }

  // ---- The invariant, one child at a time. ----

  // How far a child has come on its way out.
  datatype Stage = Alive | AtDown | Asleep | Woken | Passed

  function StageOf(pc: Pc): Stage {
    match pc
    case ExitDown => AtDown
    case ExitBlocked => Asleep
    case ExitWoken => Woken
    case Dying => Passed
    case Freed => Passed
    case _ => Alive
  }

  // What the parent is doing about this child.
  datatype Business = Nothing | Before | Sleeping | Roused | Reading | Unlinking(ret: int) | Waking(ret: int)

  function BusinessWith(pc: Pc, c: Tid): Business {
    match pc
    case WaitDown(d) => if d == c then Before else Nothing
    case WaitBlocked(d) => if d == c then Sleeping else Nothing
    case WaitWoken(d) => if d == c then Roused else Nothing
    case ReadStatus(d) => if d == c then Reading else Nothing
    case Unlink(d, r) => if d == c then Unlinking(r) else Nothing
    case UpMem(d, r) => if d == c then Waking(r) else Nothing
    case _ => Nothing
  }

  // The child's own state against the parent's: `linked` says that it is on the
  // child list, `answered` that a process_wait returned its status.
  ghost predicate ChildOk(c: Tid, parent: Tid, st: Stage, status: int, up: Sema, down: Sema,
                          linked: bool, b: Business, answered: bool) {
    && SemaOk(up) && SemaOk(down)
    && (!linked ==> !st.Alive?)
    && (b.Reading? || b.Unlinking? || b.Waking? || b.Roused? ==> !st.Alive?)
    && (b.Sleeping? ==> st.Alive?)
    && (b.Waking? ==> !linked) && (!b.Waking? && !b.Nothing? ==> linked)
    && (b.Unlinking? || b.Waking? ==> b.ret == status)
    && (answered <==> !linked && !b.Waking?)
    && up.value == (if !st.Alive? && linked && !b.Reading? && !b.Unlinking? then 1 else 0)
    && up.waiters == (if b.Sleeping? then [parent] else [])
    && down.value == (if answered && !st.Passed? then 1 else 0)
    && down.waiters == (if st.Asleep? then [c] else [])
    && (st.Asleep? ==> !answered) && (st.Woken? || st.Passed? ==> answered)
  }

  // The wait that returned the status of child c.
  ghost predicate AnsweredIn(log: seq<Answer>, parent: Tid, c: Tid, status: int) {
    Answer(parent, c, true, status) in log
  }

  ghost predicate ProcOk(s: System, c: Tid)
    requires c in s.procs
  {
    var p := s.procs[c];
    && c < s.nextTid && p.parent in s.procs
    && var q := s.procs[p.parent];
       ChildOk(c, p.parent, StageOf(p.pc), p.status, p.childSema, p.memSema, c in q.children,
               BusinessWith(q.pc, c), AnsweredIn(s.log, p.parent, c, p.status))
  }

  // A thread has no business with any but its own children.
  ghost predicate OwnOk(s: System, t: Tid)
    requires t in s.procs
  {
    && Distinct(s.procs[t].children)
    && (forall c :: c in s.procs[t].children ==> c in s.procs && s.procs[c].parent == t)
    && (forall c :: !BusinessWith(s.procs[t].pc, c).Nothing? ==> c in s.procs && s.procs[c].parent == t)
  }

  // Every answer is -1 for a thread that was not on the list, or what the child stored.
  ghost predicate LogOk(s: System) {
    forall k :: 0 <= k < |s.log| ==> AnswerOk(s, s.log[k])
  }

  ghost predicate AnswerOk(s: System, a: Answer) {
    if a.found then
      a.asked in s.procs && s.procs[a.asked].parent == a.waiter && s.procs[a.asked].status == a.ret
      && !StageOf(s.procs[a.asked].pc).Alive?
    else a.ret == -1
  }

  ghost predicate Inv(s: System) {
    && (forall c :: c in s.procs ==> ProcOk(s, c))
    && (forall t :: t in s.procs ==> OwnOk(s, t))
    && LogOk(s) && 1 in s.procs && s.procs[1].parent == 1
  }

  // ---- What stays. ----

  // The invariant sees no difference for child c.
  ghost predicate SameChild(s: System, s': System, c: Tid) {
    && c in s.procs && c in s'.procs && s.procs[c].parent in s.procs && s.procs[c].parent in s'.procs
    && var p, p' := s.procs[c], s'.procs[c];
    var q, q' := s.procs[p.parent], s'.procs[p.parent];
    && p'.parent == p.parent && StageOf(p'.pc) == StageOf(p.pc) && p'.status == p.status
    && p'.childSema == p.childSema && p'.memSema == p.memSema
    && (c in q'.children <==> c in q.children) && BusinessWith(q'.pc, c) == BusinessWith(q.pc, c)
    && (AnsweredIn(s'.log, p.parent, c, p.status) <==> AnsweredIn(s.log, p.parent, c, p.status))
    && s'.nextTid >= s.nextTid
  }

  lemma ProcKept(s: System, s': System, c: Tid)
    requires SameChild(s, s', c) && ProcOk(s, c)
    ensures ProcOk(s', c)
  {
    hide ChildOk, StageOf, BusinessWith, AnsweredIn;
  }

  // Threads only ever appear, keep their parent, and once on their way out
  // stay so with the status they have.
  ghost predicate Later(s: System, s': System) {
    forall c :: c in s.procs ==> LaterAt(s, s', c)
  }

  ghost predicate LaterAt(s: System, s': System, c: Tid)
    requires c in s.procs
  {
    && c in s'.procs && s'.procs[c].parent == s.procs[c].parent
    && (!StageOf(s.procs[c].pc).Alive? ==>
          !StageOf(s'.procs[c].pc).Alive? && s'.procs[c].status == s.procs[c].status)
  }

  lemma OwnKept(s: System, s': System, t: Tid)
    requires t in s.procs && OwnOk(s, t) && Later(s, s') && t in s'.procs
    requires s'.procs[t].children == s.procs[t].children
    requires forall c :: !BusinessWith(s'.procs[t].pc, c).Nothing? ==> !BusinessWith(s.procs[t].pc, c).Nothing?
    ensures OwnOk(s', t)
  {
    hide Distinct, BusinessWith, StageOf;
    forall c | c in s'.procs[t].children || !BusinessWith(s'.procs[t].pc, c).Nothing?
      ensures c in s'.procs && s'.procs[c].parent == t
    {
      assert c in s.procs && LaterAt(s, s', c);
    }
  }

  lemma LogKept(s: System, s': System, added: seq<Answer>)
    requires LogOk(s) && Later(s, s') && s'.log == s.log + added && forall a :: a in added ==> AnswerOk(s', a)
    ensures LogOk(s')
  {
    hide StageOf;
    forall k | 0 <= k < |s'.log|
      ensures AnswerOk(s', s'.log[k])
    {
      if k < |s.log| {
        assert AnswerOk(s, s.log[k]);
        if s.log[k].found { assert LaterAt(s, s', s.log[k].asked); }
      } else {
        assert s'.log[k] in added;
      }
    }
  }

  lemma SameLog(s: System)
    ensures s.log == s.log + []
  {
  }

  // ---- Each step keeps the invariant. ----

  lemma Facts(s: System, c: Tid)
    requires Inv(s) && c in s.procs
    ensures ProcOk(s, c) && OwnOk(s, c) && s.procs[c].parent in s.procs && c < s.nextTid
  {
    hide LogOk, OwnOk, ChildOk, StageOf, BusinessWith, AnsweredIn;
    assert ProcOk(s, c);
  }

  lemma ForkKept(s: System, t: Tid)
    requires Inv(s) && Enabled(s, Fork, t)
    ensures Inv(Forked(s, t)) && Later(s, Forked(s, t))
  {
    hide ProcOk, OwnOk, LogOk;
    var s', n := Forked(s, t), s.nextTid;
    if n in s.procs { Facts(s, n); }
    LaterForked(s, t);
    hide Later;
    forall c | c in s'.procs
      ensures ProcOk(s', c) && OwnOk(s', c)
    {
      Facts(s, t);
      if c == n {
        NewChild(s, t);
      } else {
        Facts(s, c);
        ForkElsewhere(s, t, c);
      }
    }
    SameLog(s);
    LogKept(s, s', []);
  }

  lemma LaterForked(s: System, t: Tid)
    requires t in s.procs && s.nextTid !in s.procs
    ensures Later(s, Forked(s, t))
  {
  }

  lemma ForkElsewhere(s: System, t: Tid, c: Tid)
    requires t in s.procs && s.nextTid !in s.procs && c in s.procs && ProcOk(s, c) && OwnOk(s, c)
    ensures ProcOk(Forked(s, t), c) && OwnOk(Forked(s, t), c)
  {
    hide ChildOk, StageOf, BusinessWith, AnsweredIn;
    var s', n := Forked(s, t), s.nextTid;
    var l := s.procs[t].children;
    assert forall d :: d in l + [n] <==> d in l || d == n;
    ProcKept(s, s', c);
    if c == t {
      OneMore(l, n);
    } else {
      LaterForked(s, t);
      hide Distinct;
      OwnKept(s, s', c);
    }
  }

  lemma OneMore(l: seq<Tid>, n: Tid)
    requires Distinct(l) && n !in l
    ensures Distinct(l + [n])
  {
  }

  lemma NewChild(s: System, t: Tid)
    requires Inv(s) && t in s.procs && s.nextTid !in s.procs
    ensures ProcOk(Forked(s, t), s.nextTid) && OwnOk(Forked(s, t), s.nextTid)
  {
    hide ProcOk, LogOk, OwnOk, ChildOk, BusinessWith, AnsweredIn;
    var s', n := Forked(s, t), s.nextTid;
    Facts(s, t);
    Unanswered(s, t, n);
    NoBusiness(s, t, n);
    NewChildOk(n, t);
    hide Inv;
    NewProcOk(s', n, t);
    NewOwnOk(s', n);
  }

  lemma NoBusiness(s: System, t: Tid, n: Tid)
    requires t in s.procs && OwnOk(s, t) && n !in s.procs
    ensures BusinessWith(s.procs[t].pc, n).Nothing?
  {
  }

  lemma NewProcOk(s: System, n: Tid, t: Tid)
    requires n in s.procs && s.procs[n] == Proc(Running, t, [], 0, Init(0), Init(0)) && t in s.procs && n < s.nextTid
    requires s.procs[t].children != [] && s.procs[t].children[|s.procs[t].children| - 1] == n
    requires BusinessWith(s.procs[t].pc, n).Nothing? && !AnsweredIn(s.log, t, n, 0)
    requires ChildOk(n, t, Alive, 0, Init(0), Init(0), true, Nothing, false)
    ensures ProcOk(s, n)
  {
    hide ChildOk, BusinessWith, AnsweredIn;
  }

  lemma NewOwnOk(s: System, n: Tid)
    requires n in s.procs && s.procs[n].children == [] && s.procs[n].pc.Running?
    ensures OwnOk(s, n)
  {
  }

  lemma NewChildOk(n: Tid, t: Tid)
    ensures ChildOk(n, t, Alive, 0, Init(0), Init(0), true, Nothing, false)
  {
  }

  lemma Unanswered(s: System, t: Tid, n: Tid)
    requires LogOk(s) && n !in s.procs
    ensures !AnsweredIn(s.log, t, n, 0)
  {
  }

  // The record of thread u after a step that concerns child c alone: what
  // other threads can tell from it is as before.
  ghost predicate RecSame(p: Proc, p': Proc, u: Tid, c: Tid) {
    && p'.parent == p.parent
    && (u != c ==> StageOf(p'.pc) == StageOf(p.pc) && p'.status == p.status
                   && p'.childSema == p.childSema && p'.memSema == p.memSema)
    && forall d :: d != c ==> (d in p'.children <==> d in p.children) && BusinessWith(p'.pc, d) == BusinessWith(p.pc, d)
  }

  // A thread other than the one that takes the step at most goes on with its
  // business with c.
  ghost predicate OwnSame(p: Proc, p': Proc, c: Tid) {
    p'.children == p.children && (!BusinessWith(p'.pc, c).Nothing? ==> !BusinessWith(p.pc, c).Nothing?)
  }

  ghost predicate About(added: seq<Answer>, c: Tid) {
    forall a :: a in added && a.found ==> a.asked == c
  }

  lemma StepKept(s: System, s': System, c: Tid, t: Tid, added: seq<Answer>)
    requires Inv(s) && s'.procs.Keys == s.procs.Keys && s'.nextTid == s.nextTid
    requires c in s.procs && ProcOk(s', c) && LaterAt(s, s', c) && t in s.procs && OwnOk(s', t)
    requires forall u :: u in s.procs ==> RecSame(s.procs[u], s'.procs[u], u, c)
    requires forall u :: u in s.procs && u != t ==> OwnSame(s.procs[u], s'.procs[u], c)
    requires s'.log == s.log + added && About(added, c) && forall a :: a in added ==> AnswerOk(s', a)
    ensures Inv(s') && Later(s, s')
  {
    hide ProcOk, OwnOk, LogOk, SameChild, AnswerOk, SameOwner, RecSame, About, OwnSame, LaterAt;
    forall d | d in s.procs
      ensures LaterAt(s, s', d)
    {
      if d != c { RecLater(s, s', d, c); }
    }
    assert Later(s, s');
    hide Later;
    forall d | d in s'.procs
      ensures ProcOk(s', d) && OwnOk(s', d)
    {
      Facts(s, d);
      if d != c {
        RecChild(s, s', d, c, added);
        ProcKept(s, s', d);
      }
      if d != t {
        RecOwner(s, s', d, c);
        OwnerKept(s, s', d);
      }
    }
    LogKept(s, s', added);
    FirstKept(s, s');
  }

  lemma RecLater(s: System, s': System, d: Tid, c: Tid)
    requires d in s.procs && d in s'.procs && d != c && RecSame(s.procs[d], s'.procs[d], d, c)
    ensures LaterAt(s, s', d)
  {
    hide StageOf, BusinessWith;
  }

  lemma RecOwner(s: System, s': System, d: Tid, c: Tid)
    requires d in s.procs && d in s'.procs && RecSame(s.procs[d], s'.procs[d], d, c) && OwnSame(s.procs[d], s'.procs[d], c)
    ensures SameOwner(s, s', d)
  {
    hide StageOf, BusinessWith;
  }

  lemma RecChild(s: System, s': System, d: Tid, c: Tid, added: seq<Answer>)
    requires s'.procs.Keys == s.procs.Keys && d in s.procs && d != c && s.procs[d].parent in s.procs
    requires RecSame(s.procs[d], s'.procs[d], d, c) && s'.nextTid == s.nextTid
    requires RecSame(s.procs[s.procs[d].parent], s'.procs[s.procs[d].parent], s.procs[d].parent, c)
    requires s'.log == s.log + added && About(added, c)
    ensures SameChild(s, s', d)
  {
    hide StageOf, BusinessWith;
  }

  lemma FirstKept(s: System, s': System)
    requires 1 in s.procs && s.procs[1].parent == 1 && Later(s, s')
    ensures 1 in s'.procs && s'.procs[1].parent == 1
  {
    assert LaterAt(s, s', 1);
  }

  ghost predicate SameOwner(s: System, s': System, u: Tid) {
    && u in s.procs && u in s'.procs && s'.procs[u].children == s.procs[u].children
    && forall c :: !BusinessWith(s'.procs[u].pc, c).Nothing? ==> !BusinessWith(s.procs[u].pc, c).Nothing?
  }

  lemma OwnerKept(s: System, s': System, u: Tid)
    requires SameOwner(s, s', u) && OwnOk(s, u) && Later(s, s')
    ensures OwnOk(s', u)
  {
    hide OwnOk, Later, BusinessWith;
    OwnKept(s, s', u);
  }

  // ---- The child's side of each step. ----

  lemma StatusSet(c: Tid, p: Tid, v: int, w: int, up: Sema, down: Sema, b: Business)
    requires ChildOk(c, p, Alive, v, up, down, true, b, false)
    ensures ChildOk(c, p, Alive, w, up, down, true, b, false)
  {
  }

  lemma WaitBegun(c: Tid, p: Tid, st: Stage, v: int, up: Sema, down: Sema, answered: bool)
    requires ChildOk(c, p, st, v, up, down, true, Nothing, answered)
    ensures ChildOk(c, p, st, v, up, down, true, Before, answered)
  {
    hide SemaOk;
  }

  lemma ParentTested(c: Tid, p: Tid, st: Stage, v: int, up: Sema, down: Sema, linked: bool, b: Business, answered: bool)
    requires ChildOk(c, p, st, v, up, down, linked, b, answered) && (b.Before? || b.Roused?)
    ensures ChildOk(c, p, st, v, Down(up, p), down, linked, if up.value == 0 then Sleeping else Reading, answered)
  {
    DownOk(up, p);
    hide SemaOk;
  }

  lemma StatusRead(c: Tid, p: Tid, st: Stage, v: int, up: Sema, down: Sema, linked: bool, answered: bool)
    requires ChildOk(c, p, st, v, up, down, linked, Reading, answered)
    ensures ChildOk(c, p, st, v, up, down, linked, Unlinking(v), answered)
  {
    hide SemaOk;
  }

  lemma Unlinked(c: Tid, p: Tid, st: Stage, v: int, up: Sema, down: Sema, linked: bool, r: int, answered: bool)
    requires ChildOk(c, p, st, v, up, down, linked, Unlinking(r), answered)
    ensures linked && !answered && ChildOk(c, p, st, v, up, down, false, Waking(r), answered)
  {
    hide SemaOk;
  }

  lemma ChildWoken(c: Tid, p: Tid, st: Stage, v: int, up: Sema, down: Sema, linked: bool, r: int, answered: bool)
    requires ChildOk(c, p, st, v, up, down, linked, Waking(r), answered)
    ensures r == v && !answered && down.waiters == (if st.Asleep? then [c] else [])
    ensures ChildOk(c, p, if down.waiters == [c] then Woken else st, v, up, Up(down), linked, Nothing, true)
  {
    UpOk(down);
    hide SemaOk;
  }

  lemma ParentTold(c: Tid, p: Tid, v: int, up: Sema, down: Sema, linked: bool, b: Business, answered: bool)
    requires ChildOk(c, p, Alive, v, up, down, linked, b, answered)
    ensures up.waiters == (if b.Sleeping? then [p] else [])
    ensures ChildOk(c, p, AtDown, v, Up(up), down, linked, if b.Sleeping? then Roused else b, answered)
  {
    UpOk(up);
    hide SemaOk;
  }

  lemma ParentAwaited(c: Tid, p: Tid, st: Stage, v: int, up: Sema, down: Sema, linked: bool, b: Business, answered: bool)
    requires ChildOk(c, p, st, v, up, down, linked, b, answered) && (st.AtDown? || st.Woken?)
    ensures ChildOk(c, p, if down.value == 0 then Asleep else Passed, v, up, Down(down, c), linked, b, answered)
  {
    DownOk(down, c);
    hide SemaOk;
  }

  // ---- The steps themselves. ----

  lemma NotAnswered(s: System, c: Tid, v: int)
    requires LogOk(s) && c in s.procs && StageOf(s.procs[c].pc).Alive?
    ensures !AnsweredIn(s.log, s.procs[c].parent, c, v)
  {
  }

  lemma StatusKept(s: System, t: Tid, v: int)
    requires Inv(s) && Enabled(s, SetStatus(v), t)
    ensures Inv(Step(s, SetStatus(v), t)) && Later(s, Step(s, SetStatus(v), t))
  {
    hide LogOk, ChildOk, OwnOk, AnsweredIn, Inv;
    var s' := Step(s, SetStatus(v), t);
    Facts(s, t);
    StatusChild(s, t, v);
    SameLog(s);
    OwnKept(s, s', t);
    StepKept(s, s', t, t, []);
  }

  lemma StatusChild(s: System, t: Tid, v: int)
    requires Inv(s) && Enabled(s, SetStatus(v), t)
    ensures ProcOk(Step(s, SetStatus(v), t), t)
  {
    hide LogOk, ChildOk, OwnOk, AnsweredIn;
    var p := s.procs[t];
    Facts(s, t);
    NotAnswered(s, t, p.status);
    NotAnswered(s, t, v);
    hide Inv;
    LinkedAlive(s, t);
    StatusSet(t, p.parent, p.status, v, p.childSema, p.memSema, BusinessWith(s.procs[p.parent].pc, t));
  }

  lemma LinkedAlive(s: System, c: Tid)
    requires c in s.procs && ProcOk(s, c) && StageOf(s.procs[c].pc).Alive?
    ensures c in s.procs[s.procs[c].parent].children
  {
  }

  // A change of pc alone that other threads cannot tell.
  lemma PcKept(s: System, t: Tid, pc: Pc)
    requires Inv(s) && t in s.procs && StageOf(pc) == StageOf(s.procs[t].pc)
    requires forall d :: BusinessWith(pc, d) == BusinessWith(s.procs[t].pc, d)
    ensures Inv(Set(s, t, s.procs[t].(pc := pc))) && Later(s, Set(s, t, s.procs[t].(pc := pc)))
  {
    hide Inv, ProcOk, OwnOk, LogOk, StageOf, BusinessWith;
    var s' := Set(s, t, s.procs[t].(pc := pc));
    Facts(s, t);
    ProcKept(s, s', t);
    OwnKept(s, s', t);
    SameLog(s);
    StepKept(s, s', t, t, []);
  }

  lemma CallKept(s: System, t: Tid, asked: Tid)
    requires Inv(s) && Enabled(s, CallWait(asked), t) && asked in s.procs[t].children
    ensures Inv(Called(s, t, asked)) && Later(s, Called(s, t, asked))
  {
    hide LogOk, Distinct, Inv, ProcOk;
    var s' := Called(s, t, asked);
    Facts(s, t);
    Facts(s, asked);
    CalledChild(s, t, asked);
    SameLog(s);
    StepKept(s, s', asked, t, []);
  }

  lemma CalledChild(s: System, t: Tid, c: Tid)
    requires t in s.procs && c in s.procs && s.procs[c].parent == t && ProcOk(s, c)
    requires s.procs[t].pc.Running? && c in s.procs[t].children
    ensures ProcOk(Called(s, t, c), c)
  {
    hide ChildOk, AnsweredIn;
    var p := s.procs[c];
    WaitBegun(c, t, StageOf(p.pc), p.status, p.childSema, p.memSema, AnsweredIn(s.log, t, c, p.status));
  }

  lemma RefusedKept(s: System, t: Tid, asked: Tid)
    requires Inv(s) && t in s.procs && asked !in s.procs[t].children
    ensures Inv(Called(s, t, asked)) && Later(s, Called(s, t, asked))
  {
    hide LogOk, OwnOk, Inv, ProcOk, BusinessWith, StageOf;
    var s' := Called(s, t, asked);
    Facts(s, t);
    ProcKept(s, s', t);
    OwnKept(s, s', t);
    StepKept(s, s', t, t, [Answer(t, asked, false, -1)]);
  }

  // The child a thread is doing business with.
  lemma BusinessOf(s: System, t: Tid, c: Tid)
    requires Inv(s) && t in s.procs && !BusinessWith(s.procs[t].pc, c).Nothing?
    ensures c in s.procs && s.procs[c].parent == t && ProcOk(s, c) && OwnOk(s, t)
  {
    hide ProcOk, BusinessWith, LogOk, Distinct, Inv;
    Facts(s, t);
    Facts(s, c);
  }

  lemma DownKept(s: System, t: Tid)
    requires Inv(s) && Enabled(s, DownChild, t)
    ensures Inv(Step(s, DownChild, t)) && Later(s, Step(s, DownChild, t))
  {
    hide LogOk, Inv, ProcOk, OwnOk;
    var c := s.procs[t].pc.child;
    BusinessOf(s, t, c);
    var s' := Downed(s, t, c);
    DownedChild(s, t, c);
    DownedRest(s, t, c);
    hide BusinessWith, StageOf;
    OwnKept(s, s', t);
    SameLog(s);
    StepKept(s, s', c, t, []);
  }

  lemma DownedChild(s: System, t: Tid, c: Tid)
    requires t in s.procs && c in s.procs && s.procs[c].parent == t && ProcOk(s, c)
    requires s.procs[t].pc == WaitDown(c) || s.procs[t].pc == WaitWoken(c)
    ensures ProcOk(Downed(s, t, c), c)
  {
    hide ChildOk, AnsweredIn;
    var p, q := s.procs[c], s.procs[t];
    ParentTested(c, t, StageOf(p.pc), p.status, p.childSema, p.memSema, c in q.children, BusinessWith(q.pc, c),
                 AnsweredIn(s.log, t, c, p.status));
  }

  lemma DownedRest(s: System, t: Tid, c: Tid)
    requires t in s.procs && c in s.procs
    requires s.procs[t].pc == WaitDown(c) || s.procs[t].pc == WaitWoken(c)
    ensures var s' := Downed(s, t, c);
            && s'.procs.Keys == s.procs.Keys && LaterAt(s, s', c) && Later(s, s')
            && (forall u :: u in s.procs ==> RecSame(s.procs[u], s'.procs[u], u, c))
            && (forall u :: u in s.procs && u != t ==> OwnSame(s.procs[u], s'.procs[u], c))
  {
  }

  lemma ReadKept(s: System, t: Tid)
    requires Inv(s) && Enabled(s, Read, t)
    ensures Inv(Step(s, Read, t)) && Later(s, Step(s, Read, t))
  {
    hide LogOk, Inv, ProcOk, OwnOk;
    var c := s.procs[t].pc.child;
    BusinessOf(s, t, c);
    var s' := WithRead(s, t, c);
    ReadChild(s, t, c);
    ReadRest(s, t, c);
    hide BusinessWith, StageOf;
    OwnKept(s, s', t);
    SameLog(s);
    StepKept(s, s', c, t, []);
  }

  lemma ReadChild(s: System, t: Tid, c: Tid)
    requires t in s.procs && c in s.procs && s.procs[c].parent == t && ProcOk(s, c)
    requires s.procs[t].pc == ReadStatus(c)
    ensures ProcOk(WithRead(s, t, c), c)
  {
    hide ChildOk, AnsweredIn;
    var p, q := s.procs[c], s.procs[t];
    StatusRead(c, t, StageOf(p.pc), p.status, p.childSema, p.memSema, c in q.children,
               AnsweredIn(s.log, t, c, p.status));
  }

  lemma ReadRest(s: System, t: Tid, c: Tid)
    requires t in s.procs && c in s.procs && s.procs[t].pc == ReadStatus(c)
    ensures var s' := WithRead(s, t, c);
            && s'.procs.Keys == s.procs.Keys && LaterAt(s, s', c) && Later(s, s')
            && (forall u :: u in s.procs ==> RecSame(s.procs[u], s'.procs[u], u, c))
            && (forall u :: u in s.procs && u != t ==> OwnSame(s.procs[u], s'.procs[u], c))
  {
  }

  lemma DistinctCons(h: Tid, l: seq<Tid>)
    requires Distinct(l) && h !in l
    ensures Distinct([h] + l)
  {
  }

  lemma {:induction false} WithoutMembers(l: seq<Tid>, c: Tid)
    requires Distinct(l)
    ensures Distinct(Without(l, c)) && forall d :: d in Without(l, c) <==> d in l && d != c
  {
    if l != [] {
      assert l == [l[0]] + l[1..];
      assert forall i :: 1 <= i < |l| ==> l[i] != l[0];
      if l[0] != c {
        WithoutMembers(l[1..], c);
        assert forall d :: d in Without(l, c) <==> d == l[0] || d in Without(l[1..], c);
        DistinctCons(l[0], Without(l[1..], c));
      }
    }
  }

  lemma RemoveKept(s: System, t: Tid)
    requires Inv(s) && Enabled(s, Remove, t)
    ensures Inv(Step(s, Remove, t)) && Later(s, Step(s, Remove, t))
  {
    hide LogOk, Inv, ProcOk, OwnOk;
    var c, r := s.procs[t].pc.child, s.procs[t].pc.ret;
    BusinessOf(s, t, c);
    var s' := Removed(s, t, c, r);
    RemovedChild(s, t, c, r);
    RemovedRest(s, t, c, r);
    SameLog(s);
    hide BusinessWith, StageOf, Removed;
    StepKept(s, s', c, t, []);
  }

  lemma RemovedChild(s: System, t: Tid, c: Tid, r: int)
    requires t in s.procs && c in s.procs && s.procs[c].parent == t && ProcOk(s, c) && OwnOk(s, t)
    requires s.procs[t].pc == Unlink(c, r)
    ensures ProcOk(Removed(s, t, c, r), c)
  {
    hide ChildOk, AnsweredIn;
    var p, q := s.procs[c], s.procs[t];
    WithoutMembers(q.children, c);
    Unlinked(c, t, StageOf(p.pc), p.status, p.childSema, p.memSema, c in q.children, r,
             AnsweredIn(s.log, t, c, p.status));
  }

  lemma RemovedRest(s: System, t: Tid, c: Tid, r: int)
    requires t in s.procs && c in s.procs && s.procs[t].pc == Unlink(c, r) && OwnOk(s, t)
    ensures var s' := Removed(s, t, c, r);
            && s'.procs.Keys == s.procs.Keys && LaterAt(s, s', c) && Later(s, s') && OwnOk(s', t)
            && (forall u :: u in s.procs ==> RecSame(s.procs[u], s'.procs[u], u, c))
            && (forall u :: u in s.procs && u != t ==> OwnSame(s.procs[u], s'.procs[u], c))
  {
    WithoutMembers(s.procs[t].children, c);
    hide Distinct, Without;
  }

  lemma WakeKept(s: System, t: Tid)
    requires Inv(s) && Enabled(s, WakeChild, t)
    ensures Inv(Step(s, WakeChild, t)) && Later(s, Step(s, WakeChild, t))
  {
    hide LogOk, Inv, ProcOk, OwnOk;
    var c, r := s.procs[t].pc.child, s.procs[t].pc.ret;
    BusinessOf(s, t, c);
    var s' := Answered(s, t, c, r);
    WokenChild(s, t, c, r);
    WokenRest(s, t, c, r);
    hide BusinessWith, StageOf;
    OwnKept(s, s', t);
    hide Answered;
    StepKept(s, s', c, t, [Answer(t, c, true, r)]);
  }

  lemma WokenChild(s: System, t: Tid, c: Tid, r: int)
    requires t in s.procs && c in s.procs && s.procs[c].parent == t && ProcOk(s, c)
    requires s.procs[t].pc == UpMem(c, r)
    ensures ProcOk(Answered(s, t, c, r), c) && s.procs[c].status == r && !StageOf(s.procs[c].pc).Alive?
    ensures s.procs[c].memSema.waiters == if s.procs[c].pc.ExitBlocked? then [c] else []
    ensures !AnsweredIn(s.log, t, c, r)
  {
    hide ChildOk;
    var p, q := s.procs[c], s.procs[t];
    var s' := Answered(s, t, c, r);
    ChildWoken(c, t, StageOf(p.pc), p.status, p.childSema, p.memSema, c in q.children, r,
               AnsweredIn(s.log, t, c, p.status));
    WakingExits(s, t, c, r);
    assert s'.log[|s.log|] == Answer(t, c, true, r);
  }

  lemma WakingExits(s: System, t: Tid, c: Tid, r: int)
    requires t in s.procs && c in s.procs && s.procs[c].parent == t && ProcOk(s, c) && s.procs[t].pc == UpMem(c, r)
    ensures !StageOf(s.procs[c].pc).Alive? && c != t
  {
  }

  lemma WokenRest(s: System, t: Tid, c: Tid, r: int)
    requires t in s.procs && c in s.procs && s.procs[c].parent == t && ProcOk(s, c)
    requires s.procs[t].pc == UpMem(c, r)
    ensures var s' := Answered(s, t, c, r);
            && s'.procs.Keys == s.procs.Keys && LaterAt(s, s', c) && Later(s, s')
            && (forall u :: u in s.procs ==> RecSame(s.procs[u], s'.procs[u], u, c))
            && (forall u :: u in s.procs && u != t ==> OwnSame(s.procs[u], s'.procs[u], c))
            && AnswerOk(s', Answer(t, c, true, r)) && About([Answer(t, c, true, r)], c)
  {
    WokenChild(s, t, c, r);
    WakingExits(s, t, c, r);
    WokenRecs(s, t, c, r);
    hide ProcOk, AnsweredIn, Up, RecSame, OwnSame;
  }

  lemma WokenRecs(s: System, t: Tid, c: Tid, r: int)
    requires t in s.procs && c in s.procs && s.procs[c].parent == t && ProcOk(s, c)
    requires s.procs[t].pc == UpMem(c, r)
    ensures var s' := Answered(s, t, c, r);
            && (forall u :: u in s.procs ==> u in s'.procs && RecSame(s.procs[u], s'.procs[u], u, c))
            && (forall u :: u in s.procs && u != t ==> u in s'.procs && OwnSame(s.procs[u], s'.procs[u], c))
  {
    forall u | u in s.procs
      ensures var s' := Answered(s, t, c, r); u in s'.procs && RecSame(s.procs[u], s'.procs[u], u, c)
                                              && (u != t ==> OwnSame(s.procs[u], s'.procs[u], c))
    {
      WokenRec(s, t, c, r, u);
    }
    hide *;
  }

  lemma WokenRec(s: System, t: Tid, c: Tid, r: int, u: Tid)
    requires t in s.procs && c in s.procs && u in s.procs && s.procs[c].parent == t && ProcOk(s, c)
    requires s.procs[t].pc == UpMem(c, r)
    ensures var s' := Answered(s, t, c, r); u in s'.procs && RecSame(s.procs[u], s'.procs[u], u, c)
                                            && (u != t ==> OwnSame(s.procs[u], s'.procs[u], c))
  {
    WokenChild(s, t, c, r);
    WakingExits(s, t, c, r);
    hide ProcOk, AnsweredIn, Up;
  }

  lemma TellKept(s: System, t: Tid)
    requires Inv(s) && Enabled(s, TellParent, t)
    ensures Inv(Step(s, TellParent, t)) && Later(s, Step(s, TellParent, t))
  {
    hide LogOk, Inv, ProcOk, OwnOk;
    Facts(s, t);
    var s' := Told(s, t);
    ToldChild(s, t);
    ToldRest(s, t);
    hide BusinessWith, StageOf;
    SameLog(s);
    OwnKept(s, s', t);
    hide Told;
    StepKept(s, s', t, t, []);
  }

  lemma ToldChild(s: System, t: Tid)
    requires t in s.procs && ProcOk(s, t) && s.procs[t].pc.ExitUp?
    ensures ProcOk(Told(s, t), t)
    ensures s.procs[t].childSema.waiters ==
            if s.procs[s.procs[t].parent].pc == WaitBlocked(t) then [s.procs[t].parent] else []
  {
    hide ChildOk, AnsweredIn;
    var p := s.procs[t];
    var q := s.procs[p.parent];
    ParentTold(t, p.parent, p.status, p.childSema, p.memSema, t in q.children, BusinessWith(q.pc, t),
               AnsweredIn(s.log, p.parent, t, p.status));
  }

  lemma ToldRest(s: System, t: Tid)
    requires t in s.procs && ProcOk(s, t) && s.procs[t].pc.ExitUp?
    ensures var s' := Told(s, t);
            && s'.procs.Keys == s.procs.Keys && LaterAt(s, s', t) && Later(s, s')
            && (forall u :: u in s.procs ==> RecSame(s.procs[u], s'.procs[u], u, t))
            && (forall u :: u in s.procs && u != t ==> OwnSame(s.procs[u], s'.procs[u], t))
            && s'.procs[t].children == s.procs[t].children && s'.procs[t].pc.ExitDown? && s'.log == s.log
  {
    ToldRecs(s, t);
    ToldAt(s, t, t);
    hide ProcOk, Told, RecSame, OwnSame;
    forall u | u in s.procs
      ensures LaterAt(s, Told(s, t), u)
    {
      ToldAt(s, t, u);
    }
  }

  // What becomes of thread u.
  lemma ToldAt(s: System, t: Tid, u: Tid)
    requires t in s.procs && u in s.procs && ProcOk(s, t) && s.procs[t].pc.ExitUp?
    ensures Told(s, t).procs.Keys == s.procs.Keys && Told(s, t).log == s.log
    ensures Told(s, t).procs[u] ==
            if u == t then s.procs[t].(childSema := Up(s.procs[t].childSema), pc := ExitDown)
            else if u == s.procs[t].parent && s.procs[u].pc == WaitBlocked(t) then s.procs[u].(pc := WaitWoken(t))
            else s.procs[u]
  {
    ToldChild(s, t);
    hide Up;
    ParentThere(s, t);
    hide ProcOk;
  }

  lemma ParentThere(s: System, t: Tid)
    requires t in s.procs && ProcOk(s, t)
    ensures s.procs[t].parent in s.procs
  {
  }

  lemma ToldRecs(s: System, t: Tid)
    requires t in s.procs && ProcOk(s, t) && s.procs[t].pc.ExitUp?
    ensures var s' := Told(s, t);
            && (forall u :: u in s.procs ==> u in s'.procs && RecSame(s.procs[u], s'.procs[u], u, t))
            && (forall u :: u in s.procs && u != t ==> u in s'.procs && OwnSame(s.procs[u], s'.procs[u], t))
  {
    forall u | u in s.procs
      ensures var s' := Told(s, t); u in s'.procs && RecSame(s.procs[u], s'.procs[u], u, t)
                                    && (u != t ==> OwnSame(s.procs[u], s'.procs[u], t))
    {
      ToldRec(s, t, u);
    }
    hide *;
  }

  lemma ToldRec(s: System, t: Tid, u: Tid)
    requires t in s.procs && u in s.procs && ProcOk(s, t) && s.procs[t].pc.ExitUp?
    ensures var s' := Told(s, t); u in s'.procs && RecSame(s.procs[u], s'.procs[u], u, t)
                                  && (u != t ==> OwnSame(s.procs[u], s'.procs[u], t))
  {
    ToldAt(s, t, u);
    hide ProcOk, Told, Up;
  }

  lemma AwaitKept(s: System, t: Tid)
    requires Inv(s) && Enabled(s, AwaitParent, t)
    ensures Inv(Step(s, AwaitParent, t)) && Later(s, Step(s, AwaitParent, t))
  {
    hide LogOk, Inv, ProcOk, OwnOk;
    Facts(s, t);
    var s' := Awaited(s, t);
    AwaitedChild(s, t);
    AwaitedRest(s, t);
    hide BusinessWith, StageOf;
    SameLog(s);
    OwnKept(s, s', t);
    hide Awaited;
    StepKept(s, s', t, t, []);
  }

  lemma AwaitedChild(s: System, t: Tid)
    requires t in s.procs && ProcOk(s, t) && (s.procs[t].pc.ExitDown? || s.procs[t].pc.ExitWoken?)
    ensures ProcOk(Awaited(s, t), t)
  {
    hide ChildOk, AnsweredIn;
    var p := s.procs[t];
    var q := s.procs[p.parent];
    ParentAwaited(t, p.parent, StageOf(p.pc), p.status, p.childSema, p.memSema, t in q.children,
                  BusinessWith(q.pc, t), AnsweredIn(s.log, p.parent, t, p.status));
  }

  lemma AwaitedRest(s: System, t: Tid)
    requires t in s.procs && (s.procs[t].pc.ExitDown? || s.procs[t].pc.ExitWoken?)
    ensures var s' := Awaited(s, t);
            && s'.procs.Keys == s.procs.Keys && LaterAt(s, s', t) && Later(s, s')
            && (forall u :: u in s.procs ==> RecSame(s.procs[u], s'.procs[u], u, t))
            && (forall u :: u in s.procs && u != t ==> OwnSame(s.procs[u], s'.procs[u], t))
            && (forall d :: BusinessWith(s'.procs[t].pc, d).Nothing?)
  {
    hide Down;
  }

  lemma InvKept(s: System, a: Action, t: Tid)
    requires Inv(s) && Enabled(s, a, t)
    ensures Inv(Step(s, a, t)) && Later(s, Step(s, a, t))
  {
    hide Inv, Later, Forked, Called, Downed, WithRead, Removed, Answered, Told, Awaited;
    match a
    case Fork => ForkKept(s, t);
    case SetStatus(v) => StatusKept(s, t, v);
    case CallWait(asked) => if asked in s.procs[t].children { CallKept(s, t, asked); } else { RefusedKept(s, t, asked); }
    case DownChild => DownKept(s, t);
    case Read => ReadKept(s, t);
    case Remove => RemoveKept(s, t);
    case WakeChild => WakeKept(s, t);
    case CallExit => PcKept(s, t, ExitUp);
    case TellParent => TellKept(s, t);
    case AwaitParent => AwaitKept(s, t);
    case Reap => PcKept(s, t, Freed);
  }

  // ---- Whole runs. ----

  datatype Event = Event(a: Action, t: Tid)

  function Next(s: System, e: Event): System {
    if Enabled(s, e.a, e.t) then Step(s, e.a, e.t) else s
  }

  function After(s: System, events: seq<Event>): System {
    if events == [] then s else Next(After(s, events[..|events| - 1]), events[|events| - 1])
  }

  lemma BootOk()
    ensures Inv(Boot())
  {
    assert ProcOk(Boot(), 1) && OwnOk(Boot(), 1);
  }

  lemma {:induction false} EveryRunOk(events: seq<Event>)
    ensures Inv(After(Boot(), events))
  {
    hide Inv, Step, Enabled;
    if events == [] {
      BootOk();
    } else {
      EveryRunOk(events[..|events| - 1]);
      var s, e := After(Boot(), events[..|events| - 1]), events[|events| - 1];
      if Enabled(s, e.a, e.t) {
        InvKept(s, e.a, e.t);
      }
    }
  }

  lemma {:induction false} InvAfter(s: System, events: seq<Event>)
    requires Inv(s)
    ensures Inv(After(s, events)) && Later(s, After(s, events)) && s.log <= After(s, events).log
  {
    hide Inv, Step, Enabled;
    if events != [] {
      var rest, e := events[..|events| - 1], events[|events| - 1];
      InvAfter(s, rest);
      var m := After(s, rest);
      if Enabled(m, e.a, e.t) {
        InvKept(m, e.a, e.t);
        LogGrows(m, e.a, e.t);
        LaterTransitive(s, m, Step(m, e.a, e.t));
      }
    } else {
      assert Later(s, s);
    }
  }

  lemma LogGrows(s: System, a: Action, t: Tid)
    requires Enabled(s, a, t)
    ensures s.log <= Step(s, a, t).log
  {
  }

  lemma LaterTransitive(r: System, s: System, u: System)
    requires Later(r, s) && Later(s, u)
    ensures Later(r, u)
  {
    hide StageOf;
    forall c | c in r.procs
      ensures LaterAt(r, u, c)
    {
      assert LaterAt(r, s, c) && LaterAt(s, u, c);
    }
  }

  // ---- What the handshake is for. ----

  // A wait that found its child returns what the child stored before it began
  // to exit, and that never changes again; any other wait returns -1.
  lemma WaitReturnsStatus(events: seq<Event>, more: seq<Event>, a: Answer)
    requires a in After(Boot(), events).log
    ensures a.found ==> var s := After(After(Boot(), events), more);
                        a.asked in s.procs && s.procs[a.asked].parent == a.waiter && s.procs[a.asked].status == a.ret
    ensures !a.found ==> a.ret == -1
  {
    EveryRunOk(events);
    var s := After(Boot(), events);
    InvAfter(s, more);
    assert AnswerOk(s, a);
    hide ProcOk, OwnOk, StageOf;
    if a.found { assert LaterAt(s, After(s, more), a.asked); }
  }

  // No child's status is returned twice: once it is, every further wait for it
  // by any thread returns -1.
  lemma SecondWaitFails(events: seq<Event>, a: Answer, t: Tid)
    requires var s := After(Boot(), events); a in s.log && a.found && Enabled(s, CallWait(a.asked), t)
    ensures var s := After(Boot(), events);
            Step(s, CallWait(a.asked), t).log == s.log + [Answer(t, a.asked, false, -1)]
  {
    hide Inv;
    EveryRunOk(events);
    var s := After(Boot(), events);
    UnlinkedOnceAnswered(s, a, t);
  }

  lemma UnlinkedOnceAnswered(s: System, a: Answer, t: Tid)
    requires Inv(s) && a in s.log && a.found && t in s.procs
    ensures a.asked !in s.procs[t].children
  {
    hide ProcOk, OwnOk;
    assert AnswerOk(s, a);
    Facts(s, t);
    Facts(s, a.asked);
    hide Inv;
    ParentOf(s, t, a.asked);
    AnsweredMeansUnlinked(s, a.asked);
  }

  lemma ParentOf(s: System, t: Tid, c: Tid)
    requires t in s.procs && OwnOk(s, t)
    ensures c in s.procs[t].children ==> c in s.procs && s.procs[c].parent == t
  {
  }

  lemma AnsweredMeansUnlinked(s: System, c: Tid)
    requires c in s.procs && ProcOk(s, c)
    ensures s.procs[c].parent in s.procs
    ensures AnsweredIn(s.log, s.procs[c].parent, c, s.procs[c].status) <==>
              c !in s.procs[s.procs[c].parent].children && !BusinessWith(s.procs[s.procs[c].parent].pc, c).Waking?
  {
  }

  ghost predicate AnsweredOnce(log: seq<Answer>) {
    forall j, k :: 0 <= j < k < |log| && log[j].found && log[k].found ==> log[j].asked != log[k].asked
  }

  lemma {:induction false} EachAnsweredOnce(events: seq<Event>)
    ensures AnsweredOnce(After(Boot(), events).log)
  {
    hide Inv, Step, Enabled;
    if events != [] {
      var rest, e := events[..|events| - 1], events[|events| - 1];
      EachAnsweredOnce(rest);
      EveryRunOk(rest);
      var s := After(Boot(), rest);
      if Enabled(s, e.a, e.t) {
        NextAnswer(s, e.a, e.t);
      }
    }
  }

  lemma NextAnswer(s: System, a: Action, t: Tid)
    requires Inv(s) && Enabled(s, a, t) && AnsweredOnce(s.log)
    ensures AnsweredOnce(Step(s, a, t).log)
  {
    hide ProcOk, OwnOk, Down, Up;
    if a.WakeChild? {
      var c, r := s.procs[t].pc.child, s.procs[t].pc.ret;
      BusinessOf(s, t, c);
      WokenChild(s, t, c, r);
      forall j | 0 <= j < |s.log| && s.log[j].found
        ensures s.log[j].asked != c
      {
        assert AnswerOk(s, s.log[j]);
      }
    }
  }

  // The page of a thread is given back only after its parent has its status
  // and has taken it off the child list, and no thread can reach it then.
  lemma FreedOnlyAfterAnswer(events: seq<Event>, c: Tid)
    requires var s := After(Boot(), events); c in s.procs && StageOf(s.procs[c].pc).Passed?
    ensures var s := After(Boot(), events);
            && Answer(s.procs[c].parent, c, true, s.procs[c].status) in s.log
            && forall t :: t in s.procs ==> c !in s.procs[t].children && BusinessWith(s.procs[t].pc, c).Nothing?
  {
    hide Inv;
    EveryRunOk(events);
    var s := After(Boot(), events);
    PassedIsAnswered(s, c);
    forall t | t in s.procs
      ensures c !in s.procs[t].children && BusinessWith(s.procs[t].pc, c).Nothing?
    {
      Facts(s, t);
      hide ProcOk, StageOf, Distinct, BusinessWith;
    }
  }

  lemma PassedIsAnswered(s: System, c: Tid)
    requires Inv(s) && c in s.procs && StageOf(s.procs[c].pc).Passed?
    ensures s.procs[c].parent in s.procs && AnsweredIn(s.log, s.procs[c].parent, c, s.procs[c].status)
    ensures var q := s.procs[s.procs[c].parent]; c !in q.children && BusinessWith(q.pc, c).Nothing?
  {
    hide Inv;
    Facts(s, c);
  }

  // No wake-up is lost: nobody sleeps for an event that has happened, and a
  // thread that was woken gets past its semaphore at its next step.
  lemma NobodySleepsTooLong(events: seq<Event>, c: Tid)
    requires c in After(Boot(), events).procs
    ensures var s := After(Boot(), events);
            && s.procs[c].parent in s.procs
            && var p, q := s.procs[c], s.procs[s.procs[c].parent];
            && (q.pc == WaitBlocked(c) ==> StageOf(p.pc).Alive?)
            && (q.pc == WaitWoken(c) ==> p.childSema.value == 1)
            && (p.pc.ExitBlocked? ==> !AnsweredIn(s.log, p.parent, c, p.status))
            && (p.pc.ExitWoken? ==> p.memSema.value == 1)
  {
    hide Inv;
    EveryRunOk(events);
    var s := After(Boot(), events);
    Facts(s, c);
    hide OwnOk, AnsweredIn, SemaOk;
  }

  // A thread that exits gets past its last semaphore exactly if its status has
  // been returned to its parent, and sleeps there otherwise.
  lemma ExitPassesExactlyIfAnswered(events: seq<Event>, c: Tid)
    requires Enabled(After(Boot(), events), AwaitParent, c)
    ensures var s := After(Boot(), events);
            var p, p' := s.procs[c], Step(s, AwaitParent, c).procs[c];
            if AnsweredIn(s.log, p.parent, c, p.status) then p'.pc.Dying?
            else p'.pc.ExitBlocked? && p'.memSema.waiters == [c]
  {
    hide Inv;
    EveryRunOk(events);
    var s := After(Boot(), events);
    Facts(s, c);
    hide OwnOk, AnsweredIn, SemaOk, BusinessWith;
  }

  // A thread that waits gets past the child's semaphore exactly if the child is on
  // its way out and has said so, and sleeps there otherwise.
  lemma WaitPassesExactlyIfTold(events: seq<Event>, t: Tid)
    requires Enabled(After(Boot(), events), DownChild, t)
    ensures var s := After(Boot(), events);
            var c := s.procs[t].pc.child;
            var s' := Step(s, DownChild, t);
            if StageOf(s.procs[c].pc).Alive? then s'.procs[t].pc == WaitBlocked(c) && s'.procs[c].childSema.waiters == [t]
            else s'.procs[t].pc == ReadStatus(c)
  {
    hide Inv;
    EveryRunOk(events);
    var s := After(Boot(), events);
    var c := s.procs[t].pc.child;
    Facts(s, t);
    assert BusinessWith(s.procs[t].pc, c).Before? || BusinessWith(s.procs[t].pc, c).Roused?;
    Facts(s, c);
    hide AnsweredIn, SemaOk, Distinct;
  }

  // ---- Where the code departs from what process_wait says of itself. ----

  lemma AfterPlus(s: System, events: seq<Event>, e: Event)
    ensures After(s, events + [e]) == Next(After(s, events), e)
  {
    assert (events + [e])[..|events|] == events;
  }

  // A thread is created by an earlier one, but the first by nobody: it is on its
  // own child list, and it alone.
  lemma {:induction false} OnlyFirstIsOwnParent(events: seq<Event>)
    ensures var s := After(Boot(), events);
            forall c :: c in s.procs ==> (c != 1 ==> s.procs[c].parent < c) && (s.procs[c].parent == c <==> c == 1)
  {
    hide Inv, Step, Enabled;
    if events == [] {
      assert After(Boot(), events) == Boot();
    } else {
      var rest, e := events[..|events| - 1], events[|events| - 1];
      OnlyFirstIsOwnParent(rest);
      EveryRunOk(rest);
      var s := After(Boot(), rest);
      if Enabled(s, e.a, e.t) {
        forall c | c in Step(s, e.a, e.t).procs
          ensures var p := Step(s, e.a, e.t).procs[c].parent; (c != 1 ==> p < c) && (c == 1 ==> p == 1)
        {
          ParentKept(s, e.a, e.t, c);
          FirstIsOwn(s);
        }
      }
    }
  }

  lemma FirstIsOwn(s: System)
    requires Inv(s)
    ensures 1 in s.procs && s.procs[1].parent == 1 && s.nextTid != 1
  {
    hide ProcOk, OwnOk, LogOk;
    Facts(s, 1);
  }

  lemma ParentKept(s: System, a: Action, t: Tid, c: Tid)
    requires Inv(s) && Enabled(s, a, t) && c in Step(s, a, t).procs
    ensures c in s.procs ==> Step(s, a, t).procs[c].parent == s.procs[c].parent
    ensures c !in s.procs ==> c == s.nextTid && Step(s, a, t).procs[c].parent < c
  {
    hide Inv, Down, Up;
    Facts(s, t);
    hide ProcOk, OwnOk;
    if a.Fork? {
      FreshNext(s);
    } else if a.DownChild? || a.WakeChild? || a.Read? {
      BusinessOf(s, t, s.procs[t].pc.child);
    }
  }

  lemma FreshNext(s: System)
    requires Inv(s)
    ensures s.nextTid !in s.procs
  {
    hide Inv;
    if s.nextTid in s.procs { Facts(s, s.nextTid); }
  }

  // A wait for one's own tid should be refused like any wait for a thread that
  // is not a child; it is, exactly if the caller is not the first thread.
  lemma SelfWaitRefused(events: seq<Event>, t: Tid)
    requires Enabled(After(Boot(), events), CallWait(t), t)
    ensures var s := After(Boot(), events);
            Step(s, CallWait(t), t) ==
            if t == 1 then Set(s, t, s.procs[t].(pc := WaitDown(t))) else s.(log := s.log + [Answer(t, t, false, -1)])
  {
    hide Inv, ProcOk, OwnOk;
    EveryRunOk(events);
    OnlyFirstIsOwnParent(events);
    var s := After(Boot(), events);
    hide After;
    Facts(s, t);
    OwnChild(s, t);
  }

  // A running thread is its own child exactly if it is its own parent.
  lemma OwnChild(s: System, t: Tid)
    requires t in s.procs && ProcOk(s, t) && OwnOk(s, t) && s.procs[t].pc.Running?
    ensures t in s.procs[t].children <==> s.procs[t].parent == t
  {
    hide ProcOk, OwnOk;
    ParentOf(s, t, t);
    RunningIsLinked(s, t);
  }

  // A running thread is still on its parent's list.
  lemma RunningIsLinked(s: System, c: Tid)
    requires c in s.procs && ProcOk(s, c) && StageOf(s.procs[c].pc).Alive?
    ensures s.procs[c].parent in s.procs && c in s.procs[s.procs[c].parent].children
  {
  }

  // And then it never returns, whatever happens.
  lemma {:induction false} SelfWaitNeverReturns(events: seq<Event>, more: seq<Event>)
    requires var s := After(Boot(), events); 1 in s.procs && s.procs[1].pc == WaitDown(1)
    ensures var s := After(After(Boot(), events), more); Inv(s) && 1 in s.procs && SelfWaiting(s.procs[1].pc)
  {
    hide Inv, Step;
    EveryRunOk(events);
    if more != [] {
      var rest, e := more[..|more| - 1], more[|more| - 1];
      SelfWaitNeverReturns(events, rest);
      var s := After(After(Boot(), events), rest);
      if Enabled(s, e.a, e.t) {
        InvKept(s, e.a, e.t);
        StillWaiting(s, e.a, e.t);
      }
    }
  }

  predicate SelfWaiting(pc: Pc) {
    pc == WaitDown(1) || pc == WaitBlocked(1)
  }

  lemma StillWaiting(s: System, a: Action, t: Tid)
    requires Inv(s) && Enabled(s, a, t) && 1 in s.procs && SelfWaiting(s.procs[1].pc)
    ensures 1 in Step(s, a, t).procs && SelfWaiting(Step(s, a, t).procs[1].pc)
  {
    hide ProcOk, OwnOk, LogOk, Up, Down;
    Facts(s, t);
    if a.TellParent? {
      ToldChild(s, t);
      WaitedFor(s, t);
    } else if a.WakeChild? {
      BusinessOf(s, t, s.procs[t].pc.child);
    } else if a.DownChild? {
      BusinessOf(s, t, s.procs[t].pc.child);
      if t == 1 { NotToldYet(s); }
    } else if a.Fork? {
      FreshNext(s);
    }
  }

  // While the first thread waits for itself nobody has told it anything.
  lemma NotToldYet(s: System)
    requires Inv(s) && 1 in s.procs && SelfWaiting(s.procs[1].pc)
    ensures s.procs[1].childSema.value == 0
  {
    hide OwnOk, LogOk;
    Facts(s, 1);
  }

  // The thread that an exiting child wakes waits for that child.
  lemma WaitedFor(s: System, t: Tid)
    requires Inv(s) && Enabled(s, TellParent, t)
    ensures s.procs[t].childSema.waiters != [] ==>
              s.procs[t].childSema.waiters[0] in s.procs && s.procs[s.procs[t].childSema.waiters[0]].pc == WaitBlocked(t)
  {
    hide Inv, OwnOk;
    Facts(s, t);
    SleeperWaits(s, t);
  }

  lemma SleeperWaits(s: System, t: Tid)
    requires t in s.procs && ProcOk(s, t)
    ensures s.procs[t].childSema.waiters != [] ==>
              s.procs[t].childSema.waiters[0] in s.procs && s.procs[s.procs[t].childSema.waiters[0]].pc == WaitBlocked(t)
  {
    hide StageOf, SemaOk, AnsweredIn;
  }

  // A child that the kernel kills exits without storing a status. Its parent
  // then gets 0 and not -1: a wait returns -1 for a child it found exactly if
  // the child stored -1.
  lemma MinusOneExactly(events: seq<Event>, a: Answer)
    requires a in After(Boot(), events).log
    ensures var s := After(Boot(), events);
            a.ret == -1 <==> !a.found || (a.asked in s.procs && s.procs[a.asked].status == -1)
  {
    WaitReturnsStatus(events, [], a);
  }

  lemma KilledChildReturnsZero(events: seq<Event>, a: Answer)
    requires a in After(Boot(), events).log && a.found
    requires forall e :: e in events && e.t == a.asked ==> !e.a.SetStatus?
    ensures a.ret == 0
  {
    WaitReturnsStatus(events, [], a);
    NeverStored(events, a.asked);
  }

  lemma {:induction false} NeverStored(events: seq<Event>, c: Tid)
    requires c in After(Boot(), events).procs && forall e :: e in events && e.t == c ==> !e.a.SetStatus?
    ensures After(Boot(), events).procs[c].status == 0
  {
    hide Inv, Step, Enabled;
    if events != [] {
      var rest, e := events[..|events| - 1], events[|events| - 1];
      assert forall x :: x in rest ==> x in events;
      EveryRunOk(rest);
      var s := After(Boot(), rest);
      if c in s.procs { NeverStored(rest, c); }
      if Enabled(s, e.a, e.t) {
        assert e in events;
        StatusUntouched(s, e.a, e.t, c);
      }
    } else {
      assert After(Boot(), events) == Boot();
    }
  }

  lemma StatusUntouched(s: System, a: Action, t: Tid, c: Tid)
    requires Inv(s) && Enabled(s, a, t) && c in Step(s, a, t).procs && (t == c ==> !a.SetStatus?)
    ensures Step(s, a, t).procs[c].status == if c in s.procs then s.procs[c].status else 0
  {
    hide Inv, Down, Up;
    Facts(s, t);
    hide ProcOk, OwnOk;
    if a.Fork? {
      FreshNext(s);
    } else if a.DownChild? || a.WakeChild? || a.Read? {
      BusinessOf(s, t, s.procs[t].pc.child);
    }
  }

  // What a wait for a child returns is what the child passed to exit: the last
  // status it stored, whatever the schedule.
  lemma StatusReturned(events: seq<Event>, i: nat, c: Tid, v: int, a: Answer)
    requires i < |events| && events[i] == Event(SetStatus(v), c) && Enabled(After(Boot(), events[..i]), SetStatus(v), c)
    requires forall j :: i < j < |events| && events[j].t == c ==> !events[j].a.SetStatus?
    requires a in After(Boot(), events).log && a.found && a.asked == c
    ensures a.ret == v
  {
    WaitReturnsStatus(events, [], a);
    LastStored(events, i, c, v);
  }

  lemma {:induction false} LastStored(events: seq<Event>, i: nat, c: Tid, v: int)
    requires i < |events| && events[i] == Event(SetStatus(v), c) && Enabled(After(Boot(), events[..i]), SetStatus(v), c)
    requires forall j :: i < j < |events| && events[j].t == c ==> !events[j].a.SetStatus?
    ensures var s := After(Boot(), events); c in s.procs && s.procs[c].status == v
  {
    hide Inv, Step, Enabled;
    var rest, e := events[..|events| - 1], events[|events| - 1];
    EveryRunOk(rest);
    var s := After(Boot(), rest);
    if i == |events| - 1 {
      StoredNow(s, c, v);
    } else {
      assert rest[..i] == events[..i];
      LastStored(rest, i, c, v);
      if Enabled(s, e.a, e.t) {
        InvKept(s, e.a, e.t);
        StaysKnown(s, Step(s, e.a, e.t), c);
        StatusUntouched(s, e.a, e.t, c);
      }
    }
  }

  lemma StoredNow(s: System, c: Tid, v: int)
    requires Enabled(s, SetStatus(v), c)
    ensures var s' := Step(s, SetStatus(v), c); c in s'.procs && s'.procs[c].status == v
  {
  }

  lemma StaysKnown(s: System, s': System, c: Tid)
    requires Later(s, s') && c in s.procs
    ensures c in s'.procs
  {
    assert LaterAt(s, s', c);
  }

  // Such a schedule: the child is killed, the parent waits.
  lemma KilledChild()
    ensures After(Boot(), [Event(Fork, 1), Event(CallExit, 2), Event(TellParent, 2), Event(CallWait(2), 1),
                           Event(DownChild, 1), Event(Read, 1), Event(Remove, 1), Event(WakeChild, 1)]).log
            == [Answer(1, 2, true, 0)]
  {
    var e := [Event(Fork, 1), Event(CallExit, 2), Event(TellParent, 2), Event(CallWait(2), 1),
              Event(DownChild, 1), Event(Read, 1), Event(Remove, 1), Event(WakeChild, 1)];
    hide Next, Down, Up;
    assert e[..0] == [] && After(Boot(), e[..0]) == Boot();
    Prefixes(e, 0);
    Prefixes(e, 1);
    Prefixes(e, 2);
    Prefixes(e, 3);
    Prefixes(e, 4);
    Prefixes(e, 5);
    Prefixes(e, 6);
    Prefixes(e, 7);
    var up := Down(Up(Init(0)), 1);
    KilledFork();
    KilledExit();
    KilledTell();
    KilledCall();
    KilledDown(up);
    KilledRead(up);
    KilledRemove(up);
    KilledWake(up);
    assert e[..8] == e;
  }

  // The states of that schedule: the parent at p with its children, the child at
  // c with its two semaphores.
  function Two(p: Pc, children: seq<Tid>, c: Pc, up: Sema, down: Sema, log: seq<Answer>): System {
    System(map[1 := Proc(p, 1, children, 0, Init(0), Init(0)), 2 := Proc(c, 1, [], 0, up, down)], 3, log)
  }

  lemma KilledFork()
    ensures Next(Boot(), Event(Fork, 1)) == Two(Running, [1, 2], Running, Init(0), Init(0), [])
  {
    var s := Boot();
    assert Enabled(s, Fork, 1) && [1] + [2] == [1, 2];
    assert Forked(s, 1).procs == Two(Running, [1, 2], Running, Init(0), Init(0), []).procs;
  }

  lemma KilledExit()
    ensures Next(Two(Running, [1, 2], Running, Init(0), Init(0), []), Event(CallExit, 2))
         == Two(Running, [1, 2], ExitUp, Init(0), Init(0), [])
  {
    var s := Two(Running, [1, 2], Running, Init(0), Init(0), []);
    assert Next(s, Event(CallExit, 2)).procs == Two(Running, [1, 2], ExitUp, Init(0), Init(0), []).procs;
  }

  lemma KilledTell()
    ensures Next(Two(Running, [1, 2], ExitUp, Init(0), Init(0), []), Event(TellParent, 2))
         == Two(Running, [1, 2], ExitDown, Up(Init(0)), Init(0), [])
  {
    hide Up;
    var s := Two(Running, [1, 2], ExitUp, Init(0), Init(0), []);
    assert Told(s, 2).procs == Two(Running, [1, 2], ExitDown, Up(Init(0)), Init(0), []).procs;
  }

  lemma KilledCall()
    ensures Next(Two(Running, [1, 2], ExitDown, Up(Init(0)), Init(0), []), Event(CallWait(2), 1))
         == Two(WaitDown(2), [1, 2], ExitDown, Up(Init(0)), Init(0), [])
  {
    hide Up;
    var s := Two(Running, [1, 2], ExitDown, Up(Init(0)), Init(0), []);
    assert Enabled(s, CallWait(2), 1) && 2 in s.procs[1].children by { assert [1, 2][1] == 2; }
    assert Called(s, 1, 2).procs == Two(WaitDown(2), [1, 2], ExitDown, Up(Init(0)), Init(0), []).procs;
  }

  lemma KilledDown(up: Sema)
    requires up == Down(Up(Init(0)), 1)
    ensures Next(Two(WaitDown(2), [1, 2], ExitDown, Up(Init(0)), Init(0), []), Event(DownChild, 1))
         == Two(ReadStatus(2), [1, 2], ExitDown, up, Init(0), [])
  {
    var s := Two(WaitDown(2), [1, 2], ExitDown, Up(Init(0)), Init(0), []);
    assert Downed(s, 1, 2).procs == Two(ReadStatus(2), [1, 2], ExitDown, up, Init(0), []).procs;
  }

  lemma KilledRead(up: Sema)
    ensures Next(Two(ReadStatus(2), [1, 2], ExitDown, up, Init(0), []), Event(Read, 1))
         == Two(Unlink(2, 0), [1, 2], ExitDown, up, Init(0), [])
  {
    var s := Two(ReadStatus(2), [1, 2], ExitDown, up, Init(0), []);
    assert WithRead(s, 1, 2).procs == Two(Unlink(2, 0), [1, 2], ExitDown, up, Init(0), []).procs;
  }

  lemma KilledRemove(up: Sema)
    ensures Next(Two(Unlink(2, 0), [1, 2], ExitDown, up, Init(0), []), Event(Remove, 1))
         == Two(UpMem(2, 0), [1], ExitDown, up, Init(0), [])
  {
    WithoutSecond();
    hide Without;
    var s := Two(Unlink(2, 0), [1, 2], ExitDown, up, Init(0), []);
    assert Removed(s, 1, 2, 0).procs == Two(UpMem(2, 0), [1], ExitDown, up, Init(0), []).procs;
  }

  lemma KilledWake(up: Sema)
    ensures Next(Two(UpMem(2, 0), [1], ExitDown, up, Init(0), []), Event(WakeChild, 1)).log == [Answer(1, 2, true, 0)]
  {
    hide Up;
    var s := Two(UpMem(2, 0), [1], ExitDown, up, Init(0), []);
    assert Answered(s, 1, 2, 0).log == [] + [Answer(1, 2, true, 0)];
  }

  lemma WithoutSecond()
    ensures Without([1, 2], 2) == [1]
  {
    assert [1, 2][1..] == [2] && [2][1..] == [];
    assert Without([2], 2) == [];
    assert Without([1, 2], 2) == [1] + [];
  }

  lemma Prefixes(e: seq<Event>, n: nat)
    requires n < |e|
    ensures After(Boot(), e[..n + 1]) == Next(After(Boot(), e[..n]), e[n])
  {
    assert e[..n + 1] == e[..n] + [e[n]];
    AfterPlus(Boot(), e[..n], e[n]);
  }
}
