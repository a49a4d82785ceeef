// A lock and a Mesa-style condition variable under every interleaving. Between
// two steps of a thread any other thread may run: in particular between taking
// the lock's semaphore and recording the holder, between clearing the holder
// and giving the semaphore back, and between removing a waiter from the
// condition's list and waking it.
module Monitors {
  import opened Semaphores

  datatype Holder = NoOne | By(t: Tid)

  // Where a thread stands.
  datatype Pc =
    | Outside
    | LockBlocked          // asleep inside lock_acquire
    | LockWoken
    | Claiming             // has the semaphore, holder not yet set
    | Inside               // holds the lock
    | CondQueued           // in cond_wait, on the list, lock still held
    | Releasing(waiting: bool)   // holder cleared, semaphore not yet given back
    | CondReleased         // in cond_wait, about to go down on its own semaphore
    | CondBlocked
    | CondWoken
    | Returning            // past its own semaphore, about to lock_acquire
    | Signalling(target: Tid)    // in cond_signal, target removed from the list

  datatype Action =
    | Acquire | TryAcquire | SetHolder | ClearHolder | UpLock
    | WaitPush | OwnDown | SignalPop | SignalUp

  // The monitor's state. `own` has the semaphore of every cond_wait in
  // progress; `owner`, `waits` and `signalled` are history: who is between
  // taking and returning the lock's semaphore, the calls of cond_wait in the
  // order of their places on the list, and how many were released.
  datatype M = M(lock: Sema, holder: Holder, queue: seq<Tid>, own: map<Tid, Sema>, pc: map<Tid, Pc>,
                 owner: Holder, waits: seq<Tid>, signalled: nat)

  predicate Owns(p: Pc) {
    p.Claiming? || p.Inside? || p.CondQueued? || p.Releasing? || p.Signalling?
  }

  predicate Holds(p: Pc) {
    p.Inside? || p.CondQueued? || p.Signalling?
  }

  predicate InWait(p: Pc) {
    p.CondQueued? || p == Releasing(true) || p.CondReleased? || p.CondBlocked? || p.CondWoken?
  }

  predicate Enabled(m: M, a: Action, t: Tid) {
    Ready(m.pc, m.queue, m.own.Keys, a, t)
  }

  predicate Ready(pc: map<Tid, Pc>, queue: seq<Tid>, waiting: set<Tid>, a: Action, t: Tid) {
    t in pc &&
    match a
    case Acquire => pc[t].Outside? || pc[t].Returning? || pc[t].LockWoken?
    case TryAcquire => pc[t].Outside?
    case SetHolder => pc[t].Claiming?
    case ClearHolder => pc[t].Inside? || pc[t].CondQueued?
    case UpLock => pc[t].Releasing?
    case WaitPush => pc[t].Inside?
    case OwnDown => (pc[t].CondReleased? || pc[t].CondWoken?) && t in waiting
    case SignalPop => pc[t].Inside? && queue != []
    case SignalUp => pc[t].Signalling? && pc[t].target in waiting
  }

  function Unblock(pc: map<Tid, Pc>, s: Sema, p: Pc): map<Tid, Pc> {
    if s.waiters != [] then pc[s.waiters[0] := p] else pc
  }

  function Acquired(m: M, t: Tid): M {
    if m.lock.value == 0 then m.(lock := Down(m.lock, t), pc := m.pc[t := LockBlocked])
    else m.(lock := Down(m.lock, t), pc := m.pc[t := Claiming], owner := By(t))
  }

  function Tried(m: M, t: Tid): M {
    if m.lock.value == 0 then m else Acquired(m, t)
  }

  function Claimed(m: M, t: Tid): M {
    m.(holder := By(t), pc := m.pc[t := Inside])
  }

  function Cleared(m: M, t: Tid): M {
    m.(holder := NoOne, pc := m.pc[t := Releasing(t in m.pc && m.pc[t].CondQueued?)])
  }

  function Returned(m: M, t: Tid): M {
    m.(lock := Up(m.lock), owner := NoOne,
       pc := Unblock(m.pc, m.lock, LockWoken)
             [t := if t in m.pc && m.pc[t] == Releasing(true) then CondReleased else Outside])
  }

  function Queued(m: M, t: Tid): M {
    m.(own := m.own[t := Init(0)], queue := m.queue + [t], waits := m.waits + [t], pc := m.pc[t := CondQueued])
  }

  function Tested(m: M, t: Tid): M
    requires t in m.own
  {
    if m.own[t].value == 0 then m.(own := m.own[t := Down(m.own[t], t)], pc := m.pc[t := CondBlocked])
    else m.(own := m.own - {t}, pc := m.pc[t := Returning])
  }

  function Chosen(m: M, t: Tid): M
    requires m.queue != []
  {
    m.(queue := m.queue[1..], pc := m.pc[t := Signalling(m.queue[0])])
  }

  function Woke(m: M, t: Tid, h: Tid): M
    requires h in m.own
  {
    m.(own := m.own[h := Up(m.own[h])], signalled := m.signalled + 1,
       pc := Unblock(m.pc, m.own[h], CondWoken)[t := Inside])
  }

  function Step(m: M, a: Action, t: Tid): M
    requires Enabled(m, a, t)
  {
    match a
    case Acquire => Acquired(m, t)
    case TryAcquire => Tried(m, t)
    case SetHolder => Claimed(m, t)
    case ClearHolder => Cleared(m, t)
    case UpLock => Returned(m, t)
    case WaitPush => Queued(m, t)
    case OwnDown => Tested(m, t)
    case SignalPop => Chosen(m, t)
    case SignalUp => Woke(m, t, m.pc[t].target)
  }

  // The waiter a signal in progress is about to release.
  function Target(m: M): seq<Tid> {
    if m.owner.By? && m.owner.t in m.pc && m.pc[m.owner.t].Signalling? then [m.pc[m.owner.t].target] else []
  }

  // The waiters not yet released, oldest first.
  function Pending(m: M): seq<Tid> {
    Target(m) + m.queue
  }

  // ---- The invariant. ----

  // What the lock knows of one thread.
  ghost predicate LockAt(p: Pc, t: Tid, lock: Sema, owner: Holder, holder: Holder) {
    && (Owns(p) <==> owner == By(t)) && (Holds(p) <==> holder == By(t))
    && (p.LockBlocked? <==> t in lock.waiters) && (p.LockWoken? <==> t in lock.woken)
  }

  ghost predicate LockOk(m: M) {
    && SemaOk(m.lock) && m.lock.value == (if m.owner.NoOne? then 1 else 0)
    && (forall t :: t in m.pc ==> LockAt(m.pc[t], t, m.lock, m.owner, m.holder))
    && (m.owner.By? ==> m.owner.t in m.pc) && (m.holder.By? ==> m.holder.t in m.pc)
    && (forall t :: t in m.lock.waiters || t in m.lock.woken ==> t in m.pc)
  }

  // The semaphore of one cond_wait: still 0 while the wait is pending, 1 from
  // its release on.
  ghost predicate WaitOk(p: Pc, s: Sema, t: Tid, pending: bool) {
    && SemaOk(s) && s.value == (if pending then 0 else 1)
    && s.waiters == (if p.CondBlocked? then [t] else [])
    && (p.CondBlocked? || p.CondQueued? || p.Releasing? ==> pending)
    && (p.CondWoken? ==> !pending)
  }

  ghost predicate CondAt(p: Pc, t: Tid, own: map<Tid, Sema>, pending: bool) {
    && (InWait(p) <==> t in own) && (pending ==> t in own)
    && (t in own ==> WaitOk(p, own[t], t, pending))
  }

  ghost predicate CondOk(m: M) {
    && (forall t :: t in m.pc ==> CondAt(m.pc[t], t, m.own, t in Pending(m)))
    && Distinct(Pending(m)) && (forall t :: t in Pending(m) || t in m.own ==> t in m.pc)
    && m.signalled <= |m.waits| && Pending(m) == m.waits[m.signalled..]
  }

  ghost predicate Inv(m: M) {
    LockOk(m) && CondOk(m)
  }

  // ---- Steps keep the lock's part. ----

  lemma LockTaken(m: M, t: Tid)
    requires LockOk(m) && Enabled(m, Acquire, t)
    ensures LockOk(Acquired(m, t)) && LockOk(Tried(m, t))
  {
    hide SemaOk;
    assert LockAt(m.pc[t], t, m.lock, m.owner, m.holder);
    DownOk(m.lock, t);
    var m' := Acquired(m, t);
    forall u | u in m'.pc
      ensures LockAt(m'.pc[u], u, m'.lock, m'.owner, m'.holder)
    {
      assert LockAt(m.pc[u], u, m.lock, m.owner, m.holder);
    }
    hide LockAt;
  }

  lemma LockClaimed(m: M, t: Tid)
    requires LockOk(m) && Enabled(m, SetHolder, t)
    ensures LockOk(Claimed(m, t))
  {
    hide SemaOk;
    assert LockAt(m.pc[t], t, m.lock, m.owner, m.holder);
    var m' := Claimed(m, t);
    forall u | u in m'.pc
      ensures LockAt(m'.pc[u], u, m'.lock, m'.owner, m'.holder)
    {
      assert LockAt(m.pc[u], u, m.lock, m.owner, m.holder);
    }
    hide LockAt;
  }

  lemma LockCleared(m: M, t: Tid)
    requires LockOk(m) && Enabled(m, ClearHolder, t)
    ensures LockOk(Cleared(m, t))
  {
    hide SemaOk;
    assert LockAt(m.pc[t], t, m.lock, m.owner, m.holder);
    var m' := Cleared(m, t);
    forall u | u in m'.pc
      ensures LockAt(m'.pc[u], u, m'.lock, m'.owner, m'.holder)
    {
      assert LockAt(m.pc[u], u, m.lock, m.owner, m.holder);
    }
    hide LockAt;
  }

  lemma LockReturned(m: M, t: Tid)
    requires LockOk(m) && Enabled(m, UpLock, t)
    ensures LockOk(Returned(m, t))
  {
    hide SemaOk, Up;
    assert LockAt(m.pc[t], t, m.lock, m.owner, m.holder);
    UpOk(m.lock);
    UpWakesHead(m.lock);
    var m' := Returned(m, t);
    forall u | u in m'.pc
      ensures LockAt(m'.pc[u], u, m'.lock, m'.owner, m'.holder)
    {
      assert LockAt(m.pc[u], u, m.lock, m.owner, m.holder);
    }
    hide LockAt;
  }

  lemma UpWakesHead(s: Sema)
    requires SemaOk(s)
    ensures Up(s).value == s.value + 1
    ensures s.waiters == [] ==> Up(s).waiters == [] && Up(s).woken == s.woken
    ensures s.waiters != [] ==> s.waiters[0] in s.waiters && Up(s).woken == s.woken + {s.waiters[0]}
    ensures s.waiters != [] ==> forall u :: u in Up(s).waiters <==> u in s.waiters && u != s.waiters[0]
  {
    if s.waiters != [] {
      assert s.waiters == [s.waiters[0]] + s.waiters[1..];
      QueueRest(s.waiters[1..], s.waiters[0]);
    }
  }

  // Steps of the condition variable leave the lock as it is.
  ghost predicate SameForLock(p: Pc, p': Pc) {
    && (Owns(p') <==> Owns(p)) && (Holds(p') <==> Holds(p))
    && (p'.LockBlocked? <==> p.LockBlocked?) && (p'.LockWoken? <==> p.LockWoken?)
  }

  lemma LockSame(m: M, m': M)
    requires LockOk(m) && m'.lock == m.lock && m'.owner == m.owner && m'.holder == m.holder
    requires m'.pc.Keys == m.pc.Keys && forall u :: u in m.pc ==> SameForLock(m.pc[u], m'.pc[u])
    ensures LockOk(m')
  {
    hide SemaOk, Owns, Holds;
    forall u | u in m'.pc
      ensures LockAt(m'.pc[u], u, m'.lock, m'.owner, m'.holder)
    {
      assert LockAt(m.pc[u], u, m.lock, m.owner, m.holder) && SameForLock(m.pc[u], m'.pc[u]);
    }
  }

  // ---- Steps keep the condition variable's part. ----

  lemma OwnerKnown(m: M, t: Tid)
    requires LockOk(m) && t in m.pc && Owns(m.pc[t])
    ensures m.owner == By(t) && Target(m) == if m.pc[t].Signalling? then [m.pc[t].target] else []
    ensures m.holder == if Holds(m.pc[t]) then By(t) else NoOne
  {
    hide SemaOk;
    assert LockAt(m.pc[t], t, m.lock, m.owner, m.holder);
    if m.holder.By? {
      var u := m.holder.t;
      assert LockAt(m.pc[u], u, m.lock, m.owner, m.holder);
    }
  }

  // Steps on the lock leave every wait as it is.
  ghost predicate SameForCond(p: Pc, p': Pc) {
    && (InWait(p') <==> InWait(p))
    && (InWait(p) ==> p' == p || (p.CondQueued? && p'.Releasing?) || (p.Releasing? && p'.CondReleased?))
  }

  lemma CondSame(m: M, m': M)
    requires CondOk(m) && m'.own == m.own && m'.queue == m.queue && m'.waits == m.waits
    requires m'.signalled == m.signalled && Target(m') == Target(m)
    requires m'.pc.Keys == m.pc.Keys && forall u :: u in m.pc ==> SameForCond(m.pc[u], m'.pc[u])
    ensures CondOk(m')
  {
    hide Distinct, Target, InWait;
    assert Pending(m') == Pending(m);
    hide Pending;
    forall u | u in m'.pc
      ensures CondAt(m'.pc[u], u, m'.own, u in Pending(m'))
    {
      assert CondAt(m.pc[u], u, m.own, u in Pending(m)) && SameForCond(m.pc[u], m'.pc[u]);
    }
    hide CondAt;
  }

  lemma CondAcquired(m: M, t: Tid)
    requires Inv(m) && Enabled(m, Acquire, t)
    ensures CondOk(Acquired(m, t)) && CondOk(Tried(m, t))
  {
    hide CondOk, SemaOk, Down;
    assert LockAt(m.pc[t], t, m.lock, m.owner, m.holder);
    hide LockAt;
    CondSame(m, Acquired(m, t));
  }

  lemma CondClaimed(m: M, t: Tid)
    requires Inv(m) && Enabled(m, SetHolder, t)
    ensures CondOk(Claimed(m, t))
  {
    hide CondOk, LockOk;
    OwnerKnown(m, t);
    CondSame(m, Claimed(m, t));
  }

  lemma CondCleared(m: M, t: Tid)
    requires Inv(m) && Enabled(m, ClearHolder, t)
    ensures CondOk(Cleared(m, t))
  {
    hide CondOk, LockOk;
    OwnerKnown(m, t);
    CondSame(m, Cleared(m, t));
  }

  lemma CondReturned(m: M, t: Tid)
    requires Inv(m) && Enabled(m, UpLock, t)
    ensures CondOk(Returned(m, t))
  {
    hide CondOk, LockOk, Up;
    OwnerKnown(m, t);
    if m.lock.waiters != [] {
      HeadBlocked(m);
    }
    CondSame(m, Returned(m, t));
  }

  lemma HeadBlocked(m: M)
    requires LockOk(m) && m.lock.waiters != []
    ensures m.lock.waiters[0] in m.pc && m.pc[m.lock.waiters[0]].LockBlocked?
  {
    hide SemaOk;
    var w := m.lock.waiters[0];
    assert w in m.lock.waiters;
    assert LockAt(m.pc[w], w, m.lock, m.owner, m.holder);
  }

  lemma WaitStarted(m: M, t: Tid)
    requires Inv(m) && Enabled(m, WaitPush, t)
    ensures Inv(Queued(m, t))
  {
    hide LockOk, SemaOk, CondAt, WaitOk, InWait;
    OwnerKnown(m, t);
    var m' := Queued(m, t);
    LockSame(m, m');
    QueuedLast(m, t);
    hide Pending, Target, Owns, Holds, SameForLock;
    forall u | u in m'.pc
      ensures CondAt(m'.pc[u], u, m'.own, u in Pending(m'))
    {
      assert CondAt(m.pc[u], u, m.own, u in Pending(m));
      QueuedAt(m, t, u, u in Pending(m));
    }
  }

  lemma QueuedLast(m: M, t: Tid)
    requires Inv(m) && Enabled(m, WaitPush, t)
    ensures Pending(Queued(m, t)) == Pending(m) + [t] && t !in Pending(m)
    ensures m.waits[m.signalled..] + [t] == (m.waits + [t])[m.signalled..]
  {
    hide LockOk, SemaOk;
    OwnerKnown(m, t);
    assert CondAt(m.pc[t], t, m.own, t in Pending(m));
  }

  lemma QueuedAt(m: M, t: Tid, u: Tid, pending: bool)
    requires Enabled(m, WaitPush, t) && u in m.pc && CondAt(m.pc[u], u, m.own, pending)
    ensures CondAt(Queued(m, t).pc[u], u, Queued(m, t).own, pending || u == t)
  {
  }

  lemma WaitTested(m: M, t: Tid)
    requires Inv(m) && Enabled(m, OwnDown, t)
    ensures Inv(Tested(m, t))
  {
    hide LockOk, Distinct, CondAt, WaitOk, InWait;
    var m' := Tested(m, t);
    LockSame(m, m');
    assert Target(m') == Target(m);
    assert Pending(m') == Pending(m);
    var pending := Pending(m);
    hide Pending, Target;
    forall u | u in m'.pc
      ensures CondAt(m'.pc[u], u, m'.own, u in pending)
    {
      assert CondAt(m.pc[u], u, m.own, u in pending);
      TestedAt(m, t, u, u in pending);
    }
  }

  lemma TestedAt(m: M, t: Tid, u: Tid, pending: bool)
    requires Enabled(m, OwnDown, t) && u in m.pc && CondAt(m.pc[u], u, m.own, pending)
    ensures CondAt(Tested(m, t).pc[u], u, Tested(m, t).own, pending)
  {
    hide SemaOk;
    if u == t && u in m.own { DownOk(m.own[t], t); }
  }

  lemma WaiterChosen(m: M, t: Tid)
    requires Inv(m) && Enabled(m, SignalPop, t)
    ensures Inv(Chosen(m, t))
  {
    hide LockOk, Distinct;
    OwnerKnown(m, t);
    var m' := Chosen(m, t);
    LockSame(m, m');
    assert Pending(m') == Pending(m);
    hide Pending, Target;
    forall u | u in m'.pc
      ensures CondAt(m'.pc[u], u, m'.own, u in Pending(m'))
    {
      assert CondAt(m.pc[u], u, m.own, u in Pending(m));
    }
    hide CondAt;
  }

  // The target of a signal is the oldest pending wait.
  lemma SignalInProgress(m: M, t: Tid, h: Tid)
    requires Inv(m) && Enabled(m, SignalUp, t) && h == m.pc[t].target
    ensures h in m.pc && h in m.own && Pending(m) == [h] + m.queue && m.owner == By(t)
    ensures CondAt(m.pc[h], h, m.own, true) && !Owns(m.pc[h])
    ensures Pending(Woke(m, t, h)) == m.queue && h !in m.queue && Distinct(m.queue)
    ensures m.signalled < |m.waits| && m.waits[m.signalled] == h && m.waits[m.signalled + 1..] == m.queue
  {
    hide LockOk;
    OwnerKnown(m, t);
    assert h in Pending(m);
    assert CondAt(m.pc[h], h, m.own, true);
    if Owns(m.pc[h]) { OwnerKnown(m, h); }
    QueueRest(m.queue, h);
    assert Pending(m)[0] == h && Pending(m)[1..] == m.queue;
  }

  lemma WaiterReleased(m: M, t: Tid)
    requires Inv(m) && Enabled(m, SignalUp, t)
    ensures Inv(Step(m, SignalUp, t))
  {
    hide LockOk, Distinct, CondAt, WaitOk, InWait, CondOk;
    var h := m.pc[t].target;
    SignalInProgress(m, t, h);
    var m' := Woke(m, t, h);
    WokeForLock(m, t, h);
    LockSame(m, m');
    hide SameForLock;
    forall u | u in m'.pc
      ensures CondAt(m'.pc[u], u, m'.own, u in m'.queue)
    {
      WokeAt(m, t, h, u);
    }
    CondThen(m, m');
  }

  lemma WokeForLock(m: M, t: Tid, h: Tid)
    requires Enabled(m, SignalUp, t) && h in m.pc && h in m.own && CondAt(m.pc[h], h, m.own, true)
    ensures Woke(m, t, h).pc.Keys == m.pc.Keys
    ensures forall u :: u in m.pc ==> SameForLock(m.pc[u], Woke(m, t, h).pc[u])
  {
  }

  lemma WokeAt(m: M, t: Tid, h: Tid, u: Tid)
    requires Inv(m) && Enabled(m, SignalUp, t) && h == m.pc[t].target && u in m.pc
    ensures h in m.own && u in Woke(m, t, h).pc
    ensures CondAt(Woke(m, t, h).pc[u], u, Woke(m, t, h).own, u in m.queue)
  {
    hide LockOk, Distinct, Woke;
    SignalInProgress(m, t, h);
    assert CondAt(m.pc[u], u, m.own, u in Pending(m));
    assert u in Pending(m) <==> u == h || u in m.queue;
    if u == h { WokeTarget(m, t, h); } else { WokeOther(m, t, h, u, u in m.queue); }
  }

  lemma WokeTarget(m: M, t: Tid, h: Tid)
    requires Enabled(m, SignalUp, t) && h in m.pc && h in m.own && CondAt(m.pc[h], h, m.own, true)
    requires !Owns(m.pc[h])
    ensures h in Woke(m, t, h).pc && CondAt(Woke(m, t, h).pc[h], h, Woke(m, t, h).own, false)
  {
    UpOk(m.own[h]);
    hide SemaOk;
  }

  lemma WokeOther(m: M, t: Tid, h: Tid, u: Tid, pending: bool)
    requires Enabled(m, SignalUp, t) && h in m.pc && h in m.own && CondAt(m.pc[h], h, m.own, true)
    requires u in m.pc && u != h && CondAt(m.pc[u], u, m.own, pending)
    ensures u in Woke(m, t, h).pc && CondAt(Woke(m, t, h).pc[u], u, Woke(m, t, h).own, pending)
  {
    hide SemaOk;
  }

  lemma CondThen(m: M, m': M)
    requires CondOk(m) && m'.pc.Keys == m.pc.Keys && m'.own.Keys == m.own.Keys
    requires Pending(m') == m'.queue && Distinct(m'.queue) && forall u :: u in m'.queue ==> u in Pending(m)
    requires forall u :: u in m'.pc ==> CondAt(m'.pc[u], u, m'.own, u in m'.queue)
    requires m'.signalled <= |m'.waits| && m'.waits[m'.signalled..] == m'.queue
    ensures CondOk(m')
  {
    hide CondAt, Pending, Distinct;
  }

  lemma QueueRest(q: seq<Tid>, h: Tid)
    requires Distinct([h] + q)
    ensures Distinct(q) && h !in q
  {
    var s := [h] + q;
    assert forall i :: 0 <= i < |q| ==> q[i] == s[i + 1];
    assert s[0] == h;
  }

  lemma InvKept(m: M, a: Action, t: Tid)
    requires Inv(m) && Enabled(m, a, t)
    ensures Inv(Step(m, a, t))
  {
    hide LockOk, CondOk, Ready, Acquired, Tried, Claimed, Cleared, Returned, Queued, Tested, Chosen, Woke;
    match a
    case Acquire => LockTaken(m, t); CondAcquired(m, t);
    case TryAcquire => TryIsAcquire(m, t); LockTaken(m, t); CondAcquired(m, t);
    case SetHolder => LockClaimed(m, t); CondClaimed(m, t);
    case ClearHolder => LockCleared(m, t); CondCleared(m, t);
    case UpLock => LockReturned(m, t); CondReturned(m, t);
    case WaitPush => WaitStarted(m, t);
    case OwnDown => WaitTested(m, t);
    case SignalPop => WaiterChosen(m, t);
    case SignalUp => WaiterReleased(m, t);
  }

  lemma TryIsAcquire(m: M, t: Tid)
    requires Enabled(m, TryAcquire, t)
    ensures Enabled(m, Acquire, t)
  {
  }

  // ---- Whole runs. ----

  function Start(threads: set<Tid>): M {
    M(Init(1), NoOne, [], map[], map t | t in threads :: Outside, NoOne, [], 0)
  }

  datatype Event = Event(a: Action, t: Tid)

  // Any thread may take any step its place in the code allows.
  function Next(m: M, e: Event): M {
    if Enabled(m, e.a, e.t) then Step(m, e.a, e.t) else m
  }

  function After(m: M, events: seq<Event>): M {
    if events == [] then m else Next(After(m, events[..|events| - 1]), events[|events| - 1])
  }

  lemma {:induction false} EveryRunOk(threads: set<Tid>, events: seq<Event>)
    ensures Inv(After(Start(threads), events))
  {
    if events != [] {
      var m, e := After(Start(threads), events[..|events| - 1]), events[|events| - 1];
      EveryRunOk(threads, events[..|events| - 1]);
      hide Inv, Step;
      if Enabled(m, e.a, e.t) {
        InvKept(m, e.a, e.t);
      }
    }
  }

  // The states some schedule of some threads leads to.
  ghost predicate Reachable(m: M) {
    exists threads, events :: m == After(Start(threads), events)
  }

  lemma ReachableOk(m: M)
    requires Reachable(m)
    ensures Inv(m)
  {
    hide Inv;
    var threads, events :| m == After(Start(threads), events);
    EveryRunOk(threads, events);
  }

  lemma ReachableStep(m: M, a: Action, t: Tid)
    requires Reachable(m) && Enabled(m, a, t)
    ensures Reachable(Step(m, a, t))
  {
    hide Step, Enabled;
    var threads, events :| m == After(Start(threads), events);
    var longer := events + [Event(a, t)];
    assert longer[..|events|] == events;
    assert After(Start(threads), longer) == Step(m, a, t);
  }

  // At most one thread is between taking and returning the lock: the value of
  // its semaphore and the number of those threads are 1 together.
  lemma MutualExclusion(m: M)
    requires Reachable(m)
    ensures m.lock.value + |set t | t in m.pc && Owns(m.pc[t])| == 1
    ensures forall t, u :: t in m.pc && u in m.pc && Holds(m.pc[t]) && Holds(m.pc[u]) ==> t == u
    ensures forall t :: t in m.pc ==> (Holds(m.pc[t]) <==> m.holder == By(t))
  {
    ReachableOk(m);
    hide SemaOk, CondOk, Reachable;
    var owners := set t | t in m.pc && Owns(m.pc[t]);
    if m.owner.By? {
      assert owners == {m.owner.t};
    } else {
      assert owners == {};
    }
  }

  // A thread that asks for the lock gets it exactly if it is free; otherwise
  // lock_try_acquire changes nothing and lock_acquire puts it to sleep behind
  // those that wait already.
  lemma FreeLockIsTaken(m: M, t: Tid)
    requires Reachable(m) && t in m.pc
    ensures Enabled(m, TryAcquire, t) ==>
              var m' := Step(m, TryAcquire, t);
              if m.owner.NoOne? then m'.owner == By(t) && m'.pc[t].Claiming? && m'.lock.value == 0 else m' == m
    ensures Enabled(m, Acquire, t) ==>
              var m' := Step(m, Acquire, t);
              if m.owner.NoOne? then m'.owner == By(t) && m'.pc[t].Claiming? && m'.lock.value == 0
              else m'.owner == m.owner && m'.pc[t].LockBlocked? && m'.lock.waiters == m.lock.waiters + [t]
  {
    ReachableOk(m);
    hide SemaOk, CondOk, Reachable;
  }

  predicate Asleep(p: Pc) {
    p.LockBlocked? || p.CondBlocked?
  }

  ghost predicate ByOthers(events: seq<Event>, t: Tid) {
    forall e :: e in events ==> e.t != t
  }

  // Others do not move a thread that is awake.
  lemma {:induction false} OthersLeaveAwake(m: M, events: seq<Event>, t: Tid)
    requires Reachable(m) && t in m.pc && !Asleep(m.pc[t]) && ByOthers(events, t)
    ensures var m' := After(m, events); Reachable(m') && t in m'.pc && m'.pc[t] == m.pc[t]
  {
    hide Reachable, Step, Enabled, Inv, Asleep;
    if events != [] {
      var rest, e := events[..|events| - 1], events[|events| - 1];
      assert e in events && forall x :: x in rest ==> x in events;
      OthersLeaveAwake(m, rest, t);
      var mid := After(m, rest);
      if Enabled(mid, e.a, e.t) {
        ReachableStep(mid, e.a, e.t);
        ReachableOk(mid);
        OtherLeavesAwake(mid, e.a, e.t, t);
      }
    }
  }

  lemma OtherLeavesAwake(m: M, a: Action, u: Tid, t: Tid)
    requires Inv(m) && Enabled(m, a, u) && t in m.pc && !Asleep(m.pc[t]) && u != t
    ensures t in Step(m, a, u).pc && Step(m, a, u).pc[t] == m.pc[t]
  {
    hide SemaOk, Pending, Up, Down, Distinct;
    assert LockAt(m.pc[t], t, m.lock, m.owner, m.holder) && CondAt(m.pc[t], t, m.own, t in Pending(m));
    if a.SignalUp? {
      var h := m.pc[u].target;
      assert CondAt(m.pc[h], h, m.own, h in Pending(m));
    }
  }

  // Whoever has the semaphore is recorded as the holder and has the lock, however
  // long that takes.
  lemma HolderIsRecorded(m: M, between: seq<Event>, t: Tid)
    requires Reachable(m) && t in m.pc && m.pc[t].Claiming? && ByOthers(between, t)
    ensures var m' := After(m, between);
            Enabled(m', SetHolder, t) && Step(m', SetHolder, t).holder == By(t) && Step(m', SetHolder, t).pc[t].Inside?
  {
    OthersLeaveAwake(m, between, t);
    hide Reachable, After;
  }

  // A release, or the one in cond_wait, leaves the lock free and wakes the first
  // thread that sleeps for it, whatever comes between its two halves; the thread
  // is then outside, or on its way to sleep.
  lemma ReleaseFreesLock(m: M, between: seq<Event>, t: Tid)
    requires Reachable(m) && Enabled(m, ClearHolder, t) && ByOthers(between, t)
    ensures var m1 := After(Step(m, ClearHolder, t), between);
            && Enabled(m1, UpLock, t) && m1.holder == NoOne
            && var m2 := Step(m1, UpLock, t);
            && m2.owner == NoOne && m2.lock.value == 1 && Reachable(m2)
            && m2.pc[t] == (if m.pc[t].CondQueued? then CondReleased else Outside)
            && (m1.lock.waiters != [] ==>
                  m2.lock.waiters == m1.lock.waiters[1..] && m2.pc[m1.lock.waiters[0]].LockWoken?)
  {
    hide *;
    HolderCleared(m, t);
    ReachableStep(m, ClearHolder, t);
    var m0 := Step(m, ClearHolder, t);
    OthersLeaveAwake(m0, between, t);
    var m1 := After(m0, between);
    ReleasingMayUp(m1, t);
    ReachableOk(m1);
    ReachableStep(m1, UpLock, t);
    LockIsFree(m1, t);
  }

  lemma HolderCleared(m: M, t: Tid)
    requires Enabled(m, ClearHolder, t)
    ensures t in m.pc && t in Step(m, ClearHolder, t).pc && !Asleep(Step(m, ClearHolder, t).pc[t])
    ensures Step(m, ClearHolder, t).pc[t] == Releasing(m.pc[t].CondQueued?)
  {
  }

  lemma ReleasingMayUp(m: M, t: Tid)
    requires t in m.pc && m.pc[t].Releasing?
    ensures Enabled(m, UpLock, t)
  {
  }

  lemma LockIsFree(m: M, t: Tid)
    requires Inv(m) && Enabled(m, UpLock, t)
    ensures m.holder == NoOne
    ensures var m' := Step(m, UpLock, t);
            && t in m.pc && t in m'.pc && m'.owner == NoOne && m'.lock.value == 1
            && m'.pc[t] == (if m.pc[t] == Releasing(true) then CondReleased else Outside)
            && (m.lock.waiters != [] ==> m'.lock.waiters == m.lock.waiters[1..]
                                         && m.lock.waiters[0] in m'.pc && m'.pc[m.lock.waiters[0]].LockWoken?)
  {
    hide SemaOk, CondOk, Down;
    assert LockAt(m.pc[t], t, m.lock, m.owner, m.holder);
  }

  // A free lock with sleepers has a woken thread about to take it.
  lemma LockWakeUpNotLost(m: M)
    requires Reachable(m) && m.lock.waiters != [] && m.lock.value > 0
    ensures exists t :: t in m.pc && m.pc[t].LockWoken? && Enabled(m, Acquire, t)
                        && Step(m, Acquire, t).pc[t].Claiming?
  {
    ReachableOk(m);
    hide Reachable;
    assert m.lock.woken != {};
    var t :| t in m.lock.woken;
    assert Enabled(m, Acquire, t);
  }

  // ---- Waiting and signalling. ----

  // A cond_wait that has been released: it is past sleeping for good.
  ghost predicate Released(m: M, h: Tid) {
    h in m.own && h !in Pending(m)
  }

  // A signal releases the oldest wait and no other, whether that thread sleeps
  // already or not.
  lemma SignalReleasesOldest(m: M, t: Tid, h: Tid)
    requires Reachable(m) && Enabled(m, SignalUp, t) && h == m.pc[t].target
    ensures var m' := Step(m, SignalUp, t);
            && m.signalled < |m.waits| && h == m.waits[m.signalled] && m'.signalled == m.signalled + 1
            && Released(m', h)
            && (forall u :: u != h ==> (Released(m', u) <==> Released(m, u)))
            && (forall u :: u in m.pc && u != h && u != t ==> m'.pc[u] == m.pc[u])
  {
    hide CondOk, LockOk, SemaOk, Up, Reachable;
    ReachableOk(m);
    SignalInProgress(m, t, h);
    hide Pending;
    forall u | u != h
      ensures Released(Woke(m, t, h), u) <==> Released(m, u)
    {
      assert u in Pending(m) <==> u in m.queue;
    }
  }

  // A released thread is ready to run and its next step gets past its
  // semaphore; a thread that has not been released goes to sleep there.
  lemma PassesExactlyIfReleased(m: M, h: Tid)
    requires Reachable(m)
    ensures Released(m, h) ==> Enabled(m, OwnDown, h)
    ensures Enabled(m, OwnDown, h) ==>
              Step(m, OwnDown, h).pc[h] == if Released(m, h) then Returning else CondBlocked
  {
    hide SemaOk, LockOk, Pending, Reachable;
    ReachableOk(m);
    if h in m.own {
      assert CondAt(m.pc[h], h, m.own, h in Pending(m));
    }
  }

  // No step of another thread takes a release back, or gives one except by
  // a signal.
  lemma ReleaseIsStable(m: M, a: Action, t: Tid, h: Tid)
    requires Reachable(m) && Enabled(m, a, t) && t != h
    ensures Released(m, h) ==> Released(Step(m, a, t), h)
    ensures Released(Step(m, a, t), h) ==> Released(m, h) || (a.SignalUp? && m.pc[t].target == h)
  {
    hide Inv, Reachable;
    if a.SignalUp? {
      SignalReleasesOldest(m, t, m.pc[t].target);
    } else {
      ReachableOk(m);
      OtherStep(m, a, t, h);
    }
  }

  lemma OtherStep(m: M, a: Action, t: Tid, h: Tid)
    requires Inv(m) && Enabled(m, a, t) && t != h && !a.SignalUp?
    ensures Released(Step(m, a, t), h) <==> Released(m, h)
  {
    hide Inv, Pending;
    PendingAfter(m, a, t);
  }

  lemma PendingAfter(m: M, a: Action, t: Tid)
    requires Inv(m) && Enabled(m, a, t) && !a.SignalUp?
    ensures Pending(Step(m, a, t)) == if a.WaitPush? then Pending(m) + [t] else Pending(m)
  {
    hide SemaOk, CondOk;
    var m' := Step(m, a, t);
    if a.WaitPush? {
      assert m.owner == By(t) && Target(m) == [] && Target(m') == [];
    } else if a.SignalPop? {
      assert m.owner == By(t) && Target(m) == [] && Target(m') == [m.queue[0]];
    } else {
      assert Target(m') == Target(m);
    }
  }

  // The list of waits and the count of signals belong to the lock's owner.
  lemma ListGuardedByLock(m: M, a: Action, t: Tid)
    requires Reachable(m) && Enabled(m, a, t) && m.owner != By(t)
    ensures var m' := Step(m, a, t); m'.queue == m.queue && m'.waits == m.waits && m'.signalled == m.signalled
  {
    ReachableOk(m);
    hide SemaOk, CondOk, Reachable;
  }

  // cond_broadcast by the thread that holds the lock.
  function Broadcast(m: M, t: Tid): M
    decreases |m.queue|
  {
    if Enabled(m, SignalPop, t) then
      var chosen := Step(m, SignalPop, t);
      if Enabled(chosen, SignalUp, t) then Broadcast(Step(chosen, SignalUp, t), t) else chosen
    else m
  }

  // It releases every wait on the list, in order.
  lemma {:induction false} BroadcastReleasesAll(m: M, t: Tid)
    requires Reachable(m) && t in m.pc && m.pc[t].Inside?
    ensures var m' := Broadcast(m, t);
            && Reachable(m') && m'.queue == [] && m'.waits == m.waits && m'.signalled == |m.waits|
            && m'.own.Keys == m.own.Keys && t in m'.pc && m'.pc[t].Inside?
            && (forall h :: h in m.own ==> Released(m', h))
    decreases |m.queue|
  {
    hide Inv, Reachable;
    ReachableOk(m);
    NobodyElseSignals(m, t);
    if m.queue != [] {
      ReachableStep(m, SignalPop, t);
      var chosen := Chosen(m, t);
      ReachableOk(chosen);
      TargetWaits(chosen, t);
      ReachableStep(chosen, SignalUp, t);
      SignalInProgress(chosen, t, m.queue[0]);
      hide Up, CondAt, Pending;
      BroadcastReleasesAll(Woke(chosen, t, m.queue[0]), t);
    } else {
      assert m.waits[m.signalled..] == [];
    }
  }

  lemma NobodyElseSignals(m: M, t: Tid)
    requires Inv(m) && t in m.pc && m.pc[t].Inside?
    ensures m.signalled <= |m.waits| && Target(m) == [] && Pending(m) == m.queue == m.waits[m.signalled..]
  {
    hide SemaOk;
    assert m.owner == By(t);
  }

  lemma TargetWaits(m: M, t: Tid)
    requires Inv(m) && t in m.pc && m.pc[t].Signalling?
    ensures Enabled(m, SignalUp, t)
  {
    hide SemaOk;
    assert m.owner == By(t);
    assert Target(m)[0] == m.pc[t].target;
    assert m.pc[t].target in Pending(m);
  }

  // ---- The lock and the condition variable themselves. ----

  class Monitor {
    const lock: Semaphore
    var holder: Holder
    var queue: seq<Tid>
    var own: map<Tid, Semaphore>
    var pc: map<Tid, Pc>
    ghost var owner: Holder
    ghost var waits: seq<Tid>
    ghost var signalled: nat

    ghost function OwnSemas(): map<Tid, Sema>
      reads this, own.Values
    {
      map t | t in own :: own[t].S()
    }

    ghost function State(): M
      reads this, lock, own.Values
    {
      M(lock.S(), holder, queue, OwnSemas(), pc, owner, waits, signalled)
    }

    ghost predicate Apart()
      reads this`own
    {
      && (forall t :: t in own ==> own[t] != lock)
      && (forall t, u :: t in own && u in own && t != u ==> own[t] != own[u])
    }

    ghost predicate Valid()
      reads this, lock, own.Values
    {
      Inv(State()) && Apart()
    }

    // The objects are those of state m, each semaphore in one place.
    ghost predicate Shows(m: M)
      reads this, lock, own.Values
    {
      && m == M(lock.S(), holder, queue, m.own, pc, owner, waits, signalled)
      && m.own.Keys == own.Keys && (forall u :: u in own ==> m.own[u] == own[u].S())
      && (forall u :: u in own ==> own[u] != lock) && (forall t, u :: t in own && u in own && t != u ==> own[t] != own[u])
    }

    lemma Opened()
      requires Valid()
      ensures Inv(State()) && Shows(State())
    {
      hide Inv;
    }

    lemma Sealed(m: M)
      requires Inv(m) && Shows(m)
      ensures Valid() && State() == m
    {
      hide Inv;
      assert OwnSemas() == m.own;
    }

    constructor (threads: set<Tid>)
      ensures Valid() && State() == Start(threads) && fresh(lock)
    {
      lock := new Semaphore(1);
      holder, queue, own, pc := NoOne, [], map[], map t | t in threads :: Outside;
      owner, waits, signalled := NoOne, [], 0;
      new;
      EveryRunOk(threads, []);
    }

    // lock_acquire: down on the semaphore. A thread that cond_wait let go comes
    // here too, and so does one that was woken.
    method DownLock(t: Tid)
      requires Valid() && Enabled(State(), Acquire, t)
      modifies this`pc, this`owner, lock
      ensures Valid() && State() == Acquired(old(State()), t)
    {
      hide Inv, SemaOk, Up;
      InvKept(State(), Acquire, t);
      LockReady(State(), t);
      var done := lock.DownStep(t);
      pc := pc[t := if done then Claiming else LockBlocked];
      owner := if done then By(t) else owner;
      assert OwnSemas() == old(OwnSemas());
    }

    // lock_try_acquire.
    method TryDownLock(t: Tid)
      requires Valid() && Enabled(State(), TryAcquire, t)
      modifies this`pc, this`owner, lock
      ensures Valid() && State() == Tried(old(State()), t)
    {
      hide Inv, SemaOk, Up;
      InvKept(State(), TryAcquire, t);
      LockReady(State(), t);
      var done := lock.TryDown(t);
      if done {
        pc := pc[t := Claiming];
        owner := By(t);
      }
      assert OwnSemas() == old(OwnSemas());
    }

    // lock->holder = thread_current ().
    method ClaimLock(t: Tid)
      requires Valid() && Enabled(State(), SetHolder, t)
      modifies this`pc, this`holder
      ensures Valid() && State() == Claimed(old(State()), t)
    {
      hide Inv, SemaOk;
      InvKept(State(), SetHolder, t);
      holder := By(t);
      pc := pc[t := Inside];
      assert OwnSemas() == old(OwnSemas());
    }

    // lock_release by the holder, up to its sema_up.
    method LetGo(t: Tid)
      requires Valid() && Enabled(State(), ClearHolder, t)
      modifies this`pc, this`holder
      ensures old(holder) == By(t)
      ensures Valid() && State() == Cleared(old(State()), t)
    {
      hide Inv, SemaOk;
      HolderInside(State(), t);
      InvKept(State(), ClearHolder, t);
      holder := NoOne;
      pc := pc[t := Releasing(pc[t].CondQueued?)];
      assert OwnSemas() == old(OwnSemas());
    }

    method ReturnLock(t: Tid)
      requires Valid() && Enabled(State(), UpLock, t)
      modifies this`pc, this`owner, lock
      ensures Valid() && State() == Returned(old(State()), t)
    {
      hide Inv, SemaOk, Up, Valid, State, Enabled;
      ghost var m := State();
      Opened();
      ReturnKept(m, t);
      var next := if pc[t].waiting then CondReleased else Outside;
      var unblock, w := lock.UpStep();
      if unblock {
        pc := pc[w := LockWoken];
      }
      pc := pc[t := next];
      owner := NoOne;
      Sealed(Returned(m, t));
    }

    // cond_wait: a semaphore of its own at the end of the list.
    method QueueUp(t: Tid)
      requires Valid() && Enabled(State(), WaitPush, t)
      modifies this`pc, this`own, this`queue, this`waits
      ensures Valid() && State() == Queued(old(State()), t)
      ensures fresh(own.Values - old(own.Values))
    {
      hide Inv, SemaOk, Valid, State, Enabled;
      ghost var m := State();
      Opened();
      QueueKept(m, t);
      var waiter := new Semaphore(0);
      hide Shows, Queued;
      Enlist(t, waiter, m);
      Sealed(Queued(m, t));
    }

    method Enlist(t: Tid, waiter: Semaphore, ghost m: M)
      requires Shows(m) && waiter != lock && (forall u :: u in own ==> own[u] != waiter) && waiter.S() == Init(0)
      modifies this`pc, this`own, this`queue, this`waits
      ensures Shows(Queued(m, t)) && own == old(own)[t := waiter]
    {
      own := own[t := waiter];
      queue := queue + [t];
      waits := waits + [t];
      pc := pc[t := CondQueued];
    }

    method DownOwn(t: Tid)
      requires Valid() && Enabled(State(), OwnDown, t)
      modifies this`pc, this`own, own[t]
      ensures Valid() && State() == Tested(old(State()), t)
      ensures own.Values <= old(own.Values)
    {
      hide *;
      ghost var m := State();
      Opened();
      TestKept(m, t);
      ShownOwn(m);
      TestOwn(t, m);
      Sealed(Tested(m, t));
    }

    lemma ShownOwn(m: M)
      requires Shows(m)
      ensures m.own.Keys == own.Keys && m.pc == pc && forall u :: u in own ==> m.own[u] == own[u].S()
    {
    }

    method TestOwn(t: Tid, ghost m: M)
      requires Shows(m) && t in own && SemaOk(m.own[t]) && t !in m.own[t].waiters
      modifies this`pc, this`own, own[t]
      ensures t in m.own && Shows(Tested(m, t)) && own.Values <= old(own.Values)
    {
      hide SemaOk, Down;
      var done := own[t].DownStep(t);
      assert forall u :: u in own && u != t ==> own[u].S() == m.own[u];
      hide *;
      Changed(m, t, Down(m.own[t], t));
      MoveTested(t, done, m);
    }

    // All is as in m but for one semaphore.
    ghost predicate AllBut(m: M, h: Tid, s: Sema)
      reads this, lock, own.Values
    {
      h in m.own && Shows(m.(own := m.own[h := s]))
    }

    lemma Changed(m: M, h: Tid, s: Sema)
      requires m == M(lock.S(), holder, queue, m.own, pc, owner, waits, signalled) && m.own.Keys == own.Keys && h in own
      requires own[h].S() == s && (forall u :: u in own && u != h ==> own[u].S() == m.own[u]) && Apart()
      ensures AllBut(m, h, s)
    {
    }

    // The caller has its unit, and its semaphore is gone, or it sleeps.
    method MoveTested(t: Tid, done: bool, ghost m: M)
      requires t in m.own && AllBut(m, t, Down(m.own[t], t)) && (done <==> m.own[t].value > 0)
      modifies this`pc, this`own
      ensures Shows(Tested(m, t)) && own.Values <= old(own.Values)
    {
      hide Down;
      if done {
        own := own - {t};
        pc := pc[t := Returning];
      } else {
        pc := pc[t := CondBlocked];
      }
    }

    // cond_signal: the first waiter leaves the list ...
    method ChooseWaiter(t: Tid)
      requires Valid() && Enabled(State(), SignalPop, t)
      modifies this`pc, this`queue
      ensures Valid() && State() == Chosen(old(State()), t)
    {
      hide Inv, SemaOk;
      InvKept(State(), SignalPop, t);
      pc := pc[t := Signalling(queue[0])];
      queue := queue[1..];
      assert OwnSemas() == old(OwnSemas());
    }

    // ... and its semaphore goes up.
    method WakeWaiter(t: Tid)
      requires Valid() && Enabled(State(), SignalUp, t)
      modifies this`pc, this`signalled, own.Values
      ensures Valid() && State() == Woke(old(State()), t, old(pc[t].target))
    {
      hide *;
      ghost var m := State();
      Opened();
      WakeKept(m, t);
      ShownOwn(m);
      WakeOwn(t, pc[t].target, m);
      Sealed(Woke(m, t, m.pc[t].target));
    }

    method WakeOwn(t: Tid, h: Tid, ghost m: M)
      requires Shows(m) && h in own && SemaOk(m.own[h])
      modifies this`pc, this`signalled, own[h]
      ensures h in m.own && Shows(Woke(m, t, h))
    {
      hide SemaOk, Up;
      var unblock, w := own[h].UpStep();
      assert forall u :: u in own && u != h ==> own[u].S() == m.own[u];
      hide *;
      Changed(m, h, Up(m.own[h]));
      MoveWoken(t, unblock, w, h, m);
    }

    // The woken thread and the caller move on.
    method MoveWoken(t: Tid, unblock: bool, w: Tid, h: Tid, ghost m: M)
      requires h in m.own && AllBut(m, h, Up(m.own[h])) && (unblock <==> m.own[h].waiters != []) && (unblock ==> w == m.own[h].waiters[0])
      modifies this`pc, this`signalled
      ensures Shows(Woke(m, t, h))
    {
      hide Up;
      if unblock {
        pc := pc[w := CondWoken];
      }
      pc := pc[t := Inside];
      signalled := signalled + 1;
    }

    // Any schedule: threads take steps as their place in the code allows.
    method Run(events: seq<Event>)
      requires Valid()
      modifies this, lock, own.Values
      ensures Valid() && State() == After(old(State()), events)
    {
      hide Step, Inv, Enabled;
      for n := 0 to |events|
        invariant Valid() && State() == After(old(State()), events[..n])
        invariant fresh(own.Values - old(own.Values))
      {
        assert events[..n + 1][..n] == events[..n];
        Do(events[n].a, events[n].t);
      }
      assert events[..|events|] == events;
    }

    method Do(a: Action, t: Tid)
      requires Valid()
      modifies this, lock, own.Values
      ensures Valid() && State() == Next(old(State()), Event(a, t))
      ensures fresh(own.Values - old(own.Values))
    {
      hide Inv, Ready, Acquired, Tried, Claimed, Cleared, Returned, Queued, Tested, Chosen, Woke;
      assert State().own.Keys == own.Keys;
      if Ready(pc, queue, own.Keys, a, t) {
        match a
        case Acquire => DownLock(t);
        case TryAcquire => TryDownLock(t);
        case SetHolder => ClaimLock(t);
        case ClearHolder => LetGo(t);
        case UpLock => ReturnLock(t);
        case WaitPush => QueueUp(t);
        case OwnDown =>
          OwnPresent(State(), t);
          assert own[t] in own.Values;
          DownOwn(t);
        case SignalPop => ChooseWaiter(t);
        case SignalUp => WakeWaiter(t);
      }
    }
  }

  lemma HolderInside(m: M, t: Tid)
    requires Inv(m) && t in m.pc && Holds(m.pc[t])
    ensures m.holder == By(t)
  {
  }

  lemma OwnPresent(m: M, t: Tid)
    requires Enabled(m, OwnDown, t)
    ensures t in m.own
  {
  }

  lemma LockReady(m: M, t: Tid)
    requires Inv(m)
    ensures SemaOk(m.lock)
    ensures Enabled(m, Acquire, t) ==> t !in m.lock.waiters
    ensures Enabled(m, TryAcquire, t) ==> t !in m.lock.woken
  {
    hide SemaOk, CondOk;
  }

  lemma ReturnKept(m: M, t: Tid)
    requires Inv(m) && Enabled(m, UpLock, t)
    ensures t in m.pc && m.pc[t].Releasing? && SemaOk(m.lock) && Inv(Returned(m, t))
  {
    hide Inv, SemaOk;
    InvKept(m, UpLock, t);
    LockReady(m, t);
  }

  lemma QueueKept(m: M, t: Tid)
    requires Inv(m) && Enabled(m, WaitPush, t)
    ensures Inv(Queued(m, t))
  {
    hide Inv;
    InvKept(m, WaitPush, t);
  }

  lemma TestKept(m: M, t: Tid)
    requires Inv(m) && Enabled(m, OwnDown, t)
    ensures t in m.own && SemaOk(m.own[t]) && t !in m.own[t].waiters && Inv(Tested(m, t))
  {
    hide Inv, SemaOk;
    InvKept(m, OwnDown, t);
    NotAsleep(m, t);
  }

  lemma WakeKept(m: M, t: Tid)
    requires Inv(m) && Enabled(m, SignalUp, t)
    ensures t in m.pc && m.pc[t].Signalling? && m.pc[t].target in m.own && SemaOk(m.own[m.pc[t].target])
    ensures Inv(Woke(m, t, m.pc[t].target))
  {
    hide Inv, SemaOk;
    InvKept(m, SignalUp, t);
    TargetOk(m, t);
  }

  lemma NotAsleep(m: M, t: Tid)
    requires Inv(m) && Enabled(m, OwnDown, t)
    ensures t in m.own && SemaOk(m.own[t]) && t !in m.own[t].waiters
  {
    hide LockOk, SemaOk;
    assert CondAt(m.pc[t], t, m.own, t in Pending(m));
  }

  lemma TargetOk(m: M, t: Tid)
    requires Inv(m) && Enabled(m, SignalUp, t)
    ensures SemaOk(m.own[m.pc[t].target])
  {
    hide LockOk, SemaOk;
    SignalInProgress(m, t, m.pc[t].target);
  }
}
