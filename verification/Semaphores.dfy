// Semaphores under every interleaving. A thread runs sema_down with interrupts
// off, so each of its passes through the test is one step; so is sema_up.
module Semaphores {

  type Tid = nat

  // A semaphore with its history: the threads that were woken and have not
  // tested the value again, completed ups and downs, and every thread that ever
  // queued, in order, of which the first `popped` have been woken.
  datatype Sema = Sema(value: nat, waiters: seq<Tid>, woken: set<Tid>, initial: nat, ups: nat, downs: nat,
                       pushed: seq<Tid>, popped: nat)

  function Init(value: nat): Sema {
    Sema(value, [], {}, value, 0, 0, [], 0)
  }

  // One pass of thread t through the loop of sema_down: it queues or it is done.
  function Down(s: Sema, t: Tid): Sema {
    if s.value == 0 then s.(waiters := s.waiters + [t], woken := s.woken - {t}, pushed := s.pushed + [t])
    else s.(value := s.value - 1, woken := s.woken - {t}, downs := s.downs + 1)
  }

  function Up(s: Sema): Sema {
    var s' := s.(value := s.value + 1, ups := s.ups + 1);
    if s.waiters == [] then s'
    else s'.(waiters := s.waiters[1..], woken := s.woken + {s.waiters[0]}, popped := s.popped + 1)
  }

  ghost predicate Distinct(s: seq<Tid>) {
    forall i, j :: 0 <= i < j < |s| ==> s[i] != s[j]
  }

  // What holds of a semaphore at every moment. The last clause says that no
  // wake-up is lost: as long as a thread sleeps, each unit of the value has a
  // woken thread on its way to take it.
  ghost predicate SemaOk(s: Sema) {
    && s.value + s.downs == s.initial + s.ups
    && Distinct(s.waiters) && (forall t :: t in s.waiters ==> t !in s.woken)
    && s.popped <= |s.pushed| && s.waiters == s.pushed[s.popped..]
    && (s.waiters != [] ==> s.value <= |s.woken|)
  }

  lemma DownOk(s: Sema, t: Tid)
    requires SemaOk(s) && t !in s.waiters
    ensures SemaOk(Down(s, t))
  {
    var s' := Down(s, t);
    if s.value == 0 {
      assert s'.pushed[s'.popped..] == s.pushed[s.popped..] + [t];
      forall u | u in s'.waiters
        ensures u !in s'.woken
      {
        assert u in s.waiters || u == t;
      }
    } else if t in s.woken {
      assert s.woken == s'.woken + {t};
    } else {
      assert s'.woken == s.woken;
    }
  }

  lemma UpOk(s: Sema)
    requires SemaOk(s)
    ensures SemaOk(Up(s))
  {
    if s.waiters != [] {
      assert s.waiters[0] in s.waiters;
      assert |Up(s).woken| == |s.woken| + 1;
      forall u | u in Up(s).waiters
        ensures u !in Up(s).woken
      {
        assert u in s.waiters;
      }
    }
  }

  // ---- Whole runs. ----

  datatype SemaEvent = DownBy(t: Tid) | TryDownBy(t: Tid) | UpByAnyone

  // A thread on the waiter list is blocked and takes no step.
  function SemaNext(s: Sema, e: SemaEvent): Sema {
    match e
    case DownBy(t) => if t in s.waiters then s else Down(s, t)
    case TryDownBy(t) => if t in s.waiters || t in s.woken || s.value == 0 then s else Down(s, t)
    case UpByAnyone => Up(s)
  }

  function SemaAfter(s: Sema, events: seq<SemaEvent>): Sema {
    if events == [] then s else SemaNext(SemaAfter(s, events[..|events| - 1]), events[|events| - 1])
  }

  // Whatever threads do in whatever order, the value is the initial one plus
  // the ups less the completed downs, and no wake-up is lost.
  lemma {:induction false} SemaRunOk(value: nat, events: seq<SemaEvent>)
    ensures SemaOk(SemaAfter(Init(value), events))
    ensures SemaAfter(Init(value), events).initial == value
  {
    if events != [] {
      SemaRunOk(value, events[..|events| - 1]);
      var s := SemaAfter(Init(value), events[..|events| - 1]);
      match events[|events| - 1]
      case DownBy(t) => if t !in s.waiters { DownOk(s, t); }
      case TryDownBy(t) => if t !in s.waiters { DownOk(s, t); }
      case UpByAnyone => UpOk(s);
    }
  }

  function UpsIn(events: seq<SemaEvent>): nat {
    if events == [] then 0
    else UpsIn(events[..|events| - 1]) + if events[|events| - 1].UpByAnyone? then 1 else 0
  }

  // Whether a thread that is not asleep asks for a unit and there is one.
  ghost predicate TakesUnit(s: Sema, e: SemaEvent) {
    s.value > 0 && ((e.DownBy? && e.t !in s.waiters) || (e.TryDownBy? && e.t !in s.waiters && e.t !in s.woken))
  }

  ghost function TakenIn(value: nat, events: seq<SemaEvent>): nat {
    if events == [] then 0
    else
      TakenIn(value, events[..|events| - 1])
      + if TakesUnit(SemaAfter(Init(value), events[..|events| - 1]), events[|events| - 1]) then 1 else 0
  }

  // The value is what the ups have put there and nobody has taken.
  lemma {:induction false} ValueLaw(value: nat, events: seq<SemaEvent>)
    ensures SemaAfter(Init(value), events).value + TakenIn(value, events) == value + UpsIn(events)
  {
    if events != [] {
      ValueLaw(value, events[..|events| - 1]);
    }
  }

  // Threads are woken in the order in which they went to sleep: in every run the
  // next event wakes the longest sleeper if it is an up, and nobody if it is
  // not; only a down that finds no unit adds a sleeper, behind all others.
  lemma WokenInOrder(value: nat, events: seq<SemaEvent>, e: SemaEvent)
    ensures var s := SemaAfter(Init(value), events);
            var s' := SemaNext(s, e);
            && s.popped <= |s.pushed|
            && s'.woken - s.woken == (if e.UpByAnyone? && s.popped < |s.pushed| then {s.pushed[s.popped]} else {})
            && s.woken - s'.woken == (if e.DownBy? && e.t !in s.waiters then s.woken * {e.t} else {})
            && s'.popped == s.popped + |s'.woken - s.woken|
            && s'.pushed == (if e.DownBy? && e.t !in s.waiters && s.value == 0 then s.pushed + [e.t] else s.pushed)
  {
    SemaRunOk(value, events);
    var s := SemaAfter(Init(value), events);
    var s' := SemaNext(s, e);
    if e.UpByAnyone? && s.waiters != [] {
      assert s.waiters[0] == s.pushed[s.popped] && s.waiters[0] in s.waiters;
      assert s'.woken - s.woken == {s.waiters[0]};
    } else {
      assert s'.woken - s.woken == {};
    }
  }

  // ---- The semaphore itself. ----

  class Semaphore {
    var value: nat
    var waiters: seq<Tid>
    ghost var woken: set<Tid>
    ghost var initial: nat
    ghost var ups: nat
    ghost var downs: nat
    ghost var pushed: seq<Tid>
    ghost var popped: nat

    ghost function S(): Sema
      reads this
    {
      Sema(value, waiters, woken, initial, ups, downs, pushed, popped)
    }

    ghost predicate Valid()
      reads this
    {
      SemaOk(S())
    }

    constructor (value: nat)
      ensures Valid() && S() == Init(value)
    {
      this.value, waiters := value, [];
      woken, initial, ups, downs, pushed, popped := {}, value, 0, 0, [], 0;
    }

    // sema_down up to its next thread_block or its end; a thread that was woken
    // comes back here.
    method DownStep(t: Tid) returns (done: bool)
      requires Valid() && t !in waiters
      modifies this
      ensures Valid() && S() == Down(old(S()), t)
      ensures done <==> old(value) > 0
    {
      DownOk(S(), t);
      woken := woken - {t};
      if value == 0 {
        waiters := waiters + [t];
        pushed := pushed + [t];
        return false;
      }
      value := value - 1;
      downs := downs + 1;
      done := true;
    }

    method TryDown(t: Tid) returns (success: bool)
      requires Valid() && t !in waiters && t !in woken
      modifies this
      ensures Valid() && (success <==> old(value) > 0)
      ensures S() == if success then Down(old(S()), t) else old(S())
    {
      success := false;
      if value > 0 {
        DownOk(S(), t);
        value := value - 1;
        downs := downs + 1;
        assert woken - {t} == woken;
        success := true;
      }
    }

    // The thread to unblock, if any.
    method UpStep() returns (unblock: bool, t: Tid)
      requires Valid()
      modifies this
      ensures Valid() && S() == Up(old(S()))
      ensures unblock <==> old(waiters) != []
      ensures unblock ==> t == old(waiters)[0]
    {
      UpOk(S());
      unblock, t := false, 0;
      if waiters != [] {
        unblock, t := true, waiters[0];
        waiters := waiters[1..];
        woken := woken + {t};
        popped := popped + 1;
      }
      value := value + 1;
      ups := ups + 1;
    }
  }
}
