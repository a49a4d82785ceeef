// Can one stack put the trains in order? The greedy check against every way of
// using the stack, and against the order of the trains alone.
module StackSort {

  // Trains wait in a queue, go onto one stack and from there onto the way out.
  datatype Yard = Yard(stack: seq<int>, queue: seq<int>, out: seq<int>) | Stuck

  datatype Op = Push | Pop

  function Do(y: Yard, op: Op): Yard {
    match y
    case Stuck => Stuck
    case Yard(s, q, o) =>
      match op
      case Push => if q == [] then Stuck else Yard(s + [q[0]], q[1..], o)
      case Pop => if s == [] then Stuck else Yard(s[..|s| - 1], q, o + [s[|s| - 1]])
  }

  function Run(y: Yard, ops: seq<Op>): Yard
    decreases |ops|
  {
    if ops == [] then y else Run(Do(y, ops[0]), ops[1..])
  }

  // The numbers 1 to n.
  function UpTo(n: nat): (r: seq<int>)
    ensures |r| == n && forall i :: 0 <= i < n ==> r[i] == i + 1
  {
    if n == 0 then [] else UpTo(n - 1) + [n]
  }

  ghost predicate Sorts(p: seq<int>, ops: seq<Op>) {
    Run(Yard([], p, []), ops) == Yard([], [], UpTo(|p|))
  }

  ghost predicate Sortable(p: seq<int>) {
    exists ops :: Sorts(p, ops)
  }

  ghost predicate Permutation(p: seq<int>) {
    multiset(p) == multiset(UpTo(|p|))
  }

  // The pattern 2-3-1: a train, a later one with a greater number, and a still
  // later one with a smaller number than both.
  ghost predicate Pattern(p: seq<int>) {
    exists i, j, k :: 0 <= i < j < k < |p| && PatternAt(p, i, j, k)
  }

  predicate PatternAt(p: seq<int>, i: nat, j: nat, k: nat)
    requires i < j < k < |p|
  {
    p[k] < p[i] < p[j]
  }

  lemma {:induction false} RunAppend(y: Yard, a: seq<Op>, b: seq<Op>)
    ensures Run(y, a + b) == Run(Run(y, a), b)
    decreases |a|
  {
    if a == [] {
      assert a + b == b;
    } else {
      RunAppend(Do(y, a[0]), a[1..], b);
      assert (a + b)[1..] == a[1..] + b;
    }
  }

  // ---- The pattern cannot be sorted. ----

  ghost predicate Increasing(s: seq<int>) {
    forall i, j :: 0 <= i < j < |s| ==> s[i] < s[j]
  }

  // Trains in the order of their arrival, of which the first n are on the
  // stack: either one is below a greater one, or the pattern is still to come.
  ghost predicate Hopeless(w: seq<int>, n: nat) {
    || (exists a, b :: 0 <= a < b < n <= |w| && w[a] < w[b])
    || (exists i, j, k :: 0 <= i < j < k < |w| && n <= k && PatternAt(w, i, j, k))
  }

  // Everything in the yard gets out, behind what is out already.
  lemma {:induction false} AllGetOut(y: Yard, ops: seq<Op>)
    requires y.Yard? && Run(y, ops).Yard? && Run(y, ops).stack == [] && Run(y, ops).queue == []
    ensures y.out <= Run(y, ops).out
    ensures forall x :: x in y.stack + y.queue ==> x in Run(y, ops).out[|y.out|..]
    decreases |ops|
  {
    if ops != [] {
      var z := Do(y, ops[0]);
      if z == Stuck { StuckStays(ops[1..]); }
      AllGetOut(z, ops[1..]);
      var r := Run(y, ops).out;
      forall x | x in y.stack + y.queue
        ensures x in r[|y.out|..]
      {
        if ops[0].Pop? && x == y.stack[|y.stack| - 1] {
          assert r[|y.out|..][0] == x;
        } else {
          MovedAlong(y, ops[0], x);
          assert r[|y.out|..] == r[|y.out|..|z.out|] + r[|z.out|..];
        }
      }
    }
  }

  lemma {:induction false} StuckStays(ops: seq<Op>)
    ensures Run(Stuck, ops) == Stuck
  {
    if ops != [] { StuckStays(ops[1..]); }
  }

  lemma MovedAlong(y: Yard, op: Op, x: int)
    requires y.Yard? && Do(y, op).Yard? && x in y.stack + y.queue
    requires op.Pop? ==> x != y.stack[|y.stack| - 1]
    ensures x in Do(y, op).stack + Do(y, op).queue
  {
    var s, q := y.stack, y.queue;
    if op.Push? {
      assert s + q == s + [q[0]] + q[1..];
    } else {
      assert s == s[..|s| - 1] + [s[|s| - 1]];
    }
  }

  lemma {:induction false} HopelessFails(y: Yard, ops: seq<Op>)
    requires y.Yard? && Hopeless(y.stack + y.queue, |y.stack|)
    requires Run(y, ops).Yard? && Run(y, ops).stack == [] && Run(y, ops).queue == []
    ensures !Increasing(Run(y, ops).out)
    decreases |ops|
  {
    if ops != [] && Increasing(Run(y, ops).out) {
      var z := Do(y, ops[0]);
      if z == Stuck { StuckStays(ops[1..]); }
      StillHopeless(y, ops);
      hide Hopeless, Do, Increasing;
      HopelessFails(z, ops[1..]);
    }
  }

  // Neither operation helps as long as the output is in order.
  lemma StillHopeless(y: Yard, ops: seq<Op>)
    requires y.Yard? && Hopeless(y.stack + y.queue, |y.stack|) && ops != [] && Do(y, ops[0]).Yard?
    requires Run(y, ops).Yard? && Run(y, ops).stack == [] && Run(y, ops).queue == [] && Increasing(Run(y, ops).out)
    ensures var z := Do(y, ops[0]); Hopeless(z.stack + z.queue, |z.stack|)
  {
    var z := Do(y, ops[0]);
    hide Hopeless;
    match ops[0]
    case Push =>
      HopelessPush(y.stack + y.queue, |y.stack|);
      assert z.stack + z.queue == y.stack + y.queue;
    case Pop =>
      LeastFirst(y, z, ops[1..]);
      assert y.stack == z.stack + [y.stack[|y.stack| - 1]];
      HopelessPop(z.stack, y.stack[|y.stack| - 1], y.queue);
  }

  lemma HopelessPush(w: seq<int>, n: nat)
    requires Hopeless(w, n) && n < |w|
    ensures Hopeless(w, n + 1)
  {
    if i, j, k :| 0 <= i < j < k < |w| && n <= k && PatternAt(w, i, j, k) {
      if k == n {
        assert w[i] < w[j];
      }
    }
  }

  // If what gets out is in order, the train on top goes before all others.
  lemma LeastFirst(y: Yard, z: Yard, ops: seq<Op>)
    requires y.Yard? && y.stack != [] && z == Do(y, Pop)
    requires Run(z, ops).Yard? && Run(z, ops).stack == [] && Run(z, ops).queue == [] && Increasing(Run(z, ops).out)
    ensures forall x :: x in z.stack + z.queue ==> y.stack[|y.stack| - 1] < x
  {
    AllGetOut(z, ops);
    var r, top := Run(z, ops).out, y.stack[|y.stack| - 1];
    assert r[|y.out|] == top;
    forall x | x in z.stack + z.queue
      ensures top < x
    {
      var i :| 0 <= i < |r[|z.out|..]| && r[|z.out|..][i] == x;
      assert r[|z.out| + i] == x;
    }
  }

  lemma HopelessPop(s: seq<int>, top: int, q: seq<int>)
    requires Hopeless(s + [top] + q, |s| + 1)
    requires forall x :: x in s + q ==> top < x
    ensures Hopeless(s + q, |s|)
  {
    var w := s + [top] + q;
    if a, b :| 0 <= a < b < |s| + 1 && w[a] < w[b] {
      assert w[a] in s + q;
      assert (s + q)[a] == w[a] && (s + q)[b] == w[b];
    } else {
      var i, j, k :| 0 <= i < j < k < |w| && |s| + 1 <= k && PatternAt(w, i, j, k);
      PatternLeft(s, top, q, i, j, k);
    }
  }

  // Taking the least train away leaves the pattern.
  lemma PatternLeft(s: seq<int>, top: int, q: seq<int>, i: nat, j: nat, k: nat)
    requires i < j < k < |s + [top] + q| && |s| < k && PatternAt(s + [top] + q, i, j, k)
    requires forall x :: x in s + q ==> top < x
    ensures Hopeless(s + q, |s|)
  {
    var w, v := s + [top] + q, s + q;
    assert w[k] == v[k - 1] && v[k - 1] in v;
    var i', j': nat := if i < |s| then i else i - 1, if j < |s| then j else j - 1;
    assert w[i] == v[i'] && w[j] == v[j'];
    assert PatternAt(v, i', j', k - 1);
  }

  lemma PatternNotSortable(p: seq<int>)
    requires Pattern(p)
    ensures !Sortable(p)
  {
    forall ops
      ensures !Sorts(p, ops)
    {
      PatternDefeats(p, ops);
    }
  }

  lemma PatternDefeats(p: seq<int>, ops: seq<Op>)
    requires Pattern(p)
    ensures !Sorts(p, ops)
  {
    if Sorts(p, ops) {
      assert [] + p == p;
      HopelessStart(p);
      hide Hopeless, Pattern, Run;
      HopelessFails(Yard([], p, []), ops);
    }
  }

  lemma HopelessStart(p: seq<int>)
    requires Pattern(p)
    ensures Hopeless(p, 0)
  {
    var i, j, k :| 0 <= i < j < k < |p| && PatternAt(p, i, j, k);
  }

  // ---- The greedy check. ----

  ghost predicate Distinct(s: seq<int>) {
    forall i, j :: 0 <= i < j < |s| ==> s[i] != s[j]
  }

  // What is left in the yard are the numbers from target on, each once.
  ghost predicate Left(stack: seq<int>, queue: seq<int>, target: nat, n: nat) {
    && 0 < target <= n + 1
    && (forall x :: x in stack || x in queue <==> target <= x <= n)
    && |stack| + |queue| == n - (target - 1)
    && Distinct(queue) && forall x :: x in stack ==> x !in queue
  }

  lemma {:induction false} UpToHas(n: nat)
    ensures forall x :: x in UpTo(n) <==> 1 <= x <= n
  {
    if n > 0 {
      UpToHas(n - 1);
      assert forall x :: x in UpTo(n) <==> x in UpTo(n - 1) || x == n;
    }
  }

  // A permutation of 1 to n has each of them once.
  lemma PermutationDistinct(p: seq<int>)
    requires Permutation(p)
    ensures Left([], p, 1, |p|)
  {
    var u := UpTo(|p|);
    UpToHas(|p|);
    forall x
      ensures x in p <==> 1 <= x <= |p|
    {
      assert x in p <==> x in multiset(p);
      assert x in u <==> x in multiset(u);
    }
    if i, j :| 0 <= i < j < |p| && p[i] == p[j] {
      SameTwice(p, i, j);
      DistinctOnce(u, p[i]);
    }
  }

  lemma SameTwice(p: seq<int>, i: nat, j: nat)
    requires i < j < |p| && p[i] == p[j]
    ensures multiset(p)[p[i]] >= 2
  {
    assert p == p[..j] + [p[j]] + p[j + 1..];
    assert p[..j][i] == p[i];
    assert multiset(p) == multiset(p[..j]) + multiset{p[j]} + multiset(p[j + 1..]);
  }

  lemma {:induction false} DistinctOnce(s: seq<int>, x: int)
    requires Distinct(s)
    ensures multiset(s)[x] <= 1
  {
    if s != [] {
      var n := |s| - 1;
      assert s == s[..n] + [s[n]];
      DistinctOnce(s[..n], x);
      assert multiset(s) == multiset(s[..n]) + multiset{s[n]};
      assert s[n] !in s[..n];
    }
  }

  lemma LeftAfterPush(stack: seq<int>, queue: seq<int>, target: nat, n: nat)
    requires Left(stack, queue, target, n) && queue != []
    ensures Left(stack + [queue[0]], queue[1..], target, n)
  {
    assert queue == [queue[0]] + queue[1..];
    assert queue[0] !in queue[1..];
    assert forall x :: x in queue <==> x == queue[0] || x in queue[1..];
    assert forall x :: x in stack + [queue[0]] <==> x in stack || x == queue[0];
  }

  lemma LeftAfterPop(stack: seq<int>, queue: seq<int>, target: nat, n: nat, gone: seq<int>)
    requires Left(stack, queue, target, n) && Stacked(stack, gone)
    requires target <= n && stack != [] && stack[|stack| - 1] == target
    ensures Left(stack[..|stack| - 1], queue, target + 1, n) && Stacked(stack[..|stack| - 1], gone)
  {
    var s := stack[..|stack| - 1];
    assert stack == s + [target];
    assert forall x :: x in stack <==> x in s || x == target;
    assert target !in s;
  }

  // The stack decreases towards its top and holds trains that have left the queue.
  ghost predicate Stacked(stack: seq<int>, gone: seq<int>) {
    && (forall a, b :: 0 <= a < b < |stack| ==> stack[a] > stack[b])
    && (forall x :: x in stack ==> x in gone)
  }

  // If the train on top is not next, the next one is still in the queue.
  lemma NextInQueue(stack: seq<int>, queue: seq<int>, target: nat, n: nat, gone: seq<int>)
    requires Left(stack, queue, target, n) && target <= n && Stacked(stack, gone)
    requires stack != [] ==> stack[|stack| - 1] != target
    ensures target in queue
  {
    assert stack != [] ==> stack[|stack| - 1] in stack;
  }

  // A greater train on a smaller one that is not next makes the pattern.
  lemma TooLate(p: seq<int>, pos: nat, stack: seq<int>, target: nat)
    requires pos < |p| && Left(stack, p[pos..], target, |p|) && Stacked(stack, p[..pos])
    requires target <= |p| && stack != [] && target != stack[|stack| - 1] < p[pos]
    ensures Pattern(p)
  {
    var top := stack[|stack| - 1];
    NextInQueue(stack, p[pos..], target, |p|, p[..pos]);
    assert top in stack;
    var i :| 0 <= i < pos && p[..pos][i] == top;
    var k :| 0 <= k < |p[pos..]| && p[pos..][k] == target;
    assert PatternAt(p, i, pos, pos + k);
  }

  // One more operation.
  lemma OneMore(y: Yard, ops: seq<Op>, op: Op)
    ensures Run(y, ops + [op]) == Do(Run(y, ops), op)
  {
    RunAppend(y, ops, [op]);
    assert Run(Run(y, ops), [op]) == Run(Do(Run(y, ops), op), []);
  }

  lemma AtMostOneLeft(stack: seq<int>, queue: seq<int>, target: nat, n: nat)
    requires Left(stack, queue, target, n) && target >= n
    ensures target > n ==> stack == [] && queue == []
    ensures target == n ==> (stack == [target] && queue == []) || (stack == [] && queue == [target])
  {
    hide Distinct;
    if target == n {
      if stack != [] {
        assert |stack| == 1 && stack[0] in stack && |queue| == 0;
        assert stack[0] == target && stack == [stack[0]];
      } else {
        assert |queue| == 1 && queue[0] in queue;
        assert queue[0] == target && queue == [queue[0]];
      }
    }
  }

  // With at most one train left the rest is easy.
  lemma LastTrain(p: seq<int>, ops: seq<Op>, stack: seq<int>, queue: seq<int>, target: nat)
    requires Left(stack, queue, target, |p|) && target >= |p|
    requires target > 0
    requires Run(Yard([], p, []), ops) == Yard(stack, queue, UpTo(target - 1))
    ensures Sortable(p)
  {
    hide Run, Left, UpTo, Sorts, Sortable, Do;
    AtMostOneLeft(stack, queue, target, |p|);
    UpToNext(target);
    var y, out := Yard([], p, []), UpTo(target - 1);
    if target > |p| {
      UpToLength(stack, queue, target, |p|);
      AllOut(p, ops);
    } else if stack != [] {
      OneMore(y, ops, Pop);
      LastMoves(target, out);
      AllOut(p, ops + [Pop]);
    } else {
      OneMore(y, ops, Push);
      OneMore(y, ops + [Push], Pop);
      LastMoves(target, out);
      AllOut(p, ops + [Push] + [Pop]);
    }
  }

  lemma LastMoves(target: int, out: seq<int>)
    ensures Do(Yard([], [target], out), Push) == Yard([target], [], out)
    ensures Do(Yard([target], [], out), Pop) == Yard([], [], out + [target])
  {
  }

  lemma AllOut(p: seq<int>, ops: seq<Op>)
    requires Run(Yard([], p, []), ops) == Yard([], [], UpTo(|p|))
    ensures Sortable(p)
  {
    hide Run, UpTo;
    assert Sorts(p, ops);
  }

  lemma UpToNext(target: nat)
    requires target > 0
    ensures UpTo(target) == UpTo(target - 1) + [target]
  {
  }

  lemma UpToLength(stack: seq<int>, queue: seq<int>, target: nat, n: nat)
    requires Left(stack, queue, target, n) && target > n
    ensures target == n + 1
  {
  }

  lemma AtStart(p: seq<int>)
    requires Permutation(p)
    ensures p == p[0..] && Left([], p, 1, |p|) && Stacked([], p[..0]) && Run(Yard([], p, []), []) == Yard([], p, UpTo(0))
  {
    PermutationDistinct(p);
  }

  // The queue has a train to push, and after the push all is as before.
  lemma Advance(p: seq<int>, pos: nat, stack: seq<int>, ops: seq<Op>, target: nat)
    requires pos <= |p| && Left(stack, p[pos..], target, |p|) && Stacked(stack, p[..pos]) && target <= |p|
    requires stack != [] ==> stack[|stack| - 1] != target && (pos < |p| ==> stack[|stack| - 1] >= p[pos])
    requires Run(Yard([], p, []), ops) == Yard(stack, p[pos..], UpTo(target - 1))
    ensures pos < |p| && Left(stack + [p[pos]], p[pos + 1..], target, |p|) && Stacked(stack + [p[pos]], p[..pos + 1])
    ensures Run(Yard([], p, []), ops + [Push]) == Yard(stack + [p[pos]], p[pos + 1..], UpTo(target - 1))
  {
    hide Left, Stacked, Run;
    NextInQueue(stack, p[pos..], target, |p|, p[..pos]);
    assert p[pos..][0] == p[pos] && p[pos..][1..] == p[pos + 1..];
    LeftAfterPush(stack, p[pos..], target, |p|);
    StackedPush(stack, p, pos, target);
    OneMore(Yard([], p, []), ops, Push);
  }

  lemma Depart(p: seq<int>, pos: nat, stack: seq<int>, ops: seq<Op>, target: nat)
    requires pos <= |p| && Left(stack, p[pos..], target, |p|) && Stacked(stack, p[..pos]) && target <= |p|
    requires stack != [] && stack[|stack| - 1] == target && target > 0
    requires Run(Yard([], p, []), ops) == Yard(stack, p[pos..], UpTo(target - 1))
    ensures target > 0 && Left(stack[..|stack| - 1], p[pos..], target + 1, |p|)
    ensures Stacked(stack[..|stack| - 1], p[..pos])
    ensures Run(Yard([], p, []), ops + [Pop]) == Yard(stack[..|stack| - 1], p[pos..], UpTo(target))
  {
    hide Run, Left, Stacked;
    LeftAfterPop(stack, p[pos..], target, |p|, p[..pos]);
    OneMore(Yard([], p, []), ops, Pop);
    assert UpTo(target) == UpTo(target - 1) + [target];
  }

  method CheckPossibleCase(storage: seq<int>, trainLen: int) returns (possible: bool)
    requires trainLen == |storage| && Permutation(storage)
    ensures possible <==> Sortable(storage)
    ensures possible <==> !Pattern(storage)
  {
    var target := 1;
    var inter: seq<int> := [];
    var queue := storage;
    ghost var ops: seq<Op>, pos := [], 0;
    ghost var start := Yard([], storage, []);
    hide Left, Stacked, Run, Pattern, Sortable;
    AtStart(storage);
    while target < trainLen
      invariant 0 < target && (target <= trainLen || trainLen == 0)
      invariant pos <= |storage| && queue == storage[pos..] && Left(inter, queue, target, |storage|)
      invariant Stacked(inter, storage[..pos])
      invariant Run(start, ops) == Yard(inter, queue, UpTo(target - 1))
      decreases 2 * |queue| + |inter|
    {
      if inter == [] {
        Advance(storage, pos, inter, ops, target);
        inter := inter + [queue[0]];
        queue := queue[1..];
        ops, pos := ops + [Push], pos + 1;
      } else if inter[|inter| - 1] == target {
        Depart(storage, pos, inter, ops, target);
        inter := inter[..|inter| - 1];
        target := target + 1;
        ops := ops + [Pop];
      } else {
        NextInQueue(inter, queue, target, |storage|, storage[..pos]);
        if inter[|inter| - 1] < queue[0] {
          TooLate(storage, pos, inter, target);
          PatternNotSortable(storage);
          return false;
        }
        Advance(storage, pos, inter, ops, target);
        inter := inter + [queue[0]];
        queue := queue[1..];
        ops, pos := ops + [Push], pos + 1;
      }
    }
    LastTrain(storage, ops, inter, queue, target);
    if Pattern(storage) { PatternNotSortable(storage); }
    possible := true;
  }

  lemma StackedPush(stack: seq<int>, p: seq<int>, pos: nat, target: nat)
    requires pos < |p| && Stacked(stack, p[..pos]) && Left(stack, p[pos..], target, |p|)
    requires stack != [] ==> stack[|stack| - 1] >= p[pos]
    ensures Stacked(stack + [p[pos]], p[..pos + 1])
  {
    assert p[..pos + 1] == p[..pos] + [p[pos]];
    assert p[pos..][0] == p[pos];
    forall a | 0 <= a < |stack|
      ensures stack[a] > p[pos]
    {
      assert stack[a] >= stack[|stack| - 1] && stack[|stack| - 1] in stack;
    }
  }
}
