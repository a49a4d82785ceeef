// Breadth-first search for a shortest chain from 1 to a target in which every
// term is the one before plus some earlier term or itself.
module AdditionChain {

  ghost predicate Chain(c: seq<nat>) {
    c != [] && c[0] == 1 && forall i :: 0 < i < |c| ==> Follows(c[..i], c[i])
  }

  // x may come next after c.
  ghost predicate Follows(c: seq<nat>, x: nat) {
    c != [] && exists j :: 0 <= j < |c| && x == c[|c| - 1] + c[j]
  }

  ghost predicate Reaches(c: seq<nat>, target: nat) {
    Chain(c) && c[|c| - 1] == target
  }

  lemma ChainPrefix(c: seq<nat>, n: nat)
    requires Chain(c) && 0 < n <= |c|
    ensures Chain(c[..n])
  {
    forall i | 0 < i < n
      ensures Follows(c[..n][..i], c[..n][i])
    {
      assert c[..n][..i] == c[..i];
    }
  }

  lemma ChainPlus(c: seq<nat>, j: nat)
    requires Chain(c) && j < |c|
    ensures Chain(c + [c[|c| - 1] + c[j]])
  {
    var d := c + [c[|c| - 1] + c[j]];
    forall i | 0 < i < |d|
      ensures Follows(d[..i], d[i])
    {
      if i < |c| {
        assert d[..i] == c[..i];
      } else {
        assert d[..i] == c;
      }
    }
  }

  // ---- The size of the search. ----

  // How many nodes have chains of at most n terms.
  function Nodes(n: nat): nat {
    if n == 0 then 0 else Nodes(n - 1) + Width(n)
  }

  // How many have chains of exactly n terms: n - 1 factorial.
  function Width(n: nat): nat {
    if n <= 1 then n else (n - 1) * Width(n - 1)
  }

  lemma {:induction false} NodesGrow(m: nat, n: nat)
    requires m <= n
    ensures Nodes(m) <= Nodes(n)
  {
    if m < n { NodesGrow(m, n - 1); }
  }

  // ---- The pool. ----

  // What the chains of the nodes created so far have to do with the links.
  ghost predicate Linked(chains: seq<seq<nat>>, value: seq<nat>, prev: seq<int>) {
    && |chains| <= |value| && |chains| <= |prev|
    && forall n :: 0 <= n < |chains| ==> LinkedAt(chains, value, prev, n)
  }

  ghost predicate LinkedAt(chains: seq<seq<nat>>, value: seq<nat>, prev: seq<int>, n: nat)
    requires n < |chains| && |chains| <= |value| && |chains| <= |prev|
  {
    && Chain(chains[n]) && value[n] == chains[n][|chains[n]| - 1]
    && (if |chains[n]| == 1 then prev[n] == -1
        else 0 <= prev[n] < n && chains[prev[n]] == chains[n][..|chains[n]| - 1])
  }

  // Nodes come in order of the length of their chains.
  ghost predicate Levels(chains: seq<seq<nat>>) {
    forall n :: 0 <= n < |chains| ==> chains[n] != [] && Nodes(|chains[n]| - 1) <= n < Nodes(|chains[n]|)
  }

  // The chains one longer than that of node n are all there.
  ghost predicate Expanded(chains: seq<seq<nat>>, n: nat) {
    n < |chains| && forall x :: Follows(chains[n], x) ==> chains[n] + [x] in chains
  }

  lemma LastFollows(c: seq<nat>)
    requires Chain(c) && |c| > 1
    ensures Chain(c[..|c| - 1]) && Follows(c[..|c| - 1], c[|c| - 1])
  {
    ChainPrefix(c, |c| - 1);
  }

  lemma ExpandedHas(chains: seq<seq<nat>>, n: nat, c: seq<nat>)
    requires n < |chains| && |c| > 1 && Expanded(chains, n) && chains[n] == c[..|c| - 1]
    requires Follows(c[..|c| - 1], c[|c| - 1])
    ensures c in chains
  {
    assert c == c[..|c| - 1] + [c[|c| - 1]];
  }

  // Every chain is in the pool or grows out of a node not yet taken up.
  lemma {:induction false} Frontier(chains: seq<seq<nat>>, head: nat, c: seq<nat>) returns (n: nat)
    requires chains != [] && chains[0] == [1] && head <= |chains| && Chain(c)
    requires forall m :: 0 <= m < head ==> Expanded(chains, m)
    ensures n < |chains| && chains[n] <= c && (chains[n] == c || n >= head)
  {
    if |c| == 1 {
      assert c == [1];
      n := 0;
    } else {
      LastFollows(c);
      hide Chain, Expanded;
      n := Frontier(chains, head, c[..|c| - 1]);
      if n < head && chains[n] == c[..|c| - 1] {
        ExpandedHas(chains, n, c);
        n :| 0 <= n < |chains| && chains[n] == c;
      }
    }
  }

  // How many nodes there are when node head, with a chain of n terms, is taken up.
  function Created(n: nat, head: nat): nat
    requires n > 0 && Nodes(n - 1) <= head
  {
    Nodes(n) + (head - Nodes(n - 1)) * n
  }

  lemma {:induction false} WidthPositive(n: nat)
    requires n > 0
    ensures Width(n) > 0
  {
    if n > 1 {
      WidthPositive(n - 1);
      MulAtLeast(n - 1, Width(n - 1));
    }
  }

  lemma MulAtLeast(a: nat, b: nat)
    requires a > 0 && b > 0
    ensures a * b >= a && a * b >= b
  {
  }

  lemma MulBelow(a: nat, b: nat, n: nat)
    requires a < b
    ensures a * n + n <= b * n
  {
    var d := b - a - 1;
    assert (a + 1 + d) * n == a * n + n + d * n;
  }

  // The children of node head fall in the next level, and the queue is not
  // empty after it.
  lemma Room(n: nat, head: nat)
    requires n > 0 && Nodes(n - 1) <= head < Nodes(n)
    ensures Nodes(n) <= Created(n, head) && Created(n, head) + n <= Nodes(n + 1)
    ensures head + 1 < Created(n, head) + n
    ensures head + 1 < Nodes(n) ==> Created(n, head + 1) == Created(n, head) + n
    ensures head + 1 == Nodes(n) ==> Created(n + 1, head + 1) == Created(n, head) + n
  {
    var before := head - Nodes(n - 1);
    assert before * n >= 0;
    MulBelow(before, Width(n), n);
    assert (before + 1) * n == before * n + n;
    assert Width(n + 1) == n * Width(n);
    if head + 1 == Nodes(n) {
      assert before + 1 == Width(n);
      assert (head + 1 - Nodes(n)) * (n + 1) == 0;
    }
  }

  // Which level a node is on follows from its index.
  lemma LevelUnique(chains: seq<seq<nat>>, n: nat, l: nat)
    requires Levels(chains) && n < |chains| && l > 0 && Nodes(l - 1) <= n < Nodes(l)
    ensures |chains[n]| == l
  {
    var k := |chains[n]|;
    if k < l { NodesGrow(k, l - 1); }
    if l < k { NodesGrow(l, k - 1); }
  }

  // The search as the invariant of its outer loop sees it.
  ghost predicate Searching(chains: seq<seq<nat>>, value: seq<nat>, prev: seq<int>, head: nat, target: int) {
    && Linked(chains, value, prev) && Levels(chains) && head < |chains| && chains[0] == [1]
    && |chains[head]| > 0 && Nodes(|chains[head]| - 1) <= head
    && |chains| == Created(|chains[head]|, head)
    && forall m :: 0 <= m < head ==> Expanded(chains, m) && value[m] != target
  }

  // The children of node head made so far, the largest sum first.
  ghost predicate Growing(chains: seq<seq<nat>>, base: nat, head: nat, k: nat) {
    && head < base && |chains| == base + k && k <= |chains[head]| && chains[head] != []
    && forall j :: 0 <= j < k ==> chains[base + j] == Child(chains[head], j)
  }

  function Child(c: seq<nat>, j: nat): seq<nat>
    requires j < |c|
  {
    c + [c[|c| - 1] + c[|c| - 1 - j]]
  }

  function Children(c: seq<nat>): (r: seq<seq<nat>>)
    ensures |r| == |c|
  {
    seq(|c|, j requires 0 <= j < |c| => Child(c, j))
  }

  lemma AreChildren(before: seq<seq<nat>>, chains: seq<seq<nat>>, head: nat)
    requires head < |before| && before <= chains && Growing(chains, |before|, head, |chains[head]|)
    ensures chains == before + Children(before[head])
  {
    forall i | |before| <= i < |chains|
      ensures chains[i] == (before + Children(before[head]))[i]
    {
      assert chains[|before| + (i - |before|)] == Child(chains[head], i - |before|);
    }
  }

  lemma AllChildren(chains: seq<seq<nat>>, base: nat, head: nat)
    requires head < |chains| && Growing(chains, base, head, |chains[head]|)
    ensures Expanded(chains, head)
  {
    var c := chains[head];
    forall x | Follows(c, x)
      ensures c + [x] in chains
    {
      var i :| 0 <= i < |c| && x == c[|c| - 1] + c[i];
      assert chains[base + (|c| - 1 - i)] == Child(c, |c| - 1 - i);
    }
  }

  // One more node keeps what is known of the others.
  lemma LinkedPlus(chains: seq<seq<nat>>, value: seq<nat>, prev: seq<int>, d: seq<nat>)
    requires Linked(chains, value, prev) && |chains| < |value| && |chains| < |prev|
    requires Chain(d) && |d| > 1 && value[|chains|] == d[|d| - 1]
    requires 0 <= prev[|chains|] < |chains| && chains[prev[|chains|]] == d[..|d| - 1]
    ensures Linked(chains + [d], value, prev)
  {
    hide Chain;
    var chains' := chains + [d];
    forall n | 0 <= n < |chains'|
      ensures LinkedAt(chains', value, prev, n)
    {
      if n < |chains| { assert LinkedAt(chains, value, prev, n); }
    }
  }

  lemma LinkedSame(chains: seq<seq<nat>>, value: seq<nat>, prev: seq<int>, value': seq<nat>, prev': seq<int>)
    requires Linked(chains, value, prev) && |chains| <= |value'| && |chains| <= |prev'|
    requires value'[..|chains|] == value[..|chains|] && prev'[..|chains|] == prev[..|chains|]
    ensures Linked(chains, value', prev')
  {
    hide Chain;
    forall n | 0 <= n < |chains|
      ensures LinkedAt(chains, value', prev', n)
    {
      assert LinkedAt(chains, value, prev, n);
      assert value'[..|chains|][n] == value[..|chains|][n] && prev'[..|chains|][n] == prev[..|chains|][n];
    }
  }

  lemma ExpandedStays(chains: seq<seq<nat>>, more: seq<seq<nat>>, m: nat)
    requires Expanded(chains, m) && chains <= more
    ensures Expanded(more, m)
  {
    forall x | Follows(chains[m], x)
      ensures chains[m] + [x] in more
    {
      assert chains[m] + [x] in chains;
    }
  }

  // The search goes on to the next node once head has all its children.
  lemma NextUp(before: seq<seq<nat>>, chains: seq<seq<nat>>, value: seq<nat>, prev: seq<int>, head: nat, target: int)
    requires head < |before| && before <= chains && before != [] && chains[0] == [1]
    requires before[head] != [] && Nodes(|before[head]| - 1) <= head && |before| == Created(|before[head]|, head)
    requires Linked(chains, value, prev) && Levels(chains)
    requires Growing(chains, |before|, head, |chains[head]|)
    requires forall m :: 0 <= m < head ==> Expanded(before, m) && value[m] != target
    requires value[head] != target
    ensures Searching(chains, value, prev, head + 1, target)
  {
    hide Linked, Expanded, Growing, Child;
    AllExpanded(before, chains, head);
    GrownCount(before, chains, head);
    HeadMovesOn(chains, |before|, head);
  }

  lemma SameValues(values: seq<nat>, value: seq<nat>, before: seq<seq<nat>>, head: nat, target: int)
    requires head < |before| == |values| <= |value| && value[..|before|] == values && values[head] != target
    requires forall m :: 0 <= m < head ==> Expanded(before, m) && values[m] != target
    ensures value[head] != target && forall m :: 0 <= m < head ==> Expanded(before, m) && value[m] != target
  {
    hide Expanded;
    assert forall m :: 0 <= m <= head ==> value[m] == values[m];
  }

  lemma AllExpanded(before: seq<seq<nat>>, chains: seq<seq<nat>>, head: nat)
    requires before <= chains && head < |before| && Growing(chains, |before|, head, |chains[head]|)
    requires forall m :: 0 <= m < head ==> Expanded(before, m)
    ensures forall m :: 0 <= m < head + 1 ==> Expanded(chains, m)
  {
    hide Expanded, Growing;
    AllChildren(chains, |before|, head);
    forall m | 0 <= m < head + 1
      ensures Expanded(chains, m)
    {
      if m < head { ExpandedStays(before, chains, m); }
    }
  }

  lemma GrownCount(before: seq<seq<nat>>, chains: seq<seq<nat>>, head: nat)
    requires before <= chains && head < |before| && Growing(chains, |before|, head, |chains[head]|)
    ensures |chains| == |before| + |chains[head]| && chains[head] == before[head]
  {
  }

  lemma HeadMovesOn(chains: seq<seq<nat>>, base: nat, head: nat)
    requires Levels(chains) && head < base <= |chains| && chains[head] != []
    requires base == Created(|chains[head]|, head) && |chains| == base + |chains[head]|
    ensures head + 1 < |chains| && chains[head + 1] != [] && Nodes(|chains[head + 1]| - 1) <= head + 1
    ensures |chains| == Created(|chains[head + 1]|, head + 1)
  {
    var n := |chains[head]|;
    assert Nodes(n - 1) <= head < Nodes(n);
    Room(n, head);
    hide Created;
    if head + 1 < Nodes(n) {
      LevelUnique(chains, head + 1, n);
    } else {
      NextLevel(n);
      LevelUnique(chains, head + 1, n + 1);
    }
  }

  lemma NextLevel(n: nat)
    requires n > 0
    ensures Nodes(n) < Nodes(n + 1)
  {
    WidthPositive(n + 1);
  }

  // ---- The program. ----

  class Pool {
    const value: array<nat>
    const prev: array<int>       // the parent's index, -1 for none
    var count: nat
    ghost var chains: seq<seq<nat>>

    ghost predicate Valid()
      reads this, value, prev
    {
      && value.Length == prev.Length && count == |chains| <= value.Length
      && Linked(chains, value[..], prev[..]) && Levels(chains)
    }

    constructor (capacity: nat)
      ensures Valid() && count == 0 && value.Length == capacity && fresh(value) && fresh(prev)
    {
      value := new nat[capacity];
      prev := new int[capacity];
      count, chains := 0, [];
    }

    // getNode for the first node.
    method Root()
      requires Valid() && count == 0 && value.Length > 0
      modifies this, value, prev
      ensures Valid() && chains == [[1]]
    {
      value[0], prev[0] := 1, -1;
      chains := [[1]];
      count := 1;
      assert LinkedAt(chains, value[..], prev[..], 0);
    }

    // getNode for the child of node parent that adds the value of node sum.
    method GetNode(parent: nat, sum: nat, ghost d: seq<nat>)
      requires Valid() && parent < count < value.Length && sum < count
      requires chains[parent] != [] && chains[sum] != [] && chains[sum] <= chains[parent]
      requires d == Child(chains[parent], |chains[parent]| - |chains[sum]|)
      requires Nodes(|d| - 1) <= count < Nodes(|d|)
      modifies this, value, prev
      ensures Valid() && chains == old(chains) + [d] && value[..old(count)] == old(value[..count])
    {
      hide Chain, Levels, Linked, Child;
      ghost var v, p := value[..], prev[..];
      ChildFacts(chains, v, p, parent, sum, d);
      LevelsPlus(chains, d);
      value[count] := value[parent] + value[sum];
      prev[count] := parent;
      assert value[..count] == v[..count] && prev[..count] == p[..count];
      LinkedSame(chains, v, p, value[..], prev[..]);
      LinkedPlus(chains, value[..], prev[..], d);
      chains := chains + [d];
      count := count + 1;
    }

    // One pass of the inner loop: the child of node head that adds the value of
    // node sum; then sum's parent is next.
    method AddChild(head: nat, sum: nat, ghost base: nat, ghost k: nat) returns (next: int)
      requires Valid() && Growing(chains, base, head, k) && count < value.Length
      requires k < |chains[head]| && sum < count && chains[sum] == chains[head][..|chains[head]| - k]
      requires Nodes(|chains[head]|) <= base && base + |chains[head]| <= Nodes(|chains[head]| + 1)
      modifies this, value, prev
      ensures Valid() && Growing(chains, base, head, k + 1) && old(chains) <= chains
      ensures value[..old(count)] == old(value[..count])
      ensures next == -1 <==> k + 1 == |chains[head]|
      ensures next != -1 ==> 0 <= next < count && chains[next] == chains[head][..|chains[head]| - (k + 1)]
    {
      hide Linked, Levels;
      ghost var d := Child(chains[head], k);
      assert chains[sum] <= chains[head];
      GetNode(head, sum, d);
      NextSum(chains, value[..], prev[..], sum);
      next := prev[sum];
    }

    // The inner loop: the children of node head, unless the pool gives out.
    method Expand(head: nat, target: int) returns (ok: bool)
      requires Valid() && Searching(chains, value[..], prev[..], head, target) && value[head] != target
      modifies this, value, prev
      ensures Valid() && (ok ==> Searching(chains, value[..], prev[..], head + 1, target))
      ensures old(head < |chains|) && old(chains) <= chains
      ensures ok ==> chains == old(chains) + Children(old(chains)[head])
      ensures !ok ==> value.Length < |old(chains)| + |old(chains)[head]|
    {
      ghost var before, n := chains, |chains[head]|;
      ghost var values := value[..count];
      hide Linked, Levels, Created, Expanded, Chain, Searching, Growing, Nodes, Child, Children;
      AtHead(chains, value[..], prev[..], head, target);
      NoneYet(chains, head);
      var sum: int := head;
      ghost var k := 0;
      while sum != -1
        invariant Valid() && 0 <= k <= n && before <= chains && value[..|before|] == values
        invariant Growing(chains, |before|, head, k) && |chains| == |before| + k
        invariant sum == -1 <==> k == n
        invariant sum != -1 ==> 0 <= sum < count && chains[sum] == before[head][..n - k]
        decreases n - k
      {
        if count == value.Length {
          return false;
        }
        ghost var now := value[..count];
        assert values == now[..|before|];
        sum := AddChild(head, sum, |before|, k);
        assert value[..|before|] == value[..|now|][..|before|];
        GrownTo(chains, |before|, head, k + 1);
        k := k + 1;
      }
      ok := true;
      AreChildren(before, chains, head);
      SameValues(values, value[..], before, head, target);
      NextUp(before, chains, value[..], prev[..], head, target);
    }

    // Reading the answer off the links by way of a stack, its top first.
    method Trace(head: nat) returns (ansCount: int, chain: seq<nat>)
      requires Valid() && head < count
      ensures chain == chains[head] && ansCount == |chain| - 1
    {
      hide Levels, Chain;
      ghost var c, v, p := chains[head], value[..], prev[..];
      NextSum(chains, v, p, head);
      ansCount := -1;
      var st: seq<nat> := [];
      var iter: int := head;
      ghost var m := |c|;
      while iter != -1
        invariant 0 <= m <= |c| && st == c[m..] && ansCount == |st| - 1
        invariant iter == -1 <==> m == 0
        invariant iter != -1 ==> 0 <= iter < count && chains[iter] == c[..m]
        decreases m
      {
        NextSum(chains, v, p, iter);
        assert LinkedAt(chains, v, p, iter);
        ansCount := ansCount + 1;
        st := [value[iter]] + st;
        iter := prev[iter];
        m := m - 1;
      }
      chain := [];
      while st != []
        invariant chain + st == c
        decreases |st|
      {
        chain := chain + [st[0]];
        st := st[1..];
      }
    }
  }

  lemma HeadInPool(chains: seq<seq<nat>>, value: seq<nat>, prev: seq<int>, head: nat, target: int)
    requires Searching(chains, value, prev, head, target)
    ensures head < |chains| <= |value|
  {
  }

  lemma NoneYet(chains: seq<seq<nat>>, head: nat)
    requires head < |chains| && chains[head] != []
    ensures Growing(chains, |chains|, head, 0)
  {
  }

  lemma GrownTo(chains: seq<seq<nat>>, base: nat, head: nat, k: nat)
    requires Growing(chains, base, head, k)
    ensures |chains| == base + k
  {
  }

  lemma ChildFacts(chains: seq<seq<nat>>, value: seq<nat>, prev: seq<int>, parent: nat, sum: nat, d: seq<nat>)
    requires Linked(chains, value, prev) && parent < |chains| && sum < |chains|
    requires chains[parent] != [] && chains[sum] != [] && chains[sum] <= chains[parent]
    requires d == Child(chains[parent], |chains[parent]| - |chains[sum]|)
    ensures Chain(d) && |d| > 1 && d[|d| - 1] == value[parent] + value[sum] && d[..|d| - 1] == chains[parent]
  {
    hide Chain;
    assert LinkedAt(chains, value, prev, parent) && LinkedAt(chains, value, prev, sum);
    ChainPlus(chains[parent], |chains[sum]| - 1);
  }

  lemma LevelsPlus(chains: seq<seq<nat>>, d: seq<nat>)
    requires Levels(chains) && d != [] && Nodes(|d| - 1) <= |chains| < Nodes(|d|)
    ensures Levels(chains + [d])
  {
  }

  lemma AtHead(chains: seq<seq<nat>>, value: seq<nat>, prev: seq<int>, head: nat, target: int)
    requires Searching(chains, value, prev, head, target)
    ensures head < |chains| <= |value| && chains[0] == [1] && |chains[head]| > 0
    ensures var n := |chains[head]|;
            && Nodes(n - 1) <= head && |chains| == Created(n, head)
            && Nodes(n) <= |chains| && |chains| + n <= Nodes(n + 1)
    ensures forall m :: 0 <= m < head ==> Expanded(chains, m) && value[..|chains|][m] != target
  {
    hide LinkedAt, Expanded;
    Room(|chains[head]|, head);
    hide Created, Nodes;
  }

  // The parent's chain is one term shorter; the first node has no parent.
  lemma NextSum(chains: seq<seq<nat>>, value: seq<nat>, prev: seq<int>, n: nat)
    requires Linked(chains, value, prev) && n < |chains|
    ensures chains[n] != [] && (prev[n] == -1 <==> |chains[n]| == 1)
    ensures prev[n] != -1 ==> 0 <= prev[n] < n && chains[prev[n]] == chains[n][..|chains[n]| - 1]
  {
    assert LinkedAt(chains, value, prev, n);
  }

  lemma StartSearching(value: seq<nat>, prev: seq<int>, target: int)
    requires Linked([[1]], value, prev) && Levels([[1]])
    ensures Searching([[1]], value, prev, 0, target)
  {
    hide Linked, Levels, Chain;
    FirstLevel();
    hide Created, Nodes, Width;
  }

  lemma FirstLevel()
    ensures Nodes(0) == 0 && Created(1, 0) == 1
  {
    assert Width(1) == 1 && Nodes(1) == 1 && Nodes(0) == 0;
    assert (0 - Nodes(0)) * 1 == 0;
  }

  // ---- The order of the search, whatever the size of the pool. ----

  // The nodes there are when node h is taken up.
  ghost function Grow(h: nat): seq<seq<nat>> {
    if h == 0 then [[1]]
    else if h - 1 < |Grow(h - 1)| then Grow(h - 1) + Children(Grow(h - 1)[h - 1])
    else Grow(h - 1)
  }

  ghost predicate Grown(chains: seq<seq<nat>>, h: nat) {
    && Levels(chains) && h < |chains| && chains[0] == [1] && chains[h] != [] && Nodes(|chains[h]| - 1) <= h
    && |chains| == Created(|chains[h]|, h)
    && (forall m :: 0 <= m < h ==> Expanded(chains, m)) && forall n :: 0 <= n < |chains| ==> Chain(chains[n])
  }

  // How many there are follows from h and the length of its chain.
  lemma {:induction false} GrowOk(h: nat)
    ensures Grown(Grow(h), h)
  {
    hide Levels, Expanded, Created, Nodes, Child, Children;
    if h == 0 {
      FirstGrown();
    } else {
      GrowOk(h - 1);
      GrowOn(Grow(h - 1), h - 1);
    }
  }

  lemma FirstGrown()
    ensures Grown([[1]], 0)
  {
    hide Chain, Levels, Created, Nodes;
    FirstLevel();
    OneNode();
  }

  lemma OneNode()
    ensures Levels([[1]]) && Chain([1])
  {
    FirstLevel();
    hide Created;
    assert Nodes(1) == Nodes(0) + Width(1);
  }

  lemma GrowOn(chains: seq<seq<nat>>, h: nat)
    requires Grown(chains, h)
    ensures Grown(chains + Children(chains[h]), h + 1)
  {
    hide Levels, Expanded, Created, Nodes, Chain, Child;
    var c, base := chains[h], |chains|;
    var more := chains + Children(c);
    LevelOf(chains, h);
    Room(|c|, h);
    ChildrenInLevel(chains, h, |c|);
    assert Children(c)[..|c|] == Children(c);
    ChildrenGrowing(chains, h);
    AllExpanded(chains, more, h);
    HeadMovesOn(more, base, h);
    forall n | 0 <= n < |more|
      ensures Chain(more[n])
    {
      if n >= base { ChildIsChain(c, n - base); }
    }
  }

  lemma LevelOf(chains: seq<seq<nat>>, h: nat)
    requires Levels(chains) && h < |chains|
    ensures chains[h] != [] && Nodes(|chains[h]| - 1) <= h < Nodes(|chains[h]|)
  {
  }

  lemma ChildIsChain(c: seq<nat>, j: nat)
    requires Chain(c) && j < |c|
    ensures Chain(Children(c)[j])
  {
    hide Chain;
    ChainPlus(c, |c| - 1 - j);
  }

  lemma ChildrenGrowing(chains: seq<seq<nat>>, h: nat)
    requires h < |chains| && chains[h] != []
    ensures Growing(chains + Children(chains[h]), |chains|, h, |chains[h]|)
  {
  }

  lemma {:induction false} ChildrenInLevel(chains: seq<seq<nat>>, h: nat, k: nat)
    requires Levels(chains) && h < |chains| && k <= |chains[h]|
    requires Nodes(|chains[h]|) <= |chains| && |chains| + |chains[h]| <= Nodes(|chains[h]| + 1)
    ensures Levels(chains + Children(chains[h])[..k])
  {
    hide Levels, Nodes;
    var l := Children(chains[h]);
    if k == 0 {
      assert chains + l[..0] == chains;
    } else {
      ChildrenInLevel(chains, h, k - 1);
      LevelsPlus(chains + l[..k - 1], l[k - 1]);
      assert chains + l[..k] == (chains + l[..k - 1]) + [l[k - 1]];
    }
  }

  lemma {:induction false} GrowPrefix(m: nat, n: nat)
    requires m <= n
    ensures Grow(m) <= Grow(n)
  {
    if m < n { GrowPrefix(m, n - 1); }
  }

  // The chain of the node taken up as number h, and where it ends.
  ghost function Node(h: nat): (c: seq<nat>)
    ensures c != []
  {
    GrowOk(h);
    Grow(h)[h]
  }

  ghost function Last(h: nat): nat {
    Node(h)[|Node(h)| - 1]
  }

  // Node h is the first one taken up that has the target: the search ends there.
  ghost predicate TakenUp(target: int, h: nat) {
    Last(h) == target && NotBefore(target, h)
  }

  ghost predicate NotBefore(target: int, h: nat) {
    forall m: nat :: m < h ==> Last(m) != target
  }

  // What the pool must hold for that: the nodes created before it.
  ghost function Needed(h: nat): nat {
    |Grow(h)|
  }

  lemma NeededIsCreated(h: nat)
    ensures Nodes(|Node(h)| - 1) <= h < Nodes(|Node(h)|) && Needed(h) == Created(|Node(h)|, h)
  {
    GrowOk(h);
    LevelOf(Grow(h), h);
  }

  // Every chain is some node's, so every positive target is taken up.
  lemma ChainTakenUp(c: seq<nat>) returns (n: nat)
    requires Chain(c)
    ensures Node(n) == c
  {
    hide Chain, Levels, Expanded, Created, Nodes, Grow;
    var h := Nodes(|c|);
    GrowOk(h);
    n := Frontier(Grow(h), h, c);
    LevelOf(Grow(h), n);
    if n >= h {
      NodesGrow(|Grow(h)[n]|, |c|);
      assert false;
    }
    GrowOk(n);
    GrowPrefix(n, h);
  }

  lemma {:induction false} FirstOfAll(target: int, n: nat) returns (h: nat)
    requires Last(n) == target
    ensures h <= n && TakenUp(target, h)
  {
    hide Last;
    if m: nat :| m < n && Last(m) == target {
      h := FirstOfAll(target, m);
    } else {
      h := n;
    }
  }

  lemma EveryTargetTakenUp(target: nat) returns (h: nat)
    requires target > 0
    ensures TakenUp(target, h)
  {
    var c := CountingUp(target);
    var n := ChainTakenUp(c);
    h := FirstOfAll(target, n);
  }

  // It has a shortest chain to the target.
  lemma TakenUpIsShortest(target: int, h: nat, c: seq<nat>)
    requires TakenUp(target, h) && target > 0 && Reaches(c, target)
    ensures |Node(h)| <= |c|
  {
    var n := ChainTakenUp(c);
    hide Node, Chain, Nodes;
    assert Last(n) == target && h <= n;
    NeededIsCreated(h);
    NeededIsCreated(n);
    if |Node(n)| < |Node(h)| {
      NodesGrow(|Node(n)|, |Node(h)| - 1);
    }
  }

  // ---- The pool of the program: 100000 nodes. ----

  // It suffices exactly if the target's node is among the first 11889.
  lemma PoolOfSource(target: int, h: nat)
    requires TakenUp(target, h)
    ensures Needed(h) <= 100000 <==> h <= 11888
  {
    FirstNodes();
    NeededIsCreated(h);
    var n := |Node(h)|;
    hide TakenUp, Node, Grow, Needed, Nodes;
    if n <= 8 {
      NodesGrow(n, 8);
      Room(n, h);
      NodesGrow(n + 1, 9);
    } else if n >= 10 {
      NodesGrow(9, n - 1);
      NodesGrow(10, n);
      Room(n, h);
    }
  }

  lemma FirstNodes()
    ensures Nodes(8) == 5914 && Nodes(9) == 46234 && Nodes(10) == 409114
  {
    assert Width(4) == 6 && Width(7) == 720 && Width(10) == 362880;
    assert Nodes(4) == 10 && Nodes(7) == 874;
  }

  // It suffices for every target with a chain of eight terms ...
  lemma ShortChainFits(target: int, h: nat, c: seq<nat>)
    requires TakenUp(target, h) && target > 0 && Reaches(c, target) && |c| <= 8
    ensures Needed(h) <= 100000
  {
    TakenUpIsShortest(target, h, c);
    NeededIsCreated(h);
    hide TakenUp, Node, Grow, Needed, Nodes;
    FirstNodes();
    NodesGrow(|Node(h)|, 8);
    PoolOfSource(target, h);
  }

  // ... and for no target above 256: a chain of n terms gets no further than
  // the (n - 1)-th power of two.
  lemma LargeTargetOverruns(target: int, h: nat)
    requires TakenUp(target, h) && target > 256
    ensures Needed(h) > 100000
  {
    NodeIsChain(h);
    ShortChainsEndEarly(Node(h));
    NeededIsCreated(h);
    hide Node, Grow, Needed, Nodes, Chain;
    FirstNodes();
    NodesGrow(9, |Node(h)| - 1);
    PoolOfSource(target, h);
  }

  lemma NodeIsChain(h: nat)
    ensures Chain(Node(h))
  {
    GrowOk(h);
  }

  function Pow2(n: nat): nat {
    if n == 0 then 1 else 2 * Pow2(n - 1)
  }

  lemma {:induction false} Pow2Grows(m: nat, n: nat)
    requires m <= n
    ensures Pow2(m) <= Pow2(n)
  {
    if m < n { Pow2Grows(m, n - 1); }
  }

  lemma ShortChainsEndEarly(c: seq<nat>)
    requires Chain(c)
    ensures |c| <= 9 ==> c[|c| - 1] <= 256
  {
    ChainBound(c);
    if |c| <= 9 {
      Pow2Grows(|c| - 1, 8);
      assert Pow2(4) == 16 && Pow2(6) == 64 && Pow2(8) == 256;
    }
  }

  // Terms only grow, each to at most the double of the one before.
  lemma {:induction false} ChainBound(c: seq<nat>)
    requires Chain(c)
    ensures LargestLast(c) && c[|c| - 1] <= Pow2(|c| - 1)
  {
    if |c| == 1 {
      OneTerm(c);
    } else {
      var p := c[..|c| - 1];
      LastFollows(c);
      hide Chain, Pow2, Follows, LargestLast;
      ChainBound(p);
      Doubled(p, c[|c| - 1]);
      assert c == p + [c[|c| - 1]];
      PowerDoubles(|p|);
    }
  }

  ghost predicate LargestLast(c: seq<nat>) {
    c != [] && forall i :: 0 <= i < |c| ==> c[i] <= c[|c| - 1]
  }

  lemma OneTerm(c: seq<nat>)
    requires Chain(c) && |c| == 1
    ensures LargestLast(c) && c[0] == 1 && Pow2(0) == 1
  {
  }

  lemma PowerDoubles(n: nat)
    requires n > 0
    ensures Pow2(n) == 2 * Pow2(n - 1)
  {
  }

  lemma Doubled(p: seq<nat>, x: nat)
    requires LargestLast(p) && Follows(p, x)
    ensures LargestLast(p + [x]) && x <= 2 * p[|p| - 1]
  {
    var j :| 0 <= j < |p| && x == p[|p| - 1] + p[j];
    assert p[j] <= p[|p| - 1] <= x;
    forall i | 0 <= i < |p + [x]|
      ensures (p + [x])[i] <= x
    {
      if i < |p| { assert p[i] <= p[|p| - 1]; }
    }
  }

  // The search itself. It ends with a shortest chain exactly if the pool holds
  // the nodes that are created before the target's is taken up; otherwise it
  // gives up, where the program would write past its pool.
  method Search(capacity: nat, target: int) returns (ok: bool, steps: int, chain: seq<nat>, ghost h: nat)
    ensures ok ==> TakenUp(target, h) && Needed(h) <= capacity && chain == Node(h)
    ensures ok ==> target > 0 && Reaches(chain, target) && steps == |chain| - 1
    ensures ok ==> forall c :: target > 0 && Reaches(c, target) ==> |chain| <= |c|
    ensures !ok ==> forall k :: TakenUp(target, k) ==> capacity < Needed(k)
  {
    hide Linked, Levels, Chain, Nodes, Created, Grow;
    ok, steps, chain, h := false, -1, [], 0;
    if capacity == 0 {
      NoPoolNoSearch(target);
      return;
    }
    var pool := new Pool(capacity);
    pool.Root();
    var head := 0;
    ok := true;
    StartSearching(pool.value[..], pool.prev[..], target);
    StartGrowing();
    hide Last;
    while pool.value[head] != target
      invariant fresh(pool) && fresh(pool.value) && fresh(pool.prev) && pool.value.Length == capacity
      invariant pool.Valid() && Searching(pool.chains, pool.value[..], pool.prev[..], head, target)
      invariant pool.chains == Grow(head) && NotBefore(target, head)
      decreases capacity - head
    {
      hide Searching;
      HeadInPool(pool.chains, pool.value[..], pool.prev[..], head, target);
      NotThisOne(pool.chains, pool.value[..], pool.prev[..], head, target);
      var more := pool.Expand(head, target);
      OneMoreTaken(head);
      if !more {
        NoRoom(target, head, capacity);
        return false, -1, [], 0;
      }
      head := head + 1;
    }
    steps, chain := pool.Trace(head);
    h := head;
    Arrived(pool.chains, pool.value[..], pool.prev[..], head, target);
    ThisOne(pool.chains, pool.value[..], pool.prev[..], head, target);
    forall c | target > 0 && Reaches(c, target)
      ensures |chain| <= |c|
    {
      TakenUpIsShortest(target, head, c);
    }
  }

  // The source's search fails for every target above 256.
  method SearchOfSource(target: int) returns (ok: bool, steps: int, chain: seq<nat>, ghost h: nat)
    ensures ok ==> target <= 256 && h <= 11888 && TakenUp(target, h) && chain == Node(h)
    ensures !ok ==> forall k :: TakenUp(target, k) ==> k > 11888
  {
    ok, steps, chain, h := Search(100000, target);
    if ok {
      PoolOfSource(target, h);
      if target > 256 { LargeTargetOverruns(target, h); }
    } else {
      forall k | TakenUp(target, k)
        ensures k > 11888
      {
        PoolOfSource(target, k);
      }
    }
  }

  lemma NoPoolNoSearch(target: int)
    ensures forall k :: TakenUp(target, k) ==> 0 < Needed(k)
  {
    forall k | TakenUp(target, k)
      ensures 0 < Needed(k)
    {
      GrowOk(k);
    }
  }

  lemma StartGrowing()
    ensures Grow(0) == [[1]]
  {
  }

  lemma NotThisOne(chains: seq<seq<nat>>, value: seq<nat>, prev: seq<int>, head: nat, target: int)
    requires Searching(chains, value, prev, head, target) && chains == Grow(head) && head < |value|
    ensures Last(head) == value[head]
  {
    assert LinkedAt(chains, value, prev, head);
  }

  lemma ThisOne(chains: seq<seq<nat>>, value: seq<nat>, prev: seq<int>, head: nat, target: int)
    requires Searching(chains, value, prev, head, target) && chains == Grow(head) && head < |value|
    requires value[head] == target && NotBefore(target, head)
    ensures TakenUp(target, head) && Node(head) == chains[head] && Needed(head) == |chains|
  {
    hide Last;
    NotThisOne(chains, value, prev, head, target);
  }

  lemma OneMoreTaken(head: nat)
    ensures head < |Grow(head)| && Grow(head + 1) == Grow(head) + Children(Grow(head)[head])
  {
    GrowOk(head);
  }

  // Without room for the children of a node nothing after it is reached.
  lemma NoRoom(target: int, head: nat, capacity: nat)
    requires NotBefore(target, head + 1) && capacity < |Grow(head + 1)|
    ensures forall k :: TakenUp(target, k) ==> capacity < Needed(k)
  {
    hide Last;
    forall k | TakenUp(target, k)
      ensures capacity < Needed(k)
    {
      GrowPrefix(head + 1, k);
    }
  }

  lemma Arrived(chains: seq<seq<nat>>, value: seq<nat>, prev: seq<int>, head: nat, target: int)
    requires Searching(chains, value, prev, head, target) && head < |value| && value[head] == target
    ensures target > 0 && Reaches(chains[head], target)
  {
    assert LinkedAt(chains, value, prev, head);
    ChainPositive(chains[head]);
    hide Chain;
  }

  // Terms of a chain are positive.
  lemma {:induction false} ChainPositive(c: seq<nat>)
    requires Chain(c)
    ensures c[|c| - 1] > 0
  {
    if |c| > 1 {
      var n := |c| - 1;
      ChainPrefix(c, n);
      ChainPositive(c[..n]);
      assert Follows(c[..n], c[n]);
    }
  }

  // Every positive target has a chain, so a large enough pool finds one.
  lemma {:induction false} CountingUp(target: nat) returns (c: seq<nat>)
    requires target > 0
    ensures Reaches(c, target) && |c| == target
  {
    if target == 1 {
      c := [1];
    } else {
      c := CountingUp(target - 1);
      ChainPlus(c, 0);
      c := c + [c[|c| - 1] + c[0]];
    }
  }
}
