// The bookkeeping of the kernel's block allocator as values: pages that are
// arenas, the free lists of the descriptors, and the blocks handed out.
module HeapBooks {
  import opened Bytes

  const PAGE := 4096
  const HEADER := 12     // bytes of the arena structure at the start of its page

  // A descriptor: the size of its blocks and how many fit in an arena.
  datatype Desc = Desc(size: nat, count: nat)

  // A page (or the first of several) given to the allocator.
  datatype Arena = Small(desc: nat, freeCnt: nat) | Big(pages: nat)

  datatype Books = Books(freeLists: seq<seq<nat>>, arenas: map<nat, Arena>, live: set<nat>)

  ghost predicate DescOk(d: Desc) {
    16 <= d.size && 2 <= d.count && HEADER + d.count * d.size <= PAGE
  }

  ghost predicate DescsOk(descs: seq<Desc>) {
    forall i :: 0 <= i < |descs| ==> DescOk(descs[i])
  }

  function PageOf(a: nat): nat {
    a / 4096
  }

  // arena_to_block: the address of block i of the arena in page p.
  function BlockAt(p: nat, size: nat, i: nat): nat {
    4096 * p + 12 + i * size
  }

  function Blocks(p: nat, size: nat, n: nat): set<nat> {
    if n == 0 then {} else Blocks(p, size, n - 1) + {BlockAt(p, size, n - 1)}
  }

  lemma {:induction false} BlocksMembers(p: nat, size: nat, n: nat)
    requires size > 0
    ensures forall i :: 0 <= i < n ==> BlockAt(p, size, i) in Blocks(p, size, n)
    ensures forall a :: a in Blocks(p, size, n) ==> BlockAt(p, size, 0) <= a && a + size <= BlockAt(p, size, n)
    ensures |Blocks(p, size, n)| == n
  {
    if n != 0 {
      BlocksMembers(p, size, n - 1);
      assert BlockAt(p, size, n) == BlockAt(p, size, n - 1) + size;
      assert BlockAt(p, size, n - 1) !in Blocks(p, size, n - 1);
    } else {
      assert BlockAt(p, size, 0) == 4096 * p + 12 by { assert 0 * size == 0; }
    }
  }

  // Two blocks of an arena do not overlap.
  lemma {:induction false} BlocksApart(p: nat, size: nat, n: nat, a: nat, b: nat)
    requires size > 0 && a in Blocks(p, size, n) && b in Blocks(p, size, n) && a < b
    ensures a + size <= b
  {
    BlocksMembers(p, size, n - 1);
    if b in Blocks(p, size, n - 1) && a in Blocks(p, size, n - 1) {
      BlocksApart(p, size, n - 1, a, b);
    }
  }

  lemma BlocksInPage(p: nat, d: Desc, a: nat)
    requires DescOk(d) && a in Blocks(p, d.size, d.count)
    ensures 4096 * p + 12 <= a && a + d.size <= 4096 * p + 4096 && PageOf(a) == p
  {
    BlocksMembers(p, d.size, d.count);
    assert BlockAt(p, d.size, 0) == 4096 * p + 12 by { assert 0 * d.size == 0; }
  }

  ghost predicate Distinct(s: seq<nat>) {
    forall i, j :: 0 <= i < j < |s| ==> s[i] != s[j]
  }

  lemma DistinctOne(a: nat)
    ensures Distinct([a])
  {
  }

  lemma DistinctConcat(s: seq<nat>, t: seq<nat>)
    requires Distinct(s) && Distinct(t) && forall a :: a in s ==> a !in t
    ensures Distinct(s + t)
  {
    forall i, j | 0 <= i < j < |s + t|
      ensures (s + t)[i] != (s + t)[j]
    {
      if i < |s| <= j {
        assert (s + t)[i] in s && (s + t)[j] in t;
      }
    }
  }

  // The blocks of the arena in page p that are on a free list.
  function FreeIn(list: seq<nat>, p: nat): set<nat> {
    set a | a in list && PageOf(a) == p
  }

  function PagesOf(a: Arena): nat {
    match a
    case Small(_, _) => 1
    case Big(n) => n
  }

  // ---- The invariant, one clause a predicate. ----

  // Free blocks are blocks of an arena of the right descriptor, each once.
  ghost predicate ListsOk(descs: seq<Desc>, k: Books) {
    && |k.freeLists| == |descs|
    && (forall d :: 0 <= d < |descs| ==> Distinct(k.freeLists[d]))
    && (forall d, a :: 0 <= d < |descs| && a in k.freeLists[d] ==> Belongs(descs, k, d, a))
  }

  ghost predicate Belongs(descs: seq<Desc>, k: Books, d: nat, a: nat)
    requires d < |descs|
  {
    && PageOf(a) in k.arenas && k.arenas[PageOf(a)].Small? && k.arenas[PageOf(a)].desc == d
    && a in Blocks(PageOf(a), descs[d].size, descs[d].count)
  }

  // An arena counts exactly its blocks on the free list.
  ghost predicate CountOk(descs: seq<Desc>, k: Books, p: nat)
    requires |k.freeLists| == |descs| && p in k.arenas
  {
    match k.arenas[p]
    case Small(d, n) => d < |descs| && n == |FreeIn(k.freeLists[d], p)|
    case Big(n) => n > 0
  }

  // A live block belongs to an arena and is not free.
  ghost predicate LiveOk(descs: seq<Desc>, k: Books, a: nat)
    requires |k.freeLists| == |descs|
  {
    && PageOf(a) in k.arenas
    && match k.arenas[PageOf(a)]
       case Small(d, _) => d < |descs| && Belongs(descs, k, d, a) && a !in k.freeLists[d]
       case Big(_) => a == 4096 * PageOf(a) + 12
  }

  // Every block of an arena is free or live.
  ghost predicate Complete(descs: seq<Desc>, k: Books, p: nat)
    requires |k.freeLists| == |descs| && p in k.arenas
  {
    match k.arenas[p]
    case Small(d, _) => d < |descs| && forall a :: a in Blocks(p, descs[d].size, descs[d].count) ==>
                                              a in k.freeLists[d] || a in k.live
    case Big(_) => 4096 * p + 12 in k.live
  }

  ghost predicate BooksOk(descs: seq<Desc>, k: Books) {
    && DescsOk(descs) && ListsOk(descs, k)
    && (forall p :: p in k.arenas ==> CountOk(descs, k, p) && Complete(descs, k, p))
    && (forall a :: a in k.live ==> LiveOk(descs, k, a))
  }

  // No arena is wholly free.
  ghost predicate NoIdleArena(descs: seq<Desc>, k: Books) {
    forall p :: p in k.arenas && k.arenas[p].Small? && k.arenas[p].desc < |descs| ==>
      k.arenas[p].freeCnt < descs[k.arenas[p].desc].count
  }

  ghost predicate NoIdleExcept(descs: seq<Desc>, k: Books, p: nat) {
    forall q :: q in k.arenas && q != p && k.arenas[q].Small? && k.arenas[q].desc < |descs| ==>
      k.arenas[q].freeCnt < descs[k.arenas[q].desc].count
  }

  // Every arena of k is in k' with the same descriptor or the same size.
  ghost predicate SameKinds(k: Books, k': Books) {
    forall p :: p in k.arenas ==> p in k'.arenas && SameKind(k.arenas[p], k'.arenas[p])
  }

  predicate SameKind(a: Arena, b: Arena) {
    match a
    case Small(d, _) => b.Small? && b.desc == d
    case Big(n) => b == a
  }

  // Arenas lie in the pool, on marked pages, and share no page.
  ghost predicate PagesOk(k: Books, base: nat, used: seq<bool>) {
    && (forall p :: p in k.arenas ==> PagesMarked(p, PagesOf(k.arenas[p]), base, used))
    && (forall p, q :: p in k.arenas && q in k.arenas && p < q ==> p + PagesOf(k.arenas[p]) <= q)
  }

  ghost predicate PagesMarked(p: nat, n: nat, base: nat, used: seq<bool>) {
    base <= p && p + n <= base + |used| && forall i :: p - base <= i < p - base + n ==> used[i]
  }

  // How many bytes the live block at a may use.
  function Capacity(descs: seq<Desc>, k: Books, a: nat): nat
    requires PageOf(a) in k.arenas
  {
    match k.arenas[PageOf(a)]
    case Small(d, _) => if d < |descs| then descs[d].size else 0
    case Big(n) => if 4096 * n >= a % 4096 then 4096 * n - a % 4096 else 0
  }

  // Main consequence: live blocks do not overlap, to their full capacity.
  lemma LiveDisjoint(descs: seq<Desc>, k: Books, base: nat, used: seq<bool>, a: nat, b: nat)
    requires BooksOk(descs, k) && PagesOk(k, base, used)
    requires a in k.live && b in k.live && a < b
    ensures a + Capacity(descs, k, a) <= b
  {
    assert LiveOk(descs, k, a) && LiveOk(descs, k, b);
    assert CountOk(descs, k, PageOf(a)) && DescsOk(descs);
    hide BooksOk, ListsOk, FreeIn;
    var p: nat, q: nat := PageOf(a), PageOf(b);
    if p < q {
      assert p + PagesOf(k.arenas[p]) <= q;
    }
    match k.arenas[p]
    case Small(d, _) =>
      hide Blocks;
      BlocksInPage(p, descs[d], a);
      if p == q {
        BlocksApart(p, descs[d].size, descs[d].count, a, b);
      }
    case Big(n) =>
  }

  // A live block lies outside the pages of every other arena.
  lemma LiveOffPages(descs: seq<Desc>, k: Books, base: nat, used: seq<bool>, a: nat, p: nat)
    requires BooksOk(descs, k) && PagesOk(k, base, used) && a in k.live && p in k.arenas && PageOf(a) != p
    ensures a + Capacity(descs, k, a) <= 4096 * p || 4096 * (p + PagesOf(k.arenas[p])) <= a
  {
    assert LiveOk(descs, k, a) && CountOk(descs, k, PageOf(a)) && DescsOk(descs);
    hide BooksOk, ListsOk, FreeIn, Blocks;
    var q := PageOf(a);
    match k.arenas[q]
    case Small(d, _) => BlocksInPage(q, descs[d], a);
    case Big(n) =>
  }

  lemma KindsRefl(k: Books)
    ensures SameKinds(k, k)
  {
  }

  lemma KindsTransitive(k1: Books, k2: Books, k3: Books)
    requires SameKinds(k1, k2) && SameKinds(k2, k3)
    ensures SameKinds(k1, k3)
  {
    forall p | p in k1.arenas
      ensures p in k3.arenas && SameKind(k1.arenas[p], k3.arenas[p])
    {
      assert SameKind(k1.arenas[p], k2.arenas[p]) && SameKind(k2.arenas[p], k3.arenas[p]);
    }
  }

  lemma LiveInPool(descs: seq<Desc>, k: Books, base: nat, used: seq<bool>, a: nat)
    requires BooksOk(descs, k) && PagesOk(k, base, used) && a in k.live
    ensures 4096 * base < a && a + Capacity(descs, k, a) <= 4096 * (base + |used|)
  {
    assert LiveOk(descs, k, a);
    var p := PageOf(a);
    assert PagesMarked(p, PagesOf(k.arenas[p]), base, used);
    match k.arenas[p]
    case Small(d, _) => BlocksInPage(p, descs[d], a);
    case Big(n) => assert CountOk(descs, k, p);
  }

  // ---- What each step does to the books. ----

  // The blocks 0 .. n of an arena in the order malloc lists them.
  function BlockSeq(p: nat, size: nat, n: nat): (r: seq<nat>)
    ensures |r| == n
  {
    if n == 0 then [] else BlockSeq(p, size, n - 1) + [BlockAt(p, size, n - 1)]
  }

  lemma {:induction false} BlockSeqAt(p: nat, size: nat, n: nat, i: nat)
    requires i < n
    ensures BlockSeq(p, size, n)[i] == BlockAt(p, size, i)
  {
    if i < n - 1 { BlockSeqAt(p, size, n - 1, i); }
  }

  lemma {:induction false} BlockSeqMembers(p: nat, size: nat, n: nat)
    requires size > 0
    ensures Distinct(BlockSeq(p, size, n))
    ensures forall a :: a in BlockSeq(p, size, n) <==> a in Blocks(p, size, n)
  {
    if n != 0 {
      BlockSeqMembers(p, size, n - 1);
      BlocksMembers(p, size, n - 1);
      var last := BlockAt(p, size, n - 1);
      assert last !in Blocks(p, size, n - 1);
      hide BlockAt, Distinct;
      DistinctOne(last);
      DistinctConcat(BlockSeq(p, size, n - 1), [last]);
    }
  }

  // Whatever happens to other blocks, an arena stays complete as long as each
  // of its own blocks is still free or live.
  lemma StaysComplete(descs: seq<Desc>, k: Books, k': Books, q: nat)
    requires DescsOk(descs) && |k.freeLists| == |k'.freeLists| == |descs|
    requires q in k.arenas && q in k'.arenas && Complete(descs, k, q)
    requires match k.arenas[q]
             case Small(d, _) => k'.arenas[q].Small? && k'.arenas[q].desc == d
             case Big(_) => k'.arenas[q].Big?
    requires forall a :: PageOf(a) == q && a in k.live ==> StillHere(k', q, a)
    requires k.arenas[q].Small? && k.arenas[q].desc < |descs| ==>
               forall a :: PageOf(a) == q && a in k.freeLists[k.arenas[q].desc] ==> StillHere(k', q, a)
    ensures Complete(descs, k', q)
  {
    match k.arenas[q]
    case Small(d, _) =>
      forall a | a in Blocks(q, descs[d].size, descs[d].count)
        ensures a in k'.freeLists[d] || a in k'.live
      {
        BlocksInPage(q, descs[d], a);
      }
    case Big(_) =>
      assert PageOf(4096 * q + 12) == q;
  }

  ghost predicate StillHere(k: Books, q: nat, a: nat)
    requires q in k.arenas
  {
    a in k.live || (k.arenas[q].Small? && k.arenas[q].desc < |k.freeLists| && a in k.freeLists[k.arenas[q].desc])
  }

  // A new arena in page p, all of its blocks free.
  function AddArena(descs: seq<Desc>, k: Books, p: nat, d: nat): Books
    requires d < |descs| == |k.freeLists|
  {
    k.(freeLists := k.freeLists[d := k.freeLists[d] + BlockSeq(p, descs[d].size, descs[d].count)],
       arenas := k.arenas[p := Small(d, descs[d].count)])
  }

  lemma ArenaAdded(descs: seq<Desc>, k: Books, p: nat, d: nat)
    requires BooksOk(descs, k) && p !in k.arenas && d < |descs|
    ensures BooksOk(descs, AddArena(descs, k, p, d))
  {
    var k' := AddArena(descs, k, p, d);
    var size, count := descs[d].size, descs[d].count;
    var l, added := k.freeLists[d], BlockSeq(p, size, count);
    BlockSeqMembers(p, size, count);
    BlocksMembers(p, size, count);
    forall a | a in added
      ensures PageOf(a) == p && a !in l && a !in k.live
    {
      BlocksInPage(p, descs[d], a);
      assert a in l ==> Belongs(descs, k, d, a);
      assert a in k.live ==> LiveOk(descs, k, a);
    }
    assert FreeIn(l + added, p) == Blocks(p, size, count) by {
      assert forall a :: a in l ==> Belongs(descs, k, d, a);
    }
    DistinctConcat(l, added);
    forall q | q in k.arenas
      ensures CountOk(descs, k', q) && Complete(descs, k', q)
    {
      assert CountOk(descs, k, q) && Complete(descs, k, q);
      assert FreeIn(l + added, q) == FreeIn(l, q);
    }
    forall a | a in k'.live
      ensures LiveOk(descs, k', a)
    {
      assert LiveOk(descs, k, a);
    }
    forall e, a | 0 <= e < |descs| && a in k'.freeLists[e]
      ensures Belongs(descs, k', e, a)
    {
      assert a in k.freeLists[e] ==> Belongs(descs, k, e, a);
    }
  }

  // The first free block of descriptor d is handed out.
  function Take(k: Books, d: nat): Books {
    if CanTake(k, d) then
      var b := k.freeLists[d][0];
      var p := PageOf(b);
      Books(k.freeLists[d := k.freeLists[d][1..]],
            k.arenas[p := k.arenas[p].(freeCnt := k.arenas[p].freeCnt - 1)],
            k.live + {b})
    else k
  }

  predicate CanTake(k: Books, d: nat) {
    && d < |k.freeLists| && k.freeLists[d] != [] && PageOf(k.freeLists[d][0]) in k.arenas
    && k.arenas[PageOf(k.freeLists[d][0])].Small? && k.arenas[PageOf(k.freeLists[d][0])].freeCnt > 0
  }

  lemma HeadCounted(descs: seq<Desc>, k: Books, d: nat)
    requires BooksOk(descs, k) && d < |descs| && k.freeLists[d] != []
    ensures var b := k.freeLists[d][0];
            && Belongs(descs, k, d, b) && k.arenas[PageOf(b)].freeCnt > 0 && b !in k.live
            && FreeIn(k.freeLists[d][1..], PageOf(b)) == FreeIn(k.freeLists[d], PageOf(b)) - {b}
  {
    var l := k.freeLists[d];
    var b := l[0];
    var p := PageOf(b);
    assert b in l && Belongs(descs, k, d, b);
    assert CountOk(descs, k, p) && b in FreeIn(l, p);
    assert b in k.live ==> LiveOk(descs, k, b);
    assert Distinct(l);
    TailMembers(l);
    assert |FreeIn(l, p)| > 0 by { assert FreeIn(l, p) != {}; }
  }

  lemma TailMembers(l: seq<nat>)
    requires l != [] && Distinct(l)
    ensures forall a :: a in l[1..] <==> a in l && a != l[0]
    ensures Distinct(l[1..])
  {
    forall a | a in l && a != l[0]
      ensures a in l[1..]
    {
      var i :| 0 <= i < |l| && l[i] == a;
      assert l[1..][i - 1] == a;
    }
  }

  lemma Taken(descs: seq<Desc>, k: Books, d: nat)
    requires BooksOk(descs, k) && d < |descs| && k.freeLists[d] != []
    ensures CanTake(k, d) && BooksOk(descs, Take(k, d))
  {
    HeadCounted(descs, k, d);
    var k' := Take(k, d);
    var l := k.freeLists[d];
    var b := l[0];
    TailMembers(l);
    forall q | q in k'.arenas
      ensures CountOk(descs, k', q) && Complete(descs, k', q)
    {
      assert CountOk(descs, k, q) && Complete(descs, k, q);
      if q != PageOf(b) {
        assert FreeIn(l[1..], q) == FreeIn(l, q);
      }
    }
    forall a | a in k'.live
      ensures LiveOk(descs, k', a)
    {
      assert a != b ==> LiveOk(descs, k, a);
    }
    forall e, a | 0 <= e < |descs| && a in k'.freeLists[e]
      ensures Belongs(descs, k', e, a)
    {
      assert Belongs(descs, k, e, a);
    }
  }

  // A live block of descriptor d goes back to the front of its free list.
  function Put(k: Books, d: nat, b: nat): Books
    requires d < |k.freeLists| && PageOf(b) in k.arenas && k.arenas[PageOf(b)].Small?
  {
    var p := PageOf(b);
    Books(k.freeLists[d := [b] + k.freeLists[d]],
          k.arenas[p := k.arenas[p].(freeCnt := k.arenas[p].freeCnt + 1)],
          k.live - {b})
  }

  lemma FreeInPushed(l: seq<nat>, b: nat, q: nat)
    ensures FreeIn([b] + l, q) == if PageOf(b) == q then FreeIn(l, q) + {b} else FreeIn(l, q)
    ensures b in FreeIn(l, q) <==> b in l && PageOf(b) == q
  {
  }

  lemma FreeInSame(l: seq<nat>, m: seq<nat>, q: nat)
    requires forall a :: PageOf(a) == q ==> (a in l <==> a in m)
    ensures FreeIn(l, q) == FreeIn(m, q)
  {
  }

  lemma PutBack(descs: seq<Desc>, k: Books, d: nat, b: nat)
    requires BooksOk(descs, k) && b in k.live && PageOf(b) in k.arenas
    requires k.arenas[PageOf(b)].Small? && k.arenas[PageOf(b)].desc == d < |descs|
    ensures BooksOk(descs, Put(k, d, b))
    ensures forall q :: q in k.arenas && q != PageOf(b) ==> Put(k, d, b).arenas[q] == k.arenas[q]
  {
    hide Blocks, FreeIn;
    var k' := Put(k, d, b);
    var l := k.freeLists[d];
    assert LiveOk(descs, k, b);
    DistinctOne(b);
    DistinctConcat([b], l);
    FreeInPushed(l, b, PageOf(b));
    forall q | q in k'.arenas
      ensures CountOk(descs, k', q) && Complete(descs, k', q)
    {
      assert CountOk(descs, k, q) && Complete(descs, k, q);
      StaysComplete(descs, k, k', q);
      hide Complete;
      FreeInPushed(l, b, q);
    }
    forall a | a in k'.live
      ensures LiveOk(descs, k', a)
    {
      assert LiveOk(descs, k, a);
    }
    forall e, a | 0 <= e < |descs| && a in k'.freeLists[e]
      ensures Belongs(descs, k', e, a)
    {
      assert a != b || e != d ==> Belongs(descs, k, e, a);
    }
  }

  // A block given back to an arena that stays is the next one handed out, and
  // after that nothing has changed.
  lemma LastFreedFirst(k: Books, d: nat, b: nat)
    requires d < |k.freeLists| && b in k.live && PageOf(b) in k.arenas && k.arenas[PageOf(b)].Small?
    ensures CanTake(Put(k, d, b), d) && Take(Put(k, d, b), d) == k
  {
    var k' := Put(k, d, b);
    assert k'.freeLists[d][0] == b && k'.freeLists[d][1..] == k.freeLists[d];
    assert Take(k', d).freeLists == k.freeLists && Take(k', d).live == k.live;
    assert Take(k', d).arenas == k.arenas;
  }

  // list_remove.
  function Without(l: seq<nat>, a: nat): (r: seq<nat>)
    ensures forall x :: x in r <==> x in l && x != a
    ensures Distinct(l) ==> Distinct(r)
  {
    if l == [] then []
    else
      var t := Without(l[1..], a);
      assert Distinct(l) ==> Distinct(l[1..]) && l[0] !in l[1..];
      if l[0] == a then t else [l[0]] + t
  }

  // Removing the blocks 0 .. n of an arena one by one.
  function WithoutBlocks(l: seq<nat>, p: nat, size: nat, n: nat): (r: seq<nat>)
    ensures forall x :: x in r <==> x in l && x !in Blocks(p, size, n)
    ensures Distinct(l) ==> Distinct(r)
  {
    if n == 0 then l else Without(WithoutBlocks(l, p, size, n - 1), BlockAt(p, size, n - 1))
  }

  // When an arena counts all of its blocks as free, they are all on the list
  // and none of them is live.
  lemma WhollyFree(descs: seq<Desc>, k: Books, p: nat)
    requires BooksOk(descs, k) && p in k.arenas && k.arenas[p].Small?
    requires k.arenas[p].desc < |descs| && k.arenas[p].freeCnt >= descs[k.arenas[p].desc].count
    ensures var d := k.arenas[p].desc;
            && k.arenas[p].freeCnt == descs[d].count
            && (forall a :: a in Blocks(p, descs[d].size, descs[d].count) ==> a in k.freeLists[d])
            && (forall a :: a in k.live ==> PageOf(a) != p)
  {
    var d := k.arenas[p].desc;
    var blocks, free := Blocks(p, descs[d].size, descs[d].count), FreeIn(k.freeLists[d], p);
    assert CountOk(descs, k, p) && DescOk(descs[d]);
    BlocksMembers(p, descs[d].size, descs[d].count);
    assert free <= blocks by {
      assert forall a :: a in k.freeLists[d] ==> Belongs(descs, k, d, a);
    }
    SameSize(free, blocks);
    forall a | a in k.live
      ensures PageOf(a) != p
    {
      assert LiveOk(descs, k, a);
    }
  }

  lemma SameSize<T>(a: set<T>, b: set<T>)
    requires a <= b && |a| >= |b|
    ensures a == b && |a| == |b|
  {
    assert b == a + (b - a);
    assert |b| == |a| + |b - a|;
  }

  // A wholly free arena leaves: its blocks leave the list, its page the books.
  function DropArena(descs: seq<Desc>, k: Books, p: nat, d: nat): Books
    requires d < |descs| == |k.freeLists|
  {
    k.(freeLists := k.freeLists[d := WithoutBlocks(k.freeLists[d], p, descs[d].size, descs[d].count)],
       arenas := k.arenas - {p})
  }

  lemma ArenaDropped(descs: seq<Desc>, k: Books, p: nat)
    requires BooksOk(descs, k) && p in k.arenas && k.arenas[p].Small?
    requires k.arenas[p].desc < |descs| && k.arenas[p].freeCnt >= descs[k.arenas[p].desc].count
    ensures BooksOk(descs, DropArena(descs, k, p, k.arenas[p].desc))
  {
    hide Blocks, FreeIn, WithoutBlocks, Distinct, PageOf, Complete, CountOk, LiveOk;
    WhollyFree(descs, k, p);
    var d := k.arenas[p].desc;
    var k' := DropArena(descs, k, p, d);
    forall e, a | 0 <= e < |descs| && a in k'.freeLists[e]
      ensures Belongs(descs, k', e, a)
    {
      assert Belongs(descs, k, e, a);
    }
    forall q | q in k'.arenas
      ensures CountOk(descs, k', q) && Complete(descs, k', q)
    {
      OthersStay(descs, k, p, q);
    }
    forall a | a in k'.live
      ensures LiveOk(descs, k', a)
    {
      LiveStays(descs, k, p, a);
    }
  }

  // Dropping the wholly free arena p changes nothing for the arena q ...
  lemma OthersStay(descs: seq<Desc>, k: Books, p: nat, q: nat)
    requires BooksOk(descs, k) && p in k.arenas && q in k.arenas && p != q
    requires k.arenas[p].Small? && k.arenas[p].desc < |descs|
    ensures var k' := DropArena(descs, k, p, k.arenas[p].desc);
            CountOk(descs, k', q) && Complete(descs, k', q)
  {
    hide Blocks, FreeIn, WithoutBlocks, Distinct, PageOf;
    var d := k.arenas[p].desc;
    var k' := DropArena(descs, k, p, d);
    assert CountOk(descs, k, q) && Complete(descs, k, q);
    BlocksElsewhere(descs, k, p, d, q);
    StaysComplete(descs, k, k', q);
    hide Complete, BooksOk;
    FreeInSame(k'.freeLists[d], k.freeLists[d], q);
  }

  // ... nor for a live block outside p.
  lemma LiveStays(descs: seq<Desc>, k: Books, p: nat, a: nat)
    requires BooksOk(descs, k) && p in k.arenas && a in k.live && PageOf(a) != p
    requires k.arenas[p].Small? && k.arenas[p].desc < |descs|
    ensures LiveOk(descs, DropArena(descs, k, p, k.arenas[p].desc), a)
  {
    assert LiveOk(descs, k, a);
    hide Blocks, FreeIn, WithoutBlocks, Distinct, PageOf, BooksOk;
  }

  // Blocks of the arena in page p are in no other page.
  lemma BlocksElsewhere(descs: seq<Desc>, k: Books, p: nat, d: nat, q: nat)
    requires DescsOk(descs) && d < |descs| && q != p
    ensures forall a :: PageOf(a) == q ==> a !in Blocks(p, descs[d].size, descs[d].count)
  {
    forall a | a in Blocks(p, descs[d].size, descs[d].count)
      ensures PageOf(a) == p
    {
      BlocksInPage(p, descs[d], a);
    }
  }

  lemma FirstBlock(p: nat)
    ensures PageOf(4096 * p + 12) == p
  {
  }

  // A block too big for every descriptor gets pages of its own.
  function AddBig(k: Books, p: nat, n: nat): Books {
    k.(arenas := k.arenas[p := Big(n)], live := k.live + {4096 * p + 12})
  }

  lemma BigAdded(descs: seq<Desc>, k: Books, p: nat, n: nat)
    requires BooksOk(descs, k) && p !in k.arenas && n > 0
    ensures BooksOk(descs, AddBig(k, p, n)) && 4096 * p + 12 !in k.live
  {
    var k' := AddBig(k, p, n);
    FirstBlock(p);
    hide Blocks, FreeIn, Distinct, PageOf;
    forall q | q in k.arenas
      ensures CountOk(descs, k', q) && Complete(descs, k', q)
    {
      assert CountOk(descs, k, q) && Complete(descs, k, q);
      StaysComplete(descs, k, k', q);
      hide Complete;
    }
    forall a | a in k.live
      ensures a != 4096 * p + 12 && LiveOk(descs, k', a)
    {
      assert LiveOk(descs, k, a);
    }
    forall e, a | 0 <= e < |descs| && a in k.freeLists[e]
      ensures Belongs(descs, k', e, a)
    {
      assert Belongs(descs, k, e, a);
    }
  }

  function DropBig(k: Books, p: nat): Books {
    k.(arenas := k.arenas - {p}, live := k.live - {4096 * p + 12})
  }

  lemma BigDropped(descs: seq<Desc>, k: Books, p: nat)
    requires BooksOk(descs, k) && p in k.arenas && k.arenas[p].Big?
    ensures BooksOk(descs, DropBig(k, p))
  {
    var k' := DropBig(k, p);
    FirstBlock(p);
    hide Blocks, FreeIn, Distinct, PageOf;
    forall q | q in k'.arenas
      ensures CountOk(descs, k', q) && Complete(descs, k', q)
    {
      assert CountOk(descs, k, q) && Complete(descs, k, q);
      StaysComplete(descs, k, k', q);
      hide Complete;
      if k.arenas[q].Small? {
        BlocksElsewhere(descs, k, q, k.arenas[q].desc, p);
      }
    }
    forall a | a in k'.live
      ensures LiveOk(descs, k', a)
    {
      assert LiveOk(descs, k, a);
    }
    forall e, a | 0 <= e < |descs| && a in k.freeLists[e]
      ensures Belongs(descs, k', e, a)
    {
      assert Belongs(descs, k, e, a);
    }
  }

  lemma FreeAtMost(descs: seq<Desc>, k: Books, p: nat)
    requires BooksOk(descs, k) && p in k.arenas && k.arenas[p].Small? && k.arenas[p].desc < |descs|
    ensures k.arenas[p].freeCnt <= descs[k.arenas[p].desc].count
  {
    var d := k.arenas[p].desc;
    var blocks, free := Blocks(p, descs[d].size, descs[d].count), FreeIn(k.freeLists[d], p);
    assert CountOk(descs, k, p) && DescOk(descs[d]);
    BlocksMembers(p, descs[d].size, descs[d].count);
    assert free <= blocks by {
      assert forall a :: a in k.freeLists[d] ==> Belongs(descs, k, d, a);
    }
    assert blocks == free + (blocks - free);
    assert |blocks| == |free| + |blocks - free|;
  }

  // Taking a block from the one arena that may be idle leaves none idle.
  lemma NoIdleAfterTake(descs: seq<Desc>, k: Books, d: nat)
    requires BooksOk(descs, k) && CanTake(k, d) && NoIdleExcept(descs, k, PageOf(k.freeLists[d][0]))
    ensures NoIdleArena(descs, Take(k, d)) && SameKinds(k, Take(k, d))
  {
    var p := PageOf(k.freeLists[d][0]);
    if k.arenas[p].desc < |descs| {
      FreeAtMost(descs, k, p);
    }
  }

  // What the live blocks hold, each to its full capacity.
  function Contents(descs: seq<Desc>, k: Books, mem: seq<byte>): map<nat, seq<byte>> {
    map a | a in k.live :: Held(descs, k, mem, a)
  }

  function Held(descs: seq<Desc>, k: Books, mem: seq<byte>, a: nat): seq<byte> {
    if PageOf(a) in k.arenas && a + Capacity(descs, k, a) <= |mem| then mem[a..a + Capacity(descs, k, a)] else []
  }

  // The same blocks but one hold the same bytes, if arenas keep their kind and
  // memory changed only outside those blocks.
  lemma ContentsKept(descs: seq<Desc>, k: Books, k': Books, mem: seq<byte>, mem': seq<byte>, b: nat)
    requires BooksOk(descs, k) && |mem'| == |mem| && k.live - {b} == k'.live - {b} && SameKinds(k, k')
    requires forall a :: a in k.live && a != b ==> Held(descs, k, mem', a) == Held(descs, k, mem, a)
    ensures Contents(descs, k', mem') - {b} == Contents(descs, k, mem) - {b}
  {
    hide Held, BooksOk, SameKinds;
    forall a | a in k.live - {b}
      ensures a in k'.live && Held(descs, k', mem', a) == Held(descs, k, mem, a)
    {
      assert a in k'.live - {b};
      HeldByKind(descs, k, k', mem', a);
    }
    var c, c' := Contents(descs, k, mem) - {b}, Contents(descs, k', mem') - {b};
    assert c.Keys == k.live - {b} && c'.Keys == k'.live - {b};
  }

  lemma HeldByKind(descs: seq<Desc>, k: Books, k': Books, mem: seq<byte>, a: nat)
    requires BooksOk(descs, k) && SameKinds(k, k') && a in k.live
    ensures Held(descs, k', mem, a) == Held(descs, k, mem, a)
  {
    KindsGiveCapacity(descs, k, k', a);
    hide BooksOk, SameKinds, Capacity;
  }

  lemma KindsGiveCapacity(descs: seq<Desc>, k: Books, k': Books, a: nat)
    requires BooksOk(descs, k) && SameKinds(k, k') && a in k.live
    ensures PageOf(a) in k.arenas && PageOf(a) in k'.arenas && Capacity(descs, k', a) == Capacity(descs, k, a)
  {
    assert LiveOk(descs, k, a);
  }

  // ---- Pages. ----

  lemma PagesAdded(k: Books, k': Books, base: nat, used: seq<bool>, used': seq<bool>, p: nat, a: Arena)
    requires PagesOk(k, base, used) && base <= p && PagesOf(a) > 0
    requires forall q :: q in k.arenas ==> PagesOf(k.arenas[q]) > 0
    requires k'.arenas == k.arenas[p := a] && |used'| == |used| && p + PagesOf(a) <= base + |used|
    requires forall i :: p - base <= i < p - base + PagesOf(a) ==> !used[i]
    requires forall i :: 0 <= i < |used| ==> used'[i] == (used[i] || p - base <= i < p - base + PagesOf(a))
    ensures p !in k.arenas && PagesOk(k', base, used')
  {
    forall q | q in k.arenas
      ensures q + PagesOf(k.arenas[q]) <= p || p + PagesOf(a) <= q
    {
      var n := PagesOf(k.arenas[q]);
      assert PagesMarked(q, n, base, used);
      assert used[q - base] && !used[p - base];
    }
  }

  lemma PagesDropped(k: Books, k': Books, base: nat, used: seq<bool>, used': seq<bool>, p: nat)
    requires PagesOk(k, base, used) && p in k.arenas && k'.arenas == k.arenas - {p} && |used'| == |used|
    requires forall q :: q in k.arenas ==> PagesOf(k.arenas[q]) > 0
    requires forall i :: 0 <= i < |used| ==>
               used'[i] == (used[i] && !(p - base <= i < p - base + PagesOf(k.arenas[p])))
    ensures PagesOk(k', base, used')
  {
    forall q | q in k'.arenas
      ensures PagesMarked(q, PagesOf(k'.arenas[q]), base, used')
    {
      assert PagesMarked(q, PagesOf(k.arenas[q]), base, used);
      assert q < p ==> q + PagesOf(k.arenas[q]) <= p;
      assert p < q ==> p + PagesOf(k.arenas[p]) <= q;
    }
  }

  lemma PagesSame(k: Books, k': Books, base: nat, used: seq<bool>)
    requires PagesOk(k, base, used) && k'.arenas.Keys == k.arenas.Keys
    requires forall p :: p in k.arenas ==> PagesOf(k'.arenas[p]) == PagesOf(k.arenas[p])
    ensures PagesOk(k', base, used)
  {
  }
}
