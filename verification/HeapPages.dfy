// Which pages of the pool the block allocator holds: its arenas lie on marked
// pages, and every other marked page belongs to somebody else.
module HeapPages {
  import opened HeapBooks
  import Bitmap
  import Layout

  predicate Covers(p: nat, a: Arena, q: nat) {
    p <= q < p + PagesOf(a)
  }

  // Page q is a page of some arena.
  ghost predicate Covered(arenas: map<nat, Arena>, q: nat) {
    exists p :: p in arenas && Covers(p, arenas[p], q)
  }

  // A page is marked exactly if it is held here or by somebody else, not both.
  predicate HeldOnce(marked: bool, other: bool, here: bool) {
    (marked <==> other || here) && !(other && here)
  }

  ghost predicate OwnersOk(arenas: map<nat, Arena>, base: nat, used: seq<bool>, others: seq<bool>) {
    && |others| == |used|
    && forall i :: 0 <= i < |used| ==> HeldOnce(used[i], others[i], Covered(arenas, base + i))
  }

  // The map with n pages from page p on marked or unmarked.
  ghost function Mark(base: nat, pages: seq<bool>, p: nat, n: nat, value: bool): (r: seq<bool>)
    ensures |r| == |pages|
    ensures base <= p && p - base + n <= |pages| ==> r == Layout.SetBits(pages, p - base, p - base + n, value)
  {
    if base <= p && p - base + n <= |pages| then Layout.SetBits(pages, p - base, p - base + n, value) else pages
  }

  // Page p is the start of the first run of n pages that are not marked.
  ghost predicate FirstFree(base: nat, pages: seq<bool>, p: nat, n: nat) {
    base <= p && Bitmap.FirstRun(pages, p - base, n, false)
  }

  lemma OwnersSame(arenas: map<nat, Arena>, arenas': map<nat, Arena>, base: nat, used: seq<bool>, others: seq<bool>)
    requires OwnersOk(arenas, base, used, others) && arenas'.Keys == arenas.Keys
    requires forall p :: p in arenas ==> PagesOf(arenas'[p]) == PagesOf(arenas[p])
    ensures OwnersOk(arenas', base, used, others)
  {
    forall q: nat
      ensures Covered(arenas', q) <==> Covered(arenas, q)
    {
      CoveredSame(arenas, arenas', q);
    }
  }

  lemma CoveredSame(arenas: map<nat, Arena>, arenas': map<nat, Arena>, q: nat)
    requires arenas'.Keys == arenas.Keys && forall p :: p in arenas ==> PagesOf(arenas'[p]) == PagesOf(arenas[p])
    ensures Covered(arenas', q) <==> Covered(arenas, q)
  {
    hide PagesOf;
    if Covered(arenas, q) {
      var p :| p in arenas && Covers(p, arenas[p], q);
      assert p in arenas' && Covers(p, arenas'[p], q);
    }
    if Covered(arenas', q) {
      var p :| p in arenas' && Covers(p, arenas'[p], q);
      assert p in arenas && Covers(p, arenas[p], q);
    }
  }

  // A new arena takes pages that nobody had marked.
  lemma OwnersAdded(arenas: map<nat, Arena>, base: nat, used: seq<bool>, others: seq<bool>, p: nat, a: Arena)
    requires OwnersOk(arenas, base, used, others) && p !in arenas
    requires base <= p && Bitmap.Run(used, p - base, PagesOf(a), false)
    ensures OwnersOk(arenas[p := a], base, Mark(base, used, p, PagesOf(a), true), others)
  {
    forall q: nat
      ensures Covered(arenas[p := a], q) <==> Covered(arenas, q) || Covers(p, a, q)
    {
      CoveredAdded(arenas, p, a, q);
    }
    hide Covered;
  }

  lemma CoveredAdded(arenas: map<nat, Arena>, p: nat, a: Arena, q: nat)
    requires p !in arenas
    ensures Covered(arenas[p := a], q) <==> Covered(arenas, q) || Covers(p, a, q)
  {
    var arenas' := arenas[p := a];
    hide Covers;
    if Covered(arenas, q) {
      var r :| r in arenas && Covers(r, arenas[r], q);
      assert r in arenas' && arenas'[r] == arenas[r];
    }
    if Covers(p, a, q) {
      assert p in arenas' && Covers(p, arenas'[p], q);
    }
  }

  // The pages of an arena that goes are no longer marked, and no others change.
  lemma OwnersDropped(arenas: map<nat, Arena>, base: nat, used: seq<bool>, others: seq<bool>, p: nat)
    requires OwnersOk(arenas, base, used, others) && p in arenas
    requires base <= p && p - base + PagesOf(arenas[p]) <= |used|
    requires forall q, r :: q in arenas && r in arenas && q < r ==> q + PagesOf(arenas[q]) <= r
    ensures OwnersOk(arenas - {p}, base, Mark(base, used, p, PagesOf(arenas[p]), false), others)
  {
    forall q: nat
      ensures Covered(arenas - {p}, q) <==> Covered(arenas, q) && !Covers(p, arenas[p], q)
    {
      CoveredDropped(arenas, p, q);
    }
    forall i | 0 <= i < |used| && Covers(p, arenas[p], base + i)
      ensures used[i] && !others[i]
    {
      assert Covered(arenas, base + i);
    }
    hide Covered;
  }

  lemma CoveredDropped(arenas: map<nat, Arena>, p: nat, q: nat)
    requires p in arenas
    requires forall q, r :: q in arenas && r in arenas && q < r ==> q + PagesOf(arenas[q]) <= r
    ensures Covered(arenas - {p}, q) <==> Covered(arenas, q) && !Covers(p, arenas[p], q)
  {
    var arenas' := arenas - {p};
    hide PagesOf;
    if Covered(arenas', q) {
      var r :| r in arenas' && Covers(r, arenas'[r], q);
      assert r in arenas && Covers(r, arenas[r], q);
    }
    if Covered(arenas, q) && !Covers(p, arenas[p], q) {
      var r :| r in arenas && Covers(r, arenas[r], q);
      assert r in arenas' && arenas'[r] == arenas[r];
    }
  }

  // Without arenas, the marked pages are those of the others.
  lemma NothingHeld(base: nat, used: seq<bool>, others: seq<bool>)
    requires OwnersOk(map[], base, used, others)
    ensures used == others
  {
    forall i | 0 <= i < |used|
      ensures used[i] == others[i]
    {
      assert !Covered(map[], base + i);
    }
  }

  // ---- Pages and the blocks in use. ----

  ghost predicate InUse(live: set<nat>, p: nat) {
    exists a :: a in live && PageOf(a) == p
  }

  // How many pages a block of this size at a reaches over.
  function PagesUnder(a: nat, size: nat): nat {
    (a % 4096 + size + 4095) / 4096
  }

  predicate ReachesOver(a: nat, size: nat, q: nat) {
    PageOf(a) <= q < PageOf(a) + PagesUnder(a, size)
  }

  // An arena that is not idle has a block in use.
  lemma ArenaInUse(descs: seq<Desc>, k: Books, p: nat)
    requires BooksOk(descs, k) && NoIdleArena(descs, k) && p in k.arenas
    ensures InUse(k.live, p)
  {
    assert CountOk(descs, k, p) && Complete(descs, k, p) && DescsOk(descs);
    hide BooksOk, ListsOk, Blocks;
    match k.arenas[p]
    case Small(d, n) =>
      var blocks, free := Blocks(p, descs[d].size, descs[d].count), FreeIn(k.freeLists[d], p);
      BlocksMembers(p, descs[d].size, descs[d].count);
      SmallerMisses(free, blocks);
      var a :| a in blocks && a !in free;
      BlocksInPage(p, descs[d], a);
    case Big(_) =>
      FirstBlock(p);
  }

  lemma SmallerMisses<T>(a: set<T>, b: set<T>)
    requires |a| < |b|
    ensures exists x :: x in b && x !in a
  {
    if b <= a {
      SameSize(b, a);
    }
  }

  // A block in use reaches over the pages of its arena.
  lemma BlockPages(descs: seq<Desc>, k: Books, a: nat)
    requires BooksOk(descs, k) && a in k.live
    ensures PageOf(a) in k.arenas && PagesUnder(a, Capacity(descs, k, a)) == PagesOf(k.arenas[PageOf(a)])
  {
    assert LiveOk(descs, k, a) && CountOk(descs, k, PageOf(a)) && DescsOk(descs);
    hide BooksOk, ListsOk, Blocks, FreeIn;
    var p := PageOf(a);
    match k.arenas[p]
    case Small(d, _) => BlocksInPage(p, descs[d], a);
    case Big(n) =>
  }

  // The allocator holds exactly the pages its blocks in use reach over.
  lemma CoveredByLive(descs: seq<Desc>, k: Books, q: nat)
    requires BooksOk(descs, k) && NoIdleArena(descs, k)
    ensures Covered(k.arenas, q) <==>
              exists a :: a in k.live && PageOf(a) in k.arenas && ReachesOver(a, Capacity(descs, k, a), q)
  {
    hide BooksOk, NoIdleArena, Capacity, PagesOf, PageOf, PagesUnder;
    if Covered(k.arenas, q) {
      var p :| p in k.arenas && Covers(p, k.arenas[p], q);
      ArenaInUse(descs, k, p);
      var a :| a in k.live && PageOf(a) == p;
      BlockPages(descs, k, a);
    }
    forall a | a in k.live && PageOf(a) in k.arenas
      ensures PagesUnder(a, Capacity(descs, k, a)) == PagesOf(k.arenas[PageOf(a)])
    {
      BlockPages(descs, k, a);
    }
    if a :| a in k.live && PageOf(a) in k.arenas && ReachesOver(a, Capacity(descs, k, a), q) {
      assert Covers(PageOf(a), k.arenas[PageOf(a)], q);
    }
  }

  // A block of descriptor d is on the free list exactly if an arena with a
  // block of that descriptor in use has another that is not.
  ghost predicate HasSpare(descs: seq<Desc>, k: Books, d: nat)
    requires d < |descs|
  {
    exists b, a :: b in k.live && PageOf(b) in k.arenas && k.arenas[PageOf(b)].Small? && k.arenas[PageOf(b)].desc == d
                   && a in Blocks(PageOf(b), descs[d].size, descs[d].count) && a !in k.live
  }

  lemma SpareListed(descs: seq<Desc>, k: Books, d: nat)
    requires BooksOk(descs, k) && NoIdleArena(descs, k) && d < |descs|
    ensures |k.freeLists| == |descs| && (k.freeLists[d] != [] <==> HasSpare(descs, k, d))
  {
    hide Blocks, FreeIn, Distinct, PageOf, NoIdleArena;
    if k.freeLists[d] != [] {
      var a := k.freeLists[d][0];
      assert a in k.freeLists[d] && Belongs(descs, k, d, a);
      assert a in k.live ==> LiveOk(descs, k, a);
      var p := PageOf(a);
      ArenaInUse(descs, k, p);
      var b :| b in k.live && PageOf(b) == p;
      assert HasSpare(descs, k, d);
    }
    if HasSpare(descs, k, d) {
      var b, a :| b in k.live && PageOf(b) in k.arenas && k.arenas[PageOf(b)].Small? && k.arenas[PageOf(b)].desc == d
                  && a in Blocks(PageOf(b), descs[d].size, descs[d].count) && a !in k.live;
      assert Complete(descs, k, PageOf(b));
    }
  }
}
