// The operations on a page directory, over memory that holds page tables and
// an allocator that gives out and takes back pages.
module PageDir {
  import opened PageTables
  import Mmu

  // What pagedir_destroy gives back, in its order: for each of the first n
  // directory entries the frames its table still maps, then the table.
  ghost function TableReleases(words: Words, pt: bv32, n: bv32): seq<Key> {
    if n == 0 || n > 1024 then []
    else
      var e := Entry(words, Slot(pt, n - 1));
      TableReleases(words, pt, n - 1) + if Present(e) then [K(PageAt(e))] else []
  }

  ghost function EntryReleases(words: Words, pd: bv32, i: bv32): seq<Key> {
    if HasTable(words, pd, i) then TableReleases(words, TableOf(words, pd, i), 1024) + [K(TableOf(words, pd, i))] else []
  }

  ghost function Releases(words: Words, pd: bv32, n: bv32): seq<Key> {
    if n == 0 || n > 768 then [] else Releases(words, pd, n - 1) + EntryReleases(words, pd, n - 1)
  }

  ghost predicate ViewSame(words: Words, words': Words, pd: bv32) {
    forall va: bv32 :: UserAddr(va) ==> EntryFor(words', pd, va) == EntryFor(words, pd, va)
  }

  predicate InRangeIfPresent(e: bv32) {
    Present(e) ==> InRange(e)
  }

  // Only the entry of one user page is different.
  ghost predicate OneEntry(words: Words, words': Words, pd: bv32, upage: bv32, e: bv32) {
    forall va: bv32 :: UserAddr(va) ==>
      EntryFor(words', pd, va) == if RoundDown(va) == RoundDown(upage) then e else EntryFor(words, pd, va)
  }

  // The pages that are free or hold tables.
  ghost function Held(free: set<Key>, words: Words): set<Key> {
    free + words.Keys
  }

  ghost function DirEntry(words: Words, pd: bv32, i: bv32): bv32 {
    if K(pd) in words && K(i) in words[K(pd)] then words[K(pd)][K(i)] else 0
  }

  // Directory slot i has a table now, a page of the kernel's pool unless it was
  // there before; the other slots are as they were.
  ghost predicate TableHad(words: Words, free: set<Key>, words': Words, free': set<Key>, userPool: set<Key>,
                           pd: bv32, i: bv32) {
    && HasTable(words', pd, i)
    && (forall j: bv32 :: j < 768 && j != i ==> DirEntry(words', pd, j) == DirEntry(words, pd, j))
    && if HasTable(words, pd, i) then
         free' == free && words'.Keys == words.Keys && DirEntry(words', pd, i) == DirEntry(words, pd, i)
       else
         var k := K(PageAt(DirEntry(words', pd, i)));
         k in free - userPool && free' == free - {k} && k !in words && words'.Keys == words.Keys + {k}
  }

  lemma TableThere(words: Words, free: set<Key>, userPool: set<Key>, pd: bv32, i: bv32)
    requires HasTable(words, pd, i)
    ensures TableHad(words, free, words, free, userPool, pd, i)
  {
  }

  lemma TableNew(words: Words, free: set<Key>, userPool: set<Key>, pd: bv32, i: bv32, pt: bv32)
    requires K(pd) in words && KernelPage(pt) && pt != pd && K(pt) in free - userPool && K(pt) !in words
    requires !HasTable(words, pd, i) && i < 768
    ensures TableHad(words, free, AddTable(words, pd, i, pt), free - {K(pt)}, userPool, pd, i)
  {
    hide ZeroTable, PageAt, InRange, Present, PdeCreate;
    EntryRoundTrip(pt, true);
  }

  lemma TableStays(words: Words, free: set<Key>, mid: Words, words': Words, free': set<Key>, userPool: set<Key>,
                   pd: bv32, i: bv32)
    requires TableHad(words, free, mid, free', userPool, pd, i) && words'.Keys == mid.Keys
    requires K(pd) in mid && words'[K(pd)] == mid[K(pd)]
    ensures TableHad(words, free, words', free', userPool, pd, i)
  {
  }

  // The directory with a new table in it.
  lemma TableUsed(words: Words, free: set<Key>, userPool: set<Key>, pd: bv32, va: bv32, pt: bv32)
    requires PdOk(words, pd) && UserAddr(va) && !HasTable(words, pd, PdNo(va))
    requires KernelPage(pt) && K(pt) !in words && K(pt) in free - userPool
    ensures K(pd) in words && pt != pd
    ensures var w := words[K(pt) := ZeroTable(1024)][K(pd) := words[K(pd)][K(PdNo(va)) := PdeCreate(pt)]];
            && PdOk(w, pd) && Find(w, pd, va) == Slot(pt, PtNo(va)) && ViewSame(words, w, pd)
            && TableHad(words, free, w, free - {K(pt)}, userPool, pd, PdNo(va))
            && (forall k :: k in words && k != K(pd) ==> k in w && w[k] == words[k])
            && Held(free - {K(pt)}, w) == Held(free, words)
  {
    UserHalf(va);
    var i := PdNo(va);
    TableNew(words, free, userPool, pd, i, pt);
    TableAdded(words, pd, i, pt);
    forall vb: bv32 | UserAddr(vb)
      ensures EntryFor(AddTable(words, pd, i, pt), pd, vb) == EntryFor(words, pd, vb)
    {
      TableAddedEntry(words, pd, i, pt, vb);
    }
    TableAddedEntry(words, pd, i, pt, va);
    hide ZeroTable, PdeCreate, PdeOk, PdesApart, KernelPage, EntryFor, Find, TableHad;
  }

  lemma SameTables(words: Words, pd: bv32, va: bv32)
    requires PdOk(words, pd) && UserAddr(va) && !HasTable(words, pd, PdNo(va))
    ensures ViewSame(words, words, pd) && Find(words, pd, va) == NoSlot
  {
  }

  lemma NullIsNoPage(words: Words, pd: bv32)
    requires PdOk(words, pd)
    ensures K(pd) in words
  {
  }

  lemma EntryAtSlot(words: Words, pd: bv32, va: bv32, e: bv32)
    requires K(pd) in words && Find(words, pd, va).Slot? && Find(words, pd, va).pt != pd && K(Find(words, pd, va).pt) in words
    ensures EntryFor(Poke(words, Find(words, pd, va), e), pd, va) == e
  {
    hide PdNo, PtNo, PageAt;
    assert Poke(words, Find(words, pd, va), e)[K(pd)] == words[K(pd)];
  }

  lemma EntryPoked(words: Words, pd: bv32, va: bv32, e: bv32)
    requires PdOk(words, pd) && Lookable(words, pd, va) && Find(words, pd, va).Slot?
    ensures K(Find(words, pd, va).pt) in words
    ensures var w := Poke(words, Find(words, pd, va), e); OneEntry(words, w, pd, va, e) && EntryFor(w, pd, va) == e
  {
    hide PdOk, RoundDown, Lookable, TableOk, HasTable, TableOf, PdNo, PtNo;
    FindOk(words, pd, va);
    EntryAtSlot(words, pd, va, e);
    forall vb: bv32 | UserAddr(vb)
      ensures EntryFor(Poke(words, Find(words, pd, va), e), pd, vb) ==
              if RoundDown(vb) == RoundDown(va) then e else EntryFor(words, pd, vb)
    {
      PokedEntry(words, pd, va, e, vb);
    }
    hide EntryFor, Find, Poke;
  }

  // What memory holds besides the directory and its tables.
  ghost function Rest(words: Words, pd: bv32): Words {
    map k | k in words && k != K(pd) && !IsTable(words, pd, k) :: words[k]
  }

  lemma RestKept(words: Words, free: set<Key>, words': Words, free': set<Key>, userPool: set<Key>, pd: bv32, i: bv32)
    requires TableHad(words, free, words', free', userPool, pd, i) && i < 768
    requires OthersSame(words, words', pd) && K(pd) in words
    ensures Rest(words', pd) == Rest(words, pd)
  {
    hide PageAt;
    var table := K(PageAt(DirEntry(words', pd, i)));
    forall k | k in words
      ensures IsTable(words', pd, k) <==> IsTable(words, pd, k)
    {
      TableSame(words, free, words', free', userPool, pd, i, k);
    }
    assert table !in words ==> IsTable(words', pd, table) by {
      assert HasTable(words', pd, i) && table == K(TableOf(words', pd, i));
    }
    hide IsTable, HasTable;
  }

  // Of the pages there were, the same ones are tables.
  lemma TableSame(words: Words, free: set<Key>, words': Words, free': set<Key>, userPool: set<Key>, pd: bv32, i: bv32, k: Key)
    requires TableHad(words, free, words', free', userPool, pd, i) && i < 768 && k in words
    ensures IsTable(words', pd, k) <==> IsTable(words, pd, k)
  {
    hide PageAt;
    if IsTable(words', pd, k) {
      var j: bv32 :| j < 768 && HasTable(words', pd, j) && k == K(TableOf(words', pd, j));
      assert DirEntry(words', pd, j) == DirEntry(words, pd, j);
      assert HasTable(words, pd, j) && k == K(TableOf(words, pd, j));
    }
    if IsTable(words, pd, k) {
      var j: bv32 :| j < 768 && HasTable(words, pd, j) && k == K(TableOf(words, pd, j));
      assert DirEntry(words', pd, j) == DirEntry(words, pd, j);
      assert HasTable(words', pd, j) && k == K(TableOf(words', pd, j));
    }
  }

  // Everything released since the first of two moments is free at the second.
  ghost predicate Freed(free: set<Key>, released: seq<Key>, free': set<Key>, released': seq<Key>) {
    released <= released' && free' == free + set k | k in released'[|released|..]
  }

  lemma NothingFreed(f: set<Key>, r: seq<Key>)
    ensures Freed(f, r, f, r)
  {
  }

  lemma FreedMore(f: set<Key>, r: seq<Key>, f': set<Key>, r': seq<Key>, k: Key)
    requires Freed(f, r, f', r')
    ensures Freed(f, r, f' + {k}, r' + [k])
  {
    assert (r' + [k])[|r|..] == r'[|r|..] + [k];
  }

  lemma FreedTwice(f: set<Key>, r: seq<Key>, f': set<Key>, r': seq<Key>, f'': set<Key>, r'': seq<Key>)
    requires Freed(f, r, f', r') && Freed(f', r', f'', r'')
    ensures Freed(f, r, f'', r'')
  {
    assert r''[|r|..] == r'[|r|..] + r''[|r'|..];
  }

  // Free memory comes in two pools, one for user pages and one for the kernel.
  class Memory {
    const initPageDir: Table
    const userPool: set<Key>
    var words: Words
    var free: set<Key>
    ghost var released: seq<Key>

    ghost predicate Valid()
      reads this
    {
      && (forall k :: k in free ==> KernelPage(k.bits) && k !in words)
      && (forall i: bv32 :: i < 768 ==> K(i) in initPageDir && initPageDir[K(i)] == 0)
    }

    // What is free in one of the pools.
    function Pool(user: bool): set<Key>
      reads this`free
    {
      if user then free * userPool else free - userPool
    }

    // palloc_get_page: the null pointer, 0, exactly if no page of the pool is free.
    method GetPage(user: bool) returns (page: bv32)
      requires Valid()
      modifies this`free
      ensures Valid()
      ensures page == 0 <==> old(Pool(user)) == {}
      ensures page == 0 ==> free == old(free)
      ensures page != 0 ==> KernelPage(page) && K(page) in old(Pool(user)) && K(page) !in words
                            && free == old(free) - {K(page)}
    {
      page := 0;
      var pool := Pool(user);
      if pool != {} {
        var k :| k in pool;
        free := free - {k};
        page := k.bits;
      }
    }

    // palloc_free_page.
    method FreePage(page: bv32)
      requires Valid() && KernelPage(page)
      modifies this`words, this`free, this`released
      ensures Valid() && words == old(words) - {K(page)} && free == old(free) + {K(page)}
      ensures released == old(released) + [K(page)]
    {
      words := words - {K(page)};
      free := free + {K(page)};
      released := released + [K(page)];
    }

    method Create() returns (pd: bv32)
      requires Valid()
      modifies this`words, this`free
      ensures Valid() && (pd == 0 ==> words == old(words) && free == old(free)) && (pd == 0 <==> old(Pool(false)) == {})
      ensures pd != 0 ==> K(pd) !in old(words) && PdOk(words, pd) && View(words, pd) == imap[]
      ensures pd != 0 ==> words == old(words)[K(pd) := initPageDir]
                          && K(pd) in old(Pool(false)) && free == old(free) - {K(pd)}
      ensures pd != 0 ==> forall i: bv32 :: i < 768 ==> !HasTable(words, pd, i)
    {
      pd := GetPage(false);
      if pd != 0 {
        words := words[K(pd) := initPageDir];
        EmptyDirectory(words, pd);
      }
    }

    // lookup_page.
    method LookupPage(pd: bv32, va: bv32, create: bool) returns (s: Slot)
      requires Valid() && PdOk(words, pd) && Lookable(words, pd, va) && (create ==> UserAddr(va))
      modifies this`words, this`free
      ensures Valid() && PdOk(words, pd) && s == Find(words, pd, va) && ViewSame(old(words), words, pd)
      ensures s.NoSlot? <==> !old(HasTable(words, pd, PdNo(va))) && (!create || old(Pool(false)) == {})
      ensures create && s.Slot? ==> TableHad(old(words), old(free), words, free, userPool, pd, PdNo(va))
      ensures !create || s.NoSlot? ==> words == old(words) && free == old(free)
      ensures free <= old(free) && Held(free, words) == Held(old(free), old(words))
      ensures forall k :: k in old(words) && k != K(pd) ==> k in words && words[k] == old(words)[k]
      ensures s.Slot? && K(s.pt) in old(words) ==> words == old(words)
    {
      hide ZeroTable, PdeCreate, Present, InRange, PageAt, PdesApart, RoundDown;
      UserHalf(va);
      AddressParts(va);
      var i := PdNo(va);
      assert PdeOk(words, pd, i);
      var pde := words[K(pd)][K(i)];
      if pde != 0 {
        s := Slot(PageAt(pde), PtNo(va));
        TableThere(words, free, userPool, pd, i);
      } else if create {
        s := CreateTable(pd, va);
      } else {
        s := NoSlot;
      }
    }

    // "Check for a page table for VADDR. If one is missing, create one if requested."
    method CreateTable(pd: bv32, va: bv32) returns (s: Slot)
      requires Valid() && PdOk(words, pd) && UserAddr(va) && !HasTable(words, pd, PdNo(va))
      modifies this`words, this`free
      ensures Valid() && PdOk(words, pd) && s == Find(words, pd, va) && ViewSame(old(words), words, pd)
      ensures s.NoSlot? <==> old(Pool(false)) == {}
      ensures s.Slot? ==> TableHad(old(words), old(free), words, free, userPool, pd, PdNo(va))
      ensures s.NoSlot? ==> words == old(words) && free == old(free)
      ensures free <= old(free) && Held(free, words) == Held(old(free), old(words))
      ensures forall k :: k in old(words) && k != K(pd) ==> k in words && words[k] == old(words)[k]
      ensures s.Slot? ==> K(s.pt) !in old(words)
    {
      hide PdOk, Find, ViewSame, TableHad, HasTable, Held, ZeroTable, PdeCreate, PdNo, PtNo, UserAddr;
      var i := PdNo(va);
      NullIsNoPage(words, pd);
      SameTables(words, pd, va);
      var pt := GetPage(false);
      if pt == 0 {
        return NoSlot;
      }
      TableUsed(words, old(free), userPool, pd, va, pt);
      words := words[K(pt) := ZeroTable(1024)];
      words := words[K(pd) := words[K(pd)][K(i) := PdeCreate(pt)]];
      s := Slot(pt, PtNo(va));
    }

    method SetPage(pd: bv32, upage: bv32, kpage: bv32, writable: bool) returns (ok: bool)
      requires Valid() && PdOk(words, pd) && UserPage(upage) && KernelPage(kpage)
      requires K(upage) !in View(words, pd)
      modifies this`words, this`free
      ensures Valid() && PdOk(words, pd)
      ensures OthersSame(old(words), words, pd)
      ensures free <= old(free) && Held(free, words) == Held(old(free), old(words))
      ensures ok <==> old(HasTable(words, pd, PdNo(upage))) || old(Pool(false)) != {}
      ensures ok ==> TableHad(old(words), old(free), words, free, userPool, pd, PdNo(upage))
      ensures Rest(words, pd) == old(Rest(words, pd))
      ensures !ok ==> words == old(words) && free == old(free)
      ensures View(words, pd) ==
              if ok then old(View(words, pd))[K(upage) := Mapping(kpage, writable)] else old(View(words, pd))
      ensures ok ==> Mmu.Opened(old(words), words, pd, upage, Mapping(kpage, writable))
    {
      hide PdOk, ViewSame, OneEntry, View, PteCreateUser, RoundDown, PageAt, IsTable, OthersSame, Held, TableHad, Rest,
        HasTable, EntryFor, Find, PdNo, Present, InRange, KernelPage, PgOfs, Writable, Dirty, Accessed, TableOk, Mmu.Opened;
      var s := LookupPage(pd, upage, true);
      LookupAlone(old(words), words, pd, s);
      ViewKept(old(words), words, pd);
      ok := s.Slot?;
      if ok {
        FindOk(words, pd, upage);
        var e := PteCreateUser(kpage, writable);
        EntryRoundTrip(kpage, writable);
        ghost var w := words;
        WriteEntry(pd, upage, s, e);
        OnlyItsTables(old(words), w, words, pd, upage, s);
        TableStays(old(words), old(free), w, words, free, userPool, pd, PdNo(upage));
        UserHalf(upage);
        RestKept(old(words), old(free), words, free, userPool, pd, PdNo(upage));
        PageMapped(w, words, pd, upage, kpage, writable);
        Mmu.PageOpened(old(words), words, pd, upage, Mapping(kpage, writable));
      }
    }

    // A store through the pointer lookup_page returned.
    method WriteEntry(pd: bv32, va: bv32, s: Slot, e: bv32)
      requires Valid() && PdOk(words, pd) && Lookable(words, pd, va) && s.Slot? && s == Find(words, pd, va)
      requires (Present(e) ==> InRange(e)) && MayStore(words, pd, s, e)
      modifies this`words
      ensures Valid() && PdOk(words, pd) && OneEntry(old(words), words, pd, va, e) && EntryFor(words, pd, va) == e
      ensures Held(free, words) == Held(free, old(words))
      ensures words.Keys == old(words).Keys && forall k :: k in words && k != K(s.pt) ==> words[k] == old(words)[k]
    {
      hide PdOk, RoundDown, Present, InRange, Lookable, Find, EntryFor, OneEntry, TableOk, MayStore;
      FindOk(words, pd, va);
      Poked(words, pd, s, e);
      EntryPoked(words, pd, va, e);
      words := words[K(s.pt) := words[K(s.pt)][K(s.index) := e]];
    }

    method ReadEntry(pd: bv32, va: bv32, s: Slot) returns (e: bv32)
      requires Valid() && PdOk(words, pd) && Lookable(words, pd, va) && s.Slot? && s == Find(words, pd, va)
      ensures e == EntryFor(words, pd, va) && InRangeIfPresent(e)
    {
      FindOk(words, pd, va);
      e := words[K(s.pt)][K(s.index)];
    }

    method GetPageFor(pd: bv32, uaddr: bv32) returns (r: bv32)
      requires Valid() && PdOk(words, pd) && UserAddr(uaddr)
      modifies this`words, this`free
      ensures words == old(words) && free == old(free) && Valid()
      ensures var u := K(RoundDown(uaddr));
              r == if u in View(words, pd) then View(words, pd)[u].frame | PgOfs(uaddr) else 0
    {
      hide PdOk, View, RoundDown, PgOfs, PageAt, InRange, HasTable, TableOf, Lookable;
      UserLookable(words, pd, uaddr);
      var s := LookupPage(pd, uaddr, false);
      ViewAt(words, pd, uaddr);
      if s.Slot? {
        var pte := ReadEntry(pd, uaddr, s);
        if Present(pte) {
          OffsetFits(pte, uaddr);
          return PageAt(pte) + PgOfs(uaddr);
        }
      }
      r := 0;
    }

    method ClearPage(pd: bv32, upage: bv32)
      requires Valid() && PdOk(words, pd) && UserPage(upage)
      modifies this`words, this`free
      ensures Valid() && free == old(free) && PdOk(words, pd)
      ensures OthersSame(old(words), words, pd)
      ensures View(words, pd) == old(View(words, pd)) - {K(upage)}
      ensures Mmu.Closed(old(words), words, pd, upage)
      ensures Dirty(EntryFor(words, pd, upage)) == old(Dirty(EntryFor(words, pd, upage)))
      ensures Accessed(EntryFor(words, pd, upage)) == old(Accessed(EntryFor(words, pd, upage)))
    {
      hide PdOk, View, OneEntry, IsTable, OthersSame, Mmu.Closed;
      var s := LookupPage(pd, upage, false);
      LookupAlone(old(words), words, pd, s);
      ghost var w := words;
      if s.Slot? {
        var pte := ReadEntry(pd, upage, s);
        if Present(pte) {
          PresentCleared(pte);
          WriteEntry(pd, upage, s, pte & 0xffff_fffe);
          OnlyItsTables(old(words), w, words, pd, upage, s);
          PageUnmapped(w, words, pd, upage, pte & 0xffff_fffe);
          Mmu.PageClosed(w, words, pd, upage);
          return;
        }
      }
      NotMapped(words, pd, upage);
      Mmu.PageClosed(words, words, pd, upage);
    }

    method IsDirty(pd: bv32, vpage: bv32) returns (dirty: bool)
      requires Valid() && PdOk(words, pd) && Lookable(words, pd, vpage)
      modifies this`words, this`free
      ensures words == old(words) && free == old(free) && dirty == Dirty(EntryFor(words, pd, vpage))
    {
      hide PdOk;
      var s := LookupPage(pd, vpage, false);
      dirty := false;
      if s.Slot? {
        var pte := ReadEntry(pd, vpage, s);
        dirty := Dirty(pte);
      }
    }

    // A store that changes flags of an entry only.
    method ReplaceFlags(pd: bv32, vpage: bv32, s: Slot, e: bv32)
      requires Valid() && PdOk(words, pd) && Lookable(words, pd, vpage) && s.Slot? && s == Find(words, pd, vpage)
      requires SameMapping(EntryFor(words, pd, vpage), e) && InRangeIfPresent(EntryFor(words, pd, vpage))
      modifies this`words
      ensures Valid() && PdOk(words, pd) && View(words, pd) == old(View(words, pd)) && EntryFor(words, pd, vpage) == e
      ensures words.Keys == old(words).Keys && forall k :: k in words && k != K(s.pt) ==> words[k] == old(words)[k]
    {
      FlagsMayBeStored(words, pd, vpage, e);
      hide PdOk, View, OneEntry, Present, InRange, Writable, PageAt, MayStore, User;
      ghost var w := words;
      WriteEntry(pd, vpage, s, e);
      FlagChanged(w, words, pd, vpage, e);
    }

    method SetDirty(pd: bv32, vpage: bv32, dirty: bool)
      requires Valid() && PdOk(words, pd) && Lookable(words, pd, vpage)
      modifies this`words, this`free
      ensures Valid() && free == old(free) && PdOk(words, pd) && View(words, pd) == old(View(words, pd))
      ensures OnlyThatTable(old(words), words, old(Find(words, pd, vpage)))
      ensures old(Find(words, pd, vpage)).Slot? ==> Dirty(EntryFor(words, pd, vpage)) == dirty
      ensures Accessed(EntryFor(words, pd, vpage)) == old(Accessed(EntryFor(words, pd, vpage)))
    {
      hide PdOk, View, Dirty, Accessed, SameMapping, WithDirty, Lookable, Entry, HasTable, TableOf;
      var s := LookupPage(pd, vpage, false);
      if s.Slot? {
        var pte := ReadEntry(pd, vpage, s);
        DirtyChanged(pte, dirty);
        ReplaceFlags(pd, vpage, s, WithDirty(pte, dirty));
      }
    }

    method IsAccessed(pd: bv32, vpage: bv32) returns (accessed: bool)
      requires Valid() && PdOk(words, pd) && Lookable(words, pd, vpage)
      modifies this`words, this`free
      ensures words == old(words) && free == old(free) && accessed == Accessed(EntryFor(words, pd, vpage))
    {
      hide PdOk;
      var s := LookupPage(pd, vpage, false);
      accessed := false;
      if s.Slot? {
        var pte := ReadEntry(pd, vpage, s);
        accessed := Accessed(pte);
      }
    }

    method SetAccessed(pd: bv32, vpage: bv32, accessed: bool)
      requires Valid() && PdOk(words, pd) && Lookable(words, pd, vpage)
      modifies this`words, this`free
      ensures Valid() && free == old(free) && PdOk(words, pd) && View(words, pd) == old(View(words, pd))
      ensures OnlyThatTable(old(words), words, old(Find(words, pd, vpage)))
      ensures old(Find(words, pd, vpage)).Slot? ==> Accessed(EntryFor(words, pd, vpage)) == accessed
      ensures Dirty(EntryFor(words, pd, vpage)) == old(Dirty(EntryFor(words, pd, vpage)))
    {
      hide PdOk, View, Dirty, Accessed, SameMapping, WithAccessed, Lookable, Entry, HasTable, TableOf;
      var s := LookupPage(pd, vpage, false);
      if s.Slot? {
        var pte := ReadEntry(pd, vpage, s);
        AccessedChanged(pte, accessed);
        ReplaceFlags(pd, vpage, s, WithAccessed(pte, accessed));
      }
    }

    // pagedir_destroy.
    method Destroy(pd: bv32)
      requires Valid() && (pd != 0 ==> PdOk(words, pd) && FramesOutside(words, pd))
      modifies this`words, this`free, this`released
      ensures Valid() && Freed(old(free), old(released), free, released)
      ensures pd == 0 ==> released == old(released) && words == old(words)
      ensures pd != 0 ==> released == old(released) + Releases(old(words), pd, 768) + [K(pd)]
      ensures pd != 0 ==> words == Rest(old(words), pd)
    {
      hide PdOk, FramesOutside, Releases, TablesBelow, Valid, Freed, Rest;
      NothingFreed(free, released);
      if pd != 0 {
        RestIs(words, pd);
        DestroyDirectory(pd);
      }
    }

    method DestroyDirectory(pd: bv32)
      requires Valid() && PdOk(words, pd) && FramesOutside(words, pd)
      modifies this`words, this`free, this`released
      ensures Valid() && Freed(old(free), old(released), free, released)
      ensures released == old(released) + Releases(old(words), pd, 768) + [K(pd)]
      ensures words == old(words) - TablesBelow(old(words), pd, 768) - {K(pd)}
    {
      hide *;
      ghost var w := words;
      var i: bv32 := 0;
      NothingYet(w, pd);
      StartDestroy(pd);
      while i < 768
        invariant i <= 768 && Destroyed(w, pd, i, old(free), old(released))
        decreases 768 - i
      {
        DestroyEntry(w, pd, i, old(free), old(released));
        NextIndex(i);
        i := i + 1;
      }
      FinishDestroy(w, pd, old(free), old(released));
      FreePage(pd);
    }

    // The first i directory entries are dealt with.
    ghost predicate Destroyed(w: Words, pd: bv32, i: bv32, free0: set<Key>, released0: seq<Key>)
      reads this
    {
      && Valid() && words == w - TablesBelow(w, pd, i)
      && Freed(free0, released0, free, released) && released == released0 + Releases(w, pd, i)
    }

    lemma StartDestroy(pd: bv32)
      requires Valid()
      ensures Destroyed(words, pd, 0, free, released)
    {
    }

    lemma FinishDestroy(w: Words, pd: bv32, free0: set<Key>, released0: seq<Key>)
      requires Destroyed(w, pd, 768, free0, released0)
      ensures Valid() && words == w - TablesBelow(w, pd, 768) && released == released0 + Releases(w, pd, 768)
      ensures Freed(free0, released0, free + {K(pd)}, released + [K(pd)])
    {
      hide Valid, TablesBelow, Releases, Freed;
      FreedMore(free0, released0, free, released, K(pd));
    }

    // One directory entry.
    method DestroyEntry(ghost w: Words, pd: bv32, i: bv32, ghost free0: set<Key>, ghost released0: seq<Key>)
      requires PdOk(w, pd) && FramesOutside(w, pd) && i < 768 && Destroyed(w, pd, i, free0, released0)
      modifies this`words, this`free, this`released
      ensures Destroyed(w, pd, i + 1, free0, released0)
    {
      hide PdOk, FramesOutside, TableReleases, Releases, TablesBelow, PageAt, Freed;
      Regroup(released0, Releases(w, pd, i), EntryReleases(w, pd, i));
      TablesElsewhere(w, pd, i);
      OneMoreEntry(w, pd, i);
      var pde := words[K(pd)][K(i)];
      if Present(pde) {
        FreeTable(w, pd, i, PageAt(pde));
        FreedTwice(free0, released0, old(free), old(released), free, released);
        assert released == old(released) + (TableReleases(w, PageAt(pde), 1024) + [K(PageAt(pde))]);
      } else {
        assert released == old(released) + [];
      }
    }

    // The inner loop, then the table itself.
    method FreeTable(ghost w: Words, ghost pd: bv32, ghost i: bv32, pt: bv32)
      requires Valid() && PdOk(w, pd) && FramesOutside(w, pd) && i < 768
      requires HasTable(w, pd, i) && TableOf(w, pd, i) == pt && K(pt) in words && K(pt) in w && words[K(pt)] == w[K(pt)]
      requires forall k :: k in words ==> k in w
      modifies this`words, this`free, this`released
      ensures Valid() && released == old(released) + TableReleases(w, pt, 1024) + [K(pt)]
      ensures Freed(old(free), old(released), free, released)
      ensures words == old(words) - {K(pt)}
    {
      hide PdOk, FramesOutside, TableReleases, Freeing, Freed, Valid, HasTable, TableOf;
      StartFreeing(w, pd, i);
      var k: bv32 := 0;
      while k < 1024
        invariant k <= 1024 && words == old(words) && Freeing(w, pt, k, old(free), old(released), old(words))
        decreases 1024 - k
      {
        NextIndex(k);
        FreeFrame(w, pd, i, pt, k, old(free), old(released), old(words));
        k := k + 1;
      }
      FinishFreeing(w, pt, old(free), old(released), old(words));
      TableAt(w, pd, i);
      FreePage(pt);
    }

    // The frames of the first k entries of the table are free.
    ghost predicate Freeing(w: Words, pt: bv32, k: bv32, free0: set<Key>, released0: seq<Key>, words0: Words)
      reads this
    {
      && Valid() && words == words0 && Freed(free0, released0, free, released)
      && released == released0 + TableReleases(w, pt, k)
    }

    lemma StartFreeing(w: Words, pd: bv32, i: bv32)
      requires Valid() && HasTable(w, pd, i)
      ensures Freeing(w, TableOf(w, pd, i), 0, free, released, words)
    {
    }

    lemma FinishFreeing(w: Words, pt: bv32, free0: set<Key>, released0: seq<Key>, words0: Words)
      requires Freeing(w, pt, 1024, free0, released0, words0)
      ensures Valid() && words == words0 && released == released0 + TableReleases(w, pt, 1024)
      ensures Freed(free0, released0, free + {K(pt)}, released + [K(pt)])
    {
      hide TableReleases, Freed, Valid;
      FreedMore(free0, released0, free, released, K(pt));
    }

    method FreeFrame(ghost w: Words, ghost pd: bv32, ghost i: bv32, pt: bv32, k: bv32,
                     ghost free0: set<Key>, ghost released0: seq<Key>, ghost words0: Words)
      requires PdOk(w, pd) && FramesOutside(w, pd) && i < 768 && k < 1024
      requires HasTable(w, pd, i) && TableOf(w, pd, i) == pt && K(pt) in words && K(pt) in w && words[K(pt)] == w[K(pt)]
      requires forall k :: k in words ==> k in w
      requires Freeing(w, pt, k, free0, released0, words0)
      modifies this`words, this`free, this`released
      ensures Freeing(w, pt, k + 1, free0, released0, words0) && words == old(words)
    {
      hide PdOk, FramesOutside, TableReleases, Present, PageAt, InRange, Valid, Freed, KernelPage, HasTable, TableOf;
      OneMoreFrame(w, pd, i, k);
      var pte := words[K(pt)][K(k)];
      if Present(pte) {
        FreedMore(free0, released0, free, released, K(PageAt(pte)));
        FreePage(PageAt(pte));
        Regroup(released0, TableReleases(w, pt, k), [K(PageAt(pte))]);
        assert words == words0;
      } else {
        assert TableReleases(w, pt, k) + [] == TableReleases(w, pt, k);
      }
    }
  }

  // The tables of the first n directory entries.
  ghost function TablesBelow(words: Words, pd: bv32, n: bv32): set<Key> {
    if n == 0 || n > 768 then {}
    else TablesBelow(words, pd, n - 1) + if HasTable(words, pd, n - 1) then {K(TableOf(words, pd, n - 1))} else {}
  }

  ghost predicate ServesAs(words: Words, pd: bv32, i: bv32, k: Key) {
    HasTable(words, pd, i) && k == K(TableOf(words, pd, i))
  }

  ghost predicate ServedBelow(words: Words, pd: bv32, n: bv32, k: Key) {
    exists i: bv32 :: i < n && ServesAs(words, pd, i, k)
  }

  lemma {:induction false} BelowAreTables(words: Words, pd: bv32, n: bv32, k: Key)
    requires n <= 768
    ensures k in TablesBelow(words, pd, n) <==> ServedBelow(words, pd, n, k)
    decreases n
  {
    if n > 0 {
      LastIndex(n);
      BelowAreTables(words, pd, n - 1, k);
      TablesNext(words, pd, n, k);
      ServedNext(words, pd, n, k);
    } else {
      NoneBelow(words, pd, k);
    }
  }

  lemma NoneBelow(words: Words, pd: bv32, k: Key)
    ensures !ServedBelow(words, pd, 0, k)
  {
    hide ServesAs;
  }

  lemma TablesNext(words: Words, pd: bv32, n: bv32, k: Key)
    requires 0 < n <= 768
    ensures k in TablesBelow(words, pd, n) <==> k in TablesBelow(words, pd, n - 1) || ServesAs(words, pd, n - 1, k)
  {
    hide HasTable, TableOf;
  }

  lemma ServedNext(words: Words, pd: bv32, n: bv32, k: Key)
    requires 0 < n <= 768
    ensures ServedBelow(words, pd, n, k) <==> ServedBelow(words, pd, n - 1, k) || ServesAs(words, pd, n - 1, k)
  {
    hide ServesAs;
    LastIndex(n);
    if ServedBelow(words, pd, n, k) {
      var i: bv32 :| i < n && ServesAs(words, pd, i, k);
      BelowLast(n, i);
    }
    if ServedBelow(words, pd, n - 1, k) { ServedMore(words, pd, n, k); }
  }

  lemma ServedMore(words: Words, pd: bv32, n: bv32, k: Key)
    requires 0 < n <= 768 && ServedBelow(words, pd, n - 1, k)
    ensures ServedBelow(words, pd, n, k)
  {
    hide ServesAs;
    var i: bv32 :| i < n - 1 && ServesAs(words, pd, i, k);
    BelowLast(n, i);
  }

  lemma ServedIsTable(words: Words, pd: bv32, k: Key)
    ensures ServedBelow(words, pd, 768, k) <==> IsTable(words, pd, k)
  {
    hide HasTable, TableOf;
    if i: bv32 :| i < 768 && ServesAs(words, pd, i, k) {
      assert HasTable(words, pd, i) && k == K(TableOf(words, pd, i));
    }
    if i: bv32 :| i < 768 && HasTable(words, pd, i) && k == K(TableOf(words, pd, i)) {
      assert ServesAs(words, pd, i, k);
    }
  }

  lemma RestIs(words: Words, pd: bv32)
    ensures words - TablesBelow(words, pd, 768) - {K(pd)} == Rest(words, pd)
  {
    hide TablesBelow, ServedBelow, IsTable;
    forall k
      ensures k in TablesBelow(words, pd, 768) <==> IsTable(words, pd, k)
    {
      BelowAreTables(words, pd, 768, k);
      ServedIsTable(words, pd, k);
    }
  }

  // No frame that is mapped holds a page table.
  ghost predicate FramesOutside(words: Words, pd: bv32) {
    forall k :: k in View(words, pd) ==> K(View(words, pd)[k].frame) !in words
  }

  function AddressOf(i: bv32, k: bv32): bv32 {
    (i << 22) | (k << 12)
  }

  lemma AddressOfParts(i: bv32, k: bv32)
    requires i < 768 && k < 1024
    ensures UserPage(AddressOf(i, k)) && PdNo(AddressOf(i, k)) == i && PtNo(AddressOf(i, k)) == k
  {
  }

  lemma NothingYet(words: Words, pd: bv32)
    requires PdOk(words, pd)
    ensures KernelPage(pd)
    ensures Releases(words, pd, 0) == [] && TablesBelow(words, pd, 0) == {}
  {
  }

  lemma OneMoreEntry(words: Words, pd: bv32, i: bv32)
    requires PdOk(words, pd) && i < 768
    ensures Releases(words, pd, i + 1) == Releases(words, pd, i) + EntryReleases(words, pd, i)
    ensures TablesBelow(words, pd, i + 1) ==
            TablesBelow(words, pd, i) + if HasTable(words, pd, i) then {K(TableOf(words, pd, i))} else {}
  {
    hide EntryReleases, PageAt, InRange, PdOk;
    NextIndex(i);
  }

  lemma Regroup(a: seq<Key>, b: seq<Key>, c: seq<Key>)
    ensures (a + b) + c == a + (b + c)
  {
  }

  lemma NextIndex(i: bv32)
    requires i < 1024
    ensures i + 1 - 1 == i && i + 1 != 0 && i < i + 1 <= 1024 && (i < 768 ==> i + 1 <= 768)
  {
  }

  lemma TableAt(words: Words, pd: bv32, i: bv32)
    requires PdOk(words, pd) && i < 768 && HasTable(words, pd, i)
    ensures TableOk(words, TableOf(words, pd, i)) && KernelPage(TableOf(words, pd, i)) && TableOf(words, pd, i) != pd
    ensures forall k: bv32 :: k < 1024 ==> K(k) in words[K(TableOf(words, pd, i))]
  {
    assert PdeOk(words, pd, i);
  }

  // Neither the directory nor table i is among the tables before i.
  lemma {:induction false} NotBelow(words: Words, pd: bv32, n: bv32, i: bv32)
    requires PdOk(words, pd) && n <= i <= 768
    ensures K(pd) !in TablesBelow(words, pd, n)
    ensures i < 768 && HasTable(words, pd, i) ==> K(TableOf(words, pd, i)) !in TablesBelow(words, pd, n)
    decreases n
  {
    if n != 0 {
      hide PdOk, TablesBelow, HasTable, TableOf;
      var m := n - 1;
      IndexBefore(n, i);
      EntriesApart(words, pd, m, i);
      TablesStep(words, pd, n, m);
      NotBelow(words, pd, m, i);
    }
  }

  lemma EntriesApart(words: Words, pd: bv32, m: bv32, i: bv32)
    requires PdOk(words, pd) && m < 768 && m != i
    ensures HasTable(words, pd, m) ==> TableOf(words, pd, m) != pd
    ensures i < 768 && HasTable(words, pd, i) && HasTable(words, pd, m) ==> TableOf(words, pd, i) != TableOf(words, pd, m)
  {
    hide PageAt, InRange, Present;
    assert PdeOk(words, pd, m);
  }

  lemma IndexBefore(n: bv32, i: bv32)
    requires n != 0 && n <= i <= 768
    ensures n - 1 < n && n - 1 < i && n - 1 <= i && n - 1 < 768
  {
  }

  lemma TablesStep(words: Words, pd: bv32, n: bv32, m: bv32)
    requires n != 0 && n <= 768 && m == n - 1
    ensures TablesBelow(words, pd, n) ==
            TablesBelow(words, pd, m) + if HasTable(words, pd, m) then {K(TableOf(words, pd, m))} else {}
  {
    hide HasTable, TableOf;
  }

  lemma TablesElsewhere(words: Words, pd: bv32, i: bv32)
    requires PdOk(words, pd) && i < 768
    ensures var words' := words - TablesBelow(words, pd, i);
            && K(pd) in words' && K(i) in words'[K(pd)] && words'[K(pd)] == words[K(pd)]
            && (HasTable(words, pd, i) <==> Present(words[K(pd)][K(i)]))
            && (HasTable(words, pd, i) ==>
                  K(TableOf(words, pd, i)) in words' && words'[K(TableOf(words, pd, i))] == words[K(TableOf(words, pd, i))])
  {
    hide PageAt;
    NotBelow(words, pd, i, i);
    assert PdeOk(words, pd, i);
  }

  lemma OneMoreFrame(words: Words, pd: bv32, i: bv32, k: bv32)
    requires PdOk(words, pd) && FramesOutside(words, pd) && i < 768 && HasTable(words, pd, i) && k < 1024
    ensures var pt := TableOf(words, pd, i);
            && K(pt) in words && K(k) in words[K(pt)]
            && var e := words[K(pt)][K(k)];
            && TableReleases(words, pt, k + 1) == TableReleases(words, pt, k) + (if Present(e) then [K(PageAt(e))] else [])
            && (Present(e) ==> KernelPage(PageAt(e)) && K(PageAt(e)) !in words)
  {
    TableAt(words, pd, i);
    var e := words[K(TableOf(words, pd, i))][K(k)];
    FrameInRange(e);
    AddressOfParts(i, k);
    ViewKey(words, pd, K(AddressOf(i, k)));
    hide PageAt, Present, InRange, KernelPage, View, AddressOf, PdNo, PtNo, UserPage;
  }

  lemma FrameInRange(e: bv32)
    ensures InRange(e) ==> KernelPage(PageAt(e))
  {
  }

  // Memory outside the directory and its tables stays as it is.
  ghost predicate OthersSame(words: Words, words': Words, pd: bv32) {
    forall k :: k in words && k != K(pd) && !IsTable(words, pd, k) ==> k in words' && words'[k] == words[k]
  }

  lemma UserLookable(words: Words, pd: bv32, va: bv32)
    requires UserAddr(va)
    ensures Lookable(words, pd, va)
  {
  }

  // Of the memory there was, only the table of one entry may be different.
  ghost predicate OnlyThatTable(words: Words, words': Words, s: Slot) {
    words'.Keys == words.Keys && forall k :: k in words && (s.Slot? ==> k != K(s.pt)) ==> words'[k] == words[k]
  }

  lemma LookupAlone(words: Words, words': Words, pd: bv32, s: Slot)
    requires forall k :: k in words && k != K(pd) ==> k in words' && words'[k] == words[k]
    ensures OthersSame(words, words', pd)
  {
    hide IsTable;
  }

  lemma OnlyItsTables(words: Words, mid: Words, words': Words, pd: bv32, va: bv32, s: Slot)
    requires OthersSame(words, mid, pd) && UserAddr(va) && s.Slot? && s == Find(mid, pd, va)
    requires K(s.pt) in words ==> mid == words
    requires words'.Keys == mid.Keys && forall k :: k in mid && k != K(s.pt) ==> words'[k] == mid[k]
    ensures OthersSame(words, words', pd)
  {
    UserHalf(va);
    hide PageAt, PdNo, PtNo;
    if K(s.pt) in words {
      assert HasTable(words, pd, PdNo(va));
      assert IsTable(words, pd, K(s.pt));
    }
    hide IsTable;
  }

  lemma ViewKept(words: Words, words': Words, pd: bv32)
    requires ViewSame(words, words', pd)
    ensures View(words', pd) == View(words, pd)
  {
    hide EntryFor, Present, PgOfs, MappingOf;
  }

  // A user page, rounded down, is itself.
  lemma PageItself(u: bv32)
    requires PgOfs(u) == 0
    ensures RoundDown(u) == u
  {
  }

  // The same, one user page at a time.
  lemma ByPage(words: Words, words': Words, pd: bv32, upage: bv32, e: bv32)
    requires UserPage(upage) && OneEntry(words, words', pd, upage, e)
    ensures forall k: Key :: UserPage(k.bits) ==>
              EntryFor(words', pd, k.bits) == if k == K(upage) then e else EntryFor(words, pd, k.bits)
  {
    hide EntryFor, PgOfs;
    PageItself(upage);
    forall k: Key | UserPage(k.bits)
      ensures EntryFor(words', pd, k.bits) == if k == K(upage) then e else EntryFor(words, pd, k.bits)
    {
      PageItself(k.bits);
    }
  }

  lemma PageMapped(words: Words, words': Words, pd: bv32, upage: bv32, kpage: bv32, writable: bool)
    requires UserPage(upage) && KernelPage(kpage)
    requires OneEntry(words, words', pd, upage, PteCreateUser(kpage, writable))
    ensures View(words', pd) == View(words, pd)[K(upage) := Mapping(kpage, writable)]
  {
    hide OneEntry, RoundDown, EntryFor;
    EntryRoundTrip(kpage, writable);
    var e := PteCreateUser(kpage, writable);
    assert MappingOf(e) == Mapping(kpage, writable);
    ByPage(words, words', pd, upage, e);
    hide View, PteCreateUser, Present, MappingOf, KernelPage, UserPage;
    forall k: Key
      ensures k in View(words', pd) <==> k in View(words, pd) || k == K(upage)
      ensures k in View(words', pd) ==>
                View(words', pd)[k] == if k == K(upage) then Mapping(kpage, writable) else View(words, pd)[k]
    {
      ViewKey(words, pd, k);
      ViewKey(words', pd, k);
    }
  }

  lemma ViewKey(words: Words, pd: bv32, k: Key)
    ensures k in View(words, pd) <==> UserPage(k.bits) && Present(EntryFor(words, pd, k.bits))
    ensures k in View(words, pd) ==> View(words, pd)[k] == MappingOf(EntryFor(words, pd, k.bits))
  {
    hide UserPage, Present, EntryFor, MappingOf;
  }

  lemma PageUnmapped(words: Words, words': Words, pd: bv32, upage: bv32, e: bv32)
    requires UserPage(upage) && !Present(e) && OneEntry(words, words', pd, upage, e)
    ensures View(words', pd) == View(words, pd) - {K(upage)}
    ensures EntryFor(words', pd, upage) == e
  {
    hide OneEntry, RoundDown, EntryFor;
    ByPage(words, words', pd, upage, e);
    hide Present, MappingOf, UserAddr, PgOfs;
    assert K(upage).bits == upage;
  }

  lemma NotMapped(words: Words, pd: bv32, upage: bv32)
    requires !Present(EntryFor(words, pd, upage))
    ensures View(words, pd) == View(words, pd) - {K(upage)}
  {
    hide Present, EntryFor, MappingOf;
  }

  // What keeps the user bit of an entry may be stored over it.
  lemma FlagsMayBeStored(words: Words, pd: bv32, va: bv32, e: bv32)
    requires PdOk(words, pd) && Lookable(words, pd, va) && Find(words, pd, va).Slot?
    requires SameMapping(EntryFor(words, pd, va), e)
    ensures MayStore(words, pd, Find(words, pd, va), e)
  {
    hide PageAt, InRange, Writable, Present, User, KernelPage, PdesApart;
    UserHalf(va);
    AddressParts(va);
    hide PdNo, PtNo;
    if UserAddr(va) {
      assert PdeOk(words, pd, PdNo(va)) && PdeOpen(words, pd, PdNo(va));
    }
  }

  lemma FlagChanged(words: Words, words': Words, pd: bv32, va: bv32, e: bv32)
    requires OneEntry(words, words', pd, va, e) && SameMapping(EntryFor(words, pd, va), e)
    ensures View(words', pd) == View(words, pd)
  {
    hide Present, Writable, PageAt, InRange, RoundDown, Entry;
    forall k: Key | UserPage(k.bits)
      ensures SameMapping(EntryFor(words, pd, k.bits), EntryFor(words', pd, k.bits))
    {
      if RoundDown(k.bits) == RoundDown(va) {
        SamePage(k.bits, va);
        assert Find(words, pd, k.bits) == Find(words, pd, va);
      }
    }
    hide EntryFor;
  }

  lemma OffsetFits(pte: bv32, va: bv32)
    requires InRange(pte)
    ensures PageAt(pte) + PgOfs(va) == PageAt(pte) | PgOfs(va)
  {
  }

  lemma EmptyDirectory(words: Words, pd: bv32)
    requires K(pd) in words && KernelPage(pd) && forall i: bv32 :: i < 768 ==> K(i) in words[K(pd)] && words[K(pd)][K(i)] == 0
    ensures PdOk(words, pd) && View(words, pd) == imap[]
  {
    hide PageAt;
    forall va: bv32 | UserAddr(va)
      ensures EntryFor(words, pd, va) == 0
    {
      UserHalf(va);
    }
  }

  // ---- Everything is given back exactly once. ----

  // Entry k of table i maps the frame p.
  ghost predicate Maps(words: Words, pd: bv32, i: bv32, k: bv32, p: Key) {
    HasTable(words, pd, i) && var e := Entry(words, Slot(TableOf(words, pd, i), k)); Present(e) && K(PageAt(e)) == p
  }

  ghost predicate FramesApart(words: Words, pd: bv32) {
    forall j, k :: j in View(words, pd) && k in View(words, pd) && j != k ==>
      View(words, pd)[j].frame != View(words, pd)[k].frame
  }

  ghost predicate Distinct(s: seq<Key>) {
    forall i, j :: 0 <= i < j < |s| ==> s[i] != s[j]
  }

  lemma MapsInView(words: Words, pd: bv32, i: bv32, k: bv32, p: Key)
    requires i < 768 && k < 1024
    ensures Maps(words, pd, i, k, p) <==>
              K(AddressOf(i, k)) in View(words, pd) && K(View(words, pd)[K(AddressOf(i, k))].frame) == p
  {
    AddressOfParts(i, k);
    ViewKey(words, pd, K(AddressOf(i, k)));
    hide PageAt, Present, View, AddressOf, PdNo, PtNo, UserPage, Entry;
  }

  // A mapped frame belongs to one entry only, and is no table.
  lemma MapsOnce(words: Words, pd: bv32, i: bv32, k: bv32, i': bv32, k': bv32, p: Key)
    requires FramesApart(words, pd) && i < 768 && k < 1024 && i' < 768 && k' < 1024
    requires Maps(words, pd, i, k, p) && Maps(words, pd, i', k', p)
    ensures i == i' && k == k'
  {
    hide Maps, View, AddressOf, PdNo, PtNo, UserPage;
    MapsInView(words, pd, i, k, p);
    MapsInView(words, pd, i', k', p);
    AddressOfParts(i, k);
    AddressOfParts(i', k');
  }

  lemma MapsNoTable(words: Words, pd: bv32, i: bv32, k: bv32, p: Key)
    requires FramesOutside(words, pd) && i < 768 && k < 1024 && Maps(words, pd, i, k, p)
    ensures p !in words
  {
    hide Maps, View, AddressOf;
    MapsInView(words, pd, i, k, p);
  }

  // r has each frame that the first n entries of table i map, once.
  ghost predicate FramesOf(words: Words, pd: bv32, i: bv32, n: bv32, r: seq<Key>) {
    && Distinct(r)
    && (forall p :: p in r ==> MappedBelow(words, pd, i, n, p))
    && (forall k: bv32, p :: k < n && Maps(words, pd, i, k, p) ==> p in r)
  }

  ghost predicate MappedBelow(words: Words, pd: bv32, i: bv32, n: bv32, p: Key) {
    exists k: bv32 :: k < n && Maps(words, pd, i, k, p)
  }

  lemma {:induction false} TableReleasesOnce(words: Words, pd: bv32, i: bv32, n: bv32)
    requires FramesApart(words, pd) && i < 768 && HasTable(words, pd, i) && n <= 1024
    ensures FramesOf(words, pd, i, n, TableReleases(words, TableOf(words, pd, i), n))
    decreases n
  {
    hide FramesApart, PageAt, Present, HasTable, TableOf, Maps;
    if n != 0 {
      hide FramesOf, Entry;
      var m := n - 1;
      LastIndex(n);
      TableReleasesOnce(words, pd, i, m);
      var pt := TableOf(words, pd, i);
      var e := Entry(words, Slot(pt, m));
      MapsIs(words, pd, i, m);
      if Present(e) {
        OneMoreMapped(words, pd, i, m, n, TableReleases(words, pt, m), K(PageAt(e)));
      } else {
        assert TableReleases(words, pt, m) + [] == TableReleases(words, pt, m);
        NoMoreMapped(words, pd, i, m, n, TableReleases(words, pt, m));
      }
    }
  }

  lemma OneMoreMapped(words: Words, pd: bv32, i: bv32, m: bv32, n: bv32, r: seq<Key>, x: Key)
    requires FramesApart(words, pd) && i < 768 && HasTable(words, pd, i) && n != 0 && n <= 1024 && m == n - 1
    requires FramesOf(words, pd, i, m, r) && forall p :: Maps(words, pd, i, m, p) <==> p == x
    ensures FramesOf(words, pd, i, n, r + [x])
  {
    hide FramesApart, Maps, HasTable, Distinct, MappedBelow;
    LastIndex(n);
    if x in r {
      MappedTwice(words, pd, i, m, x);
    }
    PushedDistinct(r, x);
    forall p | p in r + [x]
      ensures MappedBelow(words, pd, i, n, p)
    {
      if p in r { StillMapped(words, pd, i, m, n, p); } else { MappedLast(words, pd, i, m, n, p); }
    }
    forall k: bv32, p | k < n && Maps(words, pd, i, k, p)
      ensures p in r + [x]
    {
      BelowLast(n, k);
    }
  }

  lemma MappedTwice(words: Words, pd: bv32, i: bv32, m: bv32, x: Key)
    requires FramesApart(words, pd) && i < 768 && m < 1024 && Maps(words, pd, i, m, x)
    ensures !MappedBelow(words, pd, i, m, x)
  {
    hide FramesApart, Maps;
    forall k: bv32 | k < m && Maps(words, pd, i, k, x)
      ensures false
    {
      MapsOnce(words, pd, i, k, i, m, x);
    }
  }

  lemma StillMapped(words: Words, pd: bv32, i: bv32, m: bv32, n: bv32, p: Key)
    requires n != 0 && n <= 1024 && m == n - 1 && MappedBelow(words, pd, i, m, p)
    ensures MappedBelow(words, pd, i, n, p)
  {
    hide Maps;
    var k: bv32 :| k < m && Maps(words, pd, i, k, p);
    BelowLast(n, k);
  }

  lemma MappedLast(words: Words, pd: bv32, i: bv32, m: bv32, n: bv32, p: Key)
    requires n != 0 && n <= 1024 && m == n - 1 && Maps(words, pd, i, m, p)
    ensures MappedBelow(words, pd, i, n, p)
  {
    hide Maps;
    LastIndex(n);
  }

  lemma NoMoreMapped(words: Words, pd: bv32, i: bv32, m: bv32, n: bv32, r: seq<Key>)
    requires n != 0 && n <= 1024 && m == n - 1
    requires FramesOf(words, pd, i, m, r) && forall p :: !Maps(words, pd, i, m, p)
    ensures FramesOf(words, pd, i, n, r)
  {
    hide Maps, Distinct, MappedBelow;
    forall p | p in r
      ensures MappedBelow(words, pd, i, n, p)
    {
      StillMapped(words, pd, i, m, n, p);
    }
    forall k: bv32, p | k < n && Maps(words, pd, i, k, p)
      ensures p in r
    {
      BelowLast(n, k);
    }
  }

  lemma PushedDistinct(r: seq<Key>, x: Key)
    requires Distinct(r) && x !in r
    ensures Distinct(r + [x]) && forall p :: p in r + [x] <==> p in r || p == x
  {
  }

  lemma MapsIs(words: Words, pd: bv32, i: bv32, k: bv32)
    requires HasTable(words, pd, i)
    ensures var e := Entry(words, Slot(TableOf(words, pd, i), k));
            forall p :: Maps(words, pd, i, k, p) <==> Present(e) && p == K(PageAt(e))
  {
  }

  lemma LastIndex(n: bv32)
    requires n != 0 && n <= 1024
    ensures n - 1 < n && n - 1 < 1024 && n - 1 <= 1024
  {
  }

  lemma BelowLast(n: bv32, k: bv32)
    requires n != 0 && n <= 1024
    ensures k < n <==> k < n - 1 || k == n - 1
    ensures k < n ==> k < 1024
  {
  }

  // The same for all that the first n directory entries own.
  ghost predicate PagesOf(words: Words, pd: bv32, n: bv32, r: seq<Key>) {
    && Distinct(r)
    && (forall p :: p in r ==> OwnedBelow(words, pd, n, p))
    && (forall i: bv32, p :: i < n && Owns(words, pd, i, p) ==> p in r)
  }

  // Entry i has the table p or maps the frame p.
  ghost predicate Owns(words: Words, pd: bv32, i: bv32, p: Key) {
    HasTable(words, pd, i) && (p == K(TableOf(words, pd, i)) || MappedBelow(words, pd, i, 1024, p))
  }

  ghost predicate OwnedBelow(words: Words, pd: bv32, n: bv32, p: Key) {
    exists i: bv32 :: i < n && Owns(words, pd, i, p)
  }

  lemma OwnsOnce(words: Words, pd: bv32, i: bv32, j: bv32, p: Key)
    requires PdOk(words, pd) && FramesApart(words, pd) && FramesOutside(words, pd) && i < 768 && j < 768
    requires Owns(words, pd, i, p) && Owns(words, pd, j, p)
    ensures i == j && p != K(pd)
  {
    hide PdOk, FramesApart, FramesOutside, HasTable, TableOf, Maps;
    EntriesApart(words, pd, i, if i != j then j else i + 1);
    TableInWords(words, pd, i);
    TableInWords(words, pd, j);
    if MappedBelow(words, pd, i, 1024, p) {
      var k: bv32 :| k < 1024 && Maps(words, pd, i, k, p);
      MapsNoTable(words, pd, i, k, p);
      if MappedBelow(words, pd, j, 1024, p) {
        var k': bv32 :| k' < 1024 && Maps(words, pd, j, k', p);
        MapsOnce(words, pd, i, k, j, k', p);
      }
    } else if MappedBelow(words, pd, j, 1024, p) {
      var k': bv32 :| k' < 1024 && Maps(words, pd, j, k', p);
      MapsNoTable(words, pd, j, k', p);
    }
  }

  lemma TableInWords(words: Words, pd: bv32, i: bv32)
    requires PdOk(words, pd) && i < 768
    ensures K(pd) in words && (HasTable(words, pd, i) ==> K(TableOf(words, pd, i)) in words)
  {
    assert PdeOk(words, pd, i);
  }

  // What entry i gives back is what it owns, once.
  lemma EntryOnce(words: Words, pd: bv32, i: bv32)
    requires PdOk(words, pd) && FramesApart(words, pd) && FramesOutside(words, pd) && i < 768
    ensures Distinct(EntryReleases(words, pd, i))
    ensures forall p :: p in EntryReleases(words, pd, i) <==> Owns(words, pd, i, p)
  {
    hide PdOk, FramesApart, FramesOutside, HasTable, TableOf, Maps, TableReleases;
    if HasTable(words, pd, i) {
      var f, t := TableReleases(words, TableOf(words, pd, i), 1024), K(TableOf(words, pd, i));
      TableReleasesOnce(words, pd, i, 1024);
      TableInWords(words, pd, i);
      if t in f {
        var k: bv32 :| k < 1024 && Maps(words, pd, i, k, t);
        MapsNoTable(words, pd, i, k, t);
      }
      PushedDistinct(f, t);
    }
  }

  lemma {:induction false} ReleasesOnce(words: Words, pd: bv32, n: bv32)
    requires PdOk(words, pd) && FramesApart(words, pd) && FramesOutside(words, pd) && n <= 768
    ensures PagesOf(words, pd, n, Releases(words, pd, n))
    decreases n
  {
    hide PdOk, FramesApart, FramesOutside, Owns, EntryReleases;
    if n != 0 {
      hide PagesOf, OwnedBelow;
      var m := n - 1;
      LastIndex(n);
      IndexBefore(n, n);
      ReleasesOnce(words, pd, m);
      EntryOnce(words, pd, m);
      OneMoreOwner(words, pd, m, n, Releases(words, pd, m), EntryReleases(words, pd, m));
    }
  }

  lemma OneMoreOwner(words: Words, pd: bv32, m: bv32, n: bv32, r: seq<Key>, added: seq<Key>)
    requires PdOk(words, pd) && FramesApart(words, pd) && FramesOutside(words, pd)
    requires n != 0 && n <= 768 && m == n - 1 && PagesOf(words, pd, m, r)
    requires Distinct(added) && forall p :: p in added <==> Owns(words, pd, m, p)
    ensures PagesOf(words, pd, n, r + added)
  {
    hide PdOk, FramesApart, FramesOutside, Owns, Distinct, OwnedBelow;
    LastIndex(n);
    forall p | p in r
      ensures p !in added && OwnedBelow(words, pd, n, p)
    {
      StillOwned(words, pd, m, n, p);
    }
    forall p | p in added
      ensures OwnedBelow(words, pd, n, p)
    {
      OwnedLast(words, pd, m, n, p);
    }
    forall i: bv32, p | i < n && Owns(words, pd, i, p)
      ensures p in r + added
    {
      BelowLast(n, i);
    }
    JoinedDistinct(r, added);
  }

  lemma StillOwned(words: Words, pd: bv32, m: bv32, n: bv32, p: Key)
    requires PdOk(words, pd) && FramesApart(words, pd) && FramesOutside(words, pd)
    requires n != 0 && n <= 768 && m == n - 1 && OwnedBelow(words, pd, m, p)
    ensures OwnedBelow(words, pd, n, p) && !Owns(words, pd, m, p)
  {
    hide PdOk, FramesApart, FramesOutside, Owns;
    var i: bv32 :| i < m && Owns(words, pd, i, p);
    EarlierEntry(n, m, i);
    if Owns(words, pd, m, p) { OwnsOnce(words, pd, i, m, p); }
  }

  lemma EarlierEntry(n: bv32, m: bv32, i: bv32)
    requires n != 0 && n <= 768 && m == n - 1 && i < m
    ensures i < n && i < 768 && m < 768 && i != m
  {
  }

  lemma OwnedLast(words: Words, pd: bv32, m: bv32, n: bv32, p: Key)
    requires n != 0 && n <= 768 && m == n - 1 && Owns(words, pd, m, p)
    ensures OwnedBelow(words, pd, n, p)
  {
    hide Owns;
    LastIndex(n);
  }

  lemma JoinedDistinct(a: seq<Key>, b: seq<Key>)
    requires Distinct(a) && Distinct(b) && forall p :: p in a ==> p !in b
    ensures Distinct(a + b)
  {
    forall i, j | 0 <= i < j < |a + b|
      ensures (a + b)[i] != (a + b)[j]
    {
      if i < |a| <= j { assert (a + b)[i] in a && (a + b)[j] in b; }
    }
  }

  // With frames mapped once and kept apart from the tables, destroying a
  // directory gives back the directory, each of its tables and each frame still
  // mapped, all of them once and nothing else.
  lemma DestroyReleasesOnce(words: Words, pd: bv32)
    requires PdOk(words, pd) && FramesApart(words, pd) && FramesOutside(words, pd)
    ensures Distinct(Releases(words, pd, 768) + [K(pd)])
    ensures forall p :: p in Releases(words, pd, 768) + [K(pd)] <==>
              p == K(pd) || IsTable(words, pd, p) || IsFrame(words, pd, p)
  {
    hide *;
    ReleasesOnce(words, pd, 768);
    var r := Releases(words, pd, 768);
    DirectoryApart(words, pd, r);
    PushedDistinct(r, K(pd));
    forall p
      ensures p in r + [K(pd)] <==> p == K(pd) || IsTable(words, pd, p) || IsFrame(words, pd, p)
    {
      InReleases(words, pd, r, p);
      OwnedIs(words, pd, p);
    }
  }

  lemma InReleases(words: Words, pd: bv32, r: seq<Key>, p: Key)
    requires PagesOf(words, pd, 768, r)
    ensures p in r <==> OwnedBelow(words, pd, 768, p)
  {
    hide Owns, Distinct;
    if OwnedBelow(words, pd, 768, p) {
      var i: bv32 :| i < 768 && Owns(words, pd, i, p);
    }
  }

  lemma DirectoryApart(words: Words, pd: bv32, r: seq<Key>)
    requires PdOk(words, pd) && FramesApart(words, pd) && FramesOutside(words, pd) && PagesOf(words, pd, 768, r)
    ensures Distinct(r) && K(pd) !in r
  {
    hide PdOk, FramesApart, FramesOutside, Owns;
    if K(pd) in r {
      var i: bv32 :| i < 768 && Owns(words, pd, i, K(pd));
      OwnsOnce(words, pd, i, i, K(pd));
    }
  }

  // p is the frame of a page that is mapped.
  ghost predicate IsFrame(words: Words, pd: bv32, p: Key) {
    exists u :: u in View(words, pd) && K(View(words, pd)[u].frame) == p
  }

  ghost predicate IsTable(words: Words, pd: bv32, p: Key) {
    exists i: bv32 :: i < 768 && HasTable(words, pd, i) && p == K(TableOf(words, pd, i))
  }

  lemma OwnedIs(words: Words, pd: bv32, p: Key)
    ensures OwnedBelow(words, pd, 768, p) <==> IsTable(words, pd, p) || IsFrame(words, pd, p)
  {
    hide HasTable, TableOf, View, AddressOf, PdNo, PtNo, UserPage, Maps;
    if OwnedBelow(words, pd, 768, p) {
      var i: bv32 :| i < 768 && Owns(words, pd, i, p);
      if p == K(TableOf(words, pd, i)) {
        assert IsTable(words, pd, p);
      } else {
        var k: bv32 :| k < 1024 && Maps(words, pd, i, k, p);
        MapsInView(words, pd, i, k, p);
        assert IsFrame(words, pd, p);
      }
    }
    if IsFrame(words, pd, p) {
      var u :| u in View(words, pd) && K(View(words, pd)[u].frame) == p;
      MappedIsOwned(words, pd, u, p);
    } else if IsTable(words, pd, p) {
      var i: bv32 :| i < 768 && HasTable(words, pd, i) && p == K(TableOf(words, pd, i));
      assert Owns(words, pd, i, p);
    }
  }

  lemma MappedIsOwned(words: Words, pd: bv32, u: Key, p: Key)
    requires u in View(words, pd) && K(View(words, pd)[u].frame) == p
    ensures OwnedBelow(words, pd, 768, p)
  {
    var i, k := PdNo(u.bits), PtNo(u.bits);
    ViewKey(words, pd, u);
    UserHalf(u.bits);
    AddressParts(u.bits);
    hide View, PageAt, PdNo, PtNo, HasTable, TableOf;
    assert Maps(words, pd, i, k, p);
    assert MappedBelow(words, pd, i, 1024, p);
    assert Owns(words, pd, i, p);
  }
}
