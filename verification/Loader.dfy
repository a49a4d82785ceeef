// Loading a program: the headers of an executable are read and checked, its
// segments are read page by page into frames that a page directory maps, the
// stack page is added, and at the end everything is handed back.
module Loader {
  import opened PageTables
  import opened Addresses
  import opened PageDir
  import opened Bytes
  import opened KernelMemory
  import opened Executable
  import UserMemory
  import FileSystem

  // The 4096 bytes of each frame in use.
  type Frames = map<Key, seq<byte>>

  // file_read, as it comes out for a file with these bytes: it stops at the end
  // of the file, or earlier when there is no memory for the part of a sector.
  method FileRead(file: seq<byte>, pos: nat, n: nat, supply: Supply) returns (data: seq<byte>)
    modifies supply
    ensures FileSystem.ReadGives(file, pos, n, Granted(supply.answers, old(supply.asked)), data,
                                 supply.asked - old(supply.asked), supply.Failures() - old(supply.Failures()))
    ensures |data| <= n && Inside(file, pos, |data|) && data == Sub(file, pos, |data|)
    ensures supply.Failures() >= old(supply.Failures())
    ensures supply.Failures() == old(supply.Failures()) ==> (|data| == n <==> Inside(file, pos, n))
    ensures n == 0 ==> supply.Failures() == old(supply.Failures())
  {
    var avail := FileSystem.Available(n, pos, |file|);
    var granted := true;
    if FileSystem.NeedsBounce(avail, pos) {
      granted := supply.Allocate();
    }
    data := Sub(file, pos, FileSystem.Moved(avail, pos, granted));
  }

  // Each frame in use is mapped at one place, and is neither free nor a table.
  ghost predicate FramesOk(view: imap<Key, Mapping>, held: set<Key>, frames: Frames) {
    && (forall u :: u in view ==> K(view[u].frame) in frames)
    && (forall u, v :: u in view && v in view && u != v ==> view[u].frame != view[v].frame)
    && (forall p :: p in frames ==> p !in held && MappedAt(view, p))
  }

  ghost predicate MappedAt(view: imap<Key, Mapping>, p: Key) {
    exists u :: u in view && K(view[u].frame) == p
  }

  // A page is new at upage with the given contents, or nothing has changed.
  ghost predicate PageLoaded(view: imap<Key, Mapping>, frames: Frames, view': imap<Key, Mapping>, frames': Frames,
                             ok: bool, upage: bv32, writable: bool, content: seq<byte>) {
    if ok then
      K(upage) !in view && exists f :: K(f) !in frames && view' == view[K(upage) := Mapping(f, writable)]
                                       && frames' == frames[K(f) := content]
    else view' == view && frames' == frames
  }

  // What the process finds in a page.
  ghost predicate PageIs(view: imap<Key, Mapping>, frames: Frames, upage: bv32, writable: bool, content: seq<byte>) {
    && K(upage) in view && view[K(upage)].writable == writable
    && K(view[K(upage)].frame) in frames && frames[K(view[K(upage)].frame)] == content
  }

  // Pages that were mapped before are as they were.
  ghost predicate Keeps(view: imap<Key, Mapping>, frames: Frames, view': imap<Key, Mapping>, frames': Frames) {
    && (forall u :: u in view ==> u in view' && view'[u] == view[u])
    && (forall p :: p in frames ==> p in frames' && frames'[p] == frames[p])
  }

  lemma KeepsMore(view: imap<Key, Mapping>, frames: Frames, view': imap<Key, Mapping>, frames': Frames,
                  view'': imap<Key, Mapping>, frames'': Frames)
    requires Keeps(view, frames, view', frames') && Keeps(view', frames', view'', frames'')
    ensures Keeps(view, frames, view'', frames'')
  {
  }

  lemma LoadedKeeps(view: imap<Key, Mapping>, frames: Frames, view': imap<Key, Mapping>, frames': Frames,
                    ok: bool, upage: bv32, writable: bool, content: seq<byte>)
    requires PageLoaded(view, frames, view', frames', ok, upage, writable, content)
    ensures Keeps(view, frames, view', frames')
    ensures forall u :: u in view' ==> u in view || (ok && u == K(upage))
    ensures ok ==> PageIs(view', frames', upage, writable, content)
  {
  }

  // A new frame at a page that was not mapped.
  lemma FrameAdded(view: imap<Key, Mapping>, held: set<Key>, held': set<Key>, frames: Frames,
                   upage: bv32, f: bv32, writable: bool, content: seq<byte>)
    requires FramesOk(view, held, frames) && K(upage) !in view && K(f) in held && held' == held - {K(f)}
    ensures K(f) !in frames
    ensures FramesOk(view[K(upage) := Mapping(f, writable)], held', frames[K(f) := content])
  {
    var view', frames' := view[K(upage) := Mapping(f, writable)], frames[K(f) := content];
    forall p | p in frames'
      ensures p !in held' && MappedAt(view', p)
    {
      if p in frames {
        var u :| u in view && K(view[u].frame) == p;
        assert u in view' && K(view'[u].frame) == p;
      } else {
        assert view'[K(upage)].frame == f;
      }
    }
  }

  lemma NotHeld(view: imap<Key, Mapping>, held: set<Key>, frames: Frames, k: Key)
    requires FramesOk(view, held, frames) && k in held
    ensures k !in frames
  {
  }

  lemma FramesOutsideTables(words: Words, free: set<Key>, pd: bv32, frames: Frames)
    requires FramesOk(View(words, pd), Held(free, words), frames)
    ensures FramesOutside(words, pd) && FramesApart(words, pd)
    ensures forall p :: p in frames <==> exists u :: u in View(words, pd) && K(View(words, pd)[u].frame) == p
  {
    hide View;
    forall p
      ensures p in frames <==> exists u :: u in View(words, pd) && K(View(words, pd)[u].frame) == p
    {
      if p in frames { assert MappedAt(View(words, pd), p); }
    }
  }

  // ---- Where a load stands. ----

  // What is mapped, the frames with their bytes, the directory slots with a
  // table, how many pages are free for the user and for the kernel, and what
  // memory holds besides.
  datatype Space = Space(view: imap<Key, Mapping>, frames: Frames, tables: set<Key>, user: nat, kernel: nat, rest: Words)

  ghost function Tables(words: Words, pd: bv32): set<Key> {
    if K(pd) in words then set k | k in words[K(pd)] && k.bits < 768 && words[K(pd)][k] != 0 else {}
  }

  lemma TablesAre(words: Words, pd: bv32, i: bv32)
    requires i < 768
    ensures K(i) in Tables(words, pd) <==> HasTable(words, pd, i)
  {
  }

  ghost function PageKey(p: nat): Key {
    K(Bits(p))
  }

  // The directory slot of a page.
  ghost function SlotKey(p: nat): Key {
    K(PdNo(Bits(p)))
  }

  ghost function Slots(pages: seq<nat>): set<Key> {
    set p | p in pages :: SlotKey(p)
  }

  // None of the pages is mapped, and none comes up twice.
  ghost predicate Unmapped(view: imap<Key, Mapping>, pages: seq<nat>) {
    && (forall i :: 0 <= i < |pages| ==> PageKey(pages[i]) !in view)
    && (forall i, j :: 0 <= i < j < |pages| ==> PageKey(pages[i]) != PageKey(pages[j]))
  }

  ghost predicate Among(pages: seq<nat>, u: Key) {
    exists i :: 0 <= i < |pages| && u == PageKey(pages[i])
  }

  // There is room for these pages: they are unmapped, and there is a user page
  // for each and a kernel page for every table that is missing.
  ghost predicate Fits(a: Space, pages: seq<nat>) {
    Unmapped(a.view, pages) && |pages| <= a.user && |Slots(pages) - a.tables| <= a.kernel
  }

  ghost predicate Added(view: imap<Key, Mapping>, view': imap<Key, Mapping>, pages: seq<nat>) {
    Unmapped(view, pages) && forall u :: u in view' <==> u in view || Among(pages, u)
  }

  // Exactly these pages have been added: what was mapped stays, each of them
  // took a user page, and each new table a kernel page.
  ghost predicate Grown(a: Space, b: Space, pages: seq<nat>) {
    && Keeps(a.view, a.frames, b.view, b.frames) && Added(a.view, b.view, pages)
    && b.tables == a.tables + Slots(pages)
    && b.user + |pages| == a.user && b.kernel + |b.tables| == a.kernel + |a.tables| && b.rest == a.rest
  }

  lemma GrownNothing(a: Space)
    ensures Grown(a, a, []) && Fits(a, [])
  {
    assert Slots([]) == {};
    assert Slots([]) - a.tables == {};
  }

  lemma SlotsPlus(p: seq<nat>, q: seq<nat>)
    ensures Slots(p + q) == Slots(p) + Slots(q)
  {
  }

  lemma UnionSize(a: set<Key>, b: set<Key>)
    ensures |a + b| == |a| + |b - a|
  {
    assert a + b == a + (b - a);
  }

  lemma GrownMore(a: Space, b: Space, c: Space, p: seq<nat>, q: seq<nat>)
    requires Grown(a, b, p) && Grown(b, c, q)
    ensures Grown(a, c, p + q)
  {
    SlotsPlus(p, q);
    KeepsMore(a.view, a.frames, b.view, b.frames, c.view, c.frames);
    UnionAssoc(a.tables, Slots(p), Slots(q));
    hide Keeps, Slots, Added;
    AddedMore(a.view, b.view, c.view, p, q);
  }

  lemma UnionAssoc(a: set<Key>, b: set<Key>, c: set<Key>)
    ensures (a + b) + c == a + (b + c)
  {
  }

  lemma AddedMore(v: imap<Key, Mapping>, v': imap<Key, Mapping>, v'': imap<Key, Mapping>, p: seq<nat>, q: seq<nat>)
    requires Added(v, v', p) && Added(v', v'', q)
    ensures Added(v, v'', p + q)
  {
    UnmappedMore(v, v', p, q);
    hide Unmapped, Among;
    forall u
      ensures u in v'' <==> u in v || Among(p + q, u)
    {
      AmongBoth(p, q, u);
    }
  }

  lemma AmongBoth(p: seq<nat>, q: seq<nat>, u: Key)
    ensures Among(p + q, u) <==> Among(p, u) || Among(q, u)
  {
    hide PageKey;
    if i :| 0 <= i < |p| && u == PageKey(p[i]) { assert (p + q)[i] == p[i]; }
    if i :| 0 <= i < |q| && u == PageKey(q[i]) { assert (p + q)[|p| + i] == q[i]; }
    if i :| 0 <= i < |p + q| && u == PageKey((p + q)[i]) {
      assert if i < |p| then u == PageKey(p[i]) else u == PageKey(q[i - |p|]);
    }
  }

  lemma UnmappedMore(v: imap<Key, Mapping>, v': imap<Key, Mapping>, p: seq<nat>, q: seq<nat>)
    requires Added(v, v', p)
    ensures Unmapped(v, p + q) <==> Unmapped(v', q)
  {
    if Unmapped(v', q) { UnmappedTogether(v, v', p, q); }
    if Unmapped(v, p + q) { UnmappedRest(v, v', p, q); }
  }

  lemma UnmappedTogether(v: imap<Key, Mapping>, v': imap<Key, Mapping>, p: seq<nat>, q: seq<nat>)
    requires Added(v, v', p) && Unmapped(v', q)
    ensures Unmapped(v, p + q)
  {
    hide PageKey;
    var pq := p + q;
    forall i | 0 <= i < |pq|
      ensures PageKey(pq[i]) !in v
    {
      if i >= |p| { assert PageKey(q[i - |p|]) !in v'; }
    }
    forall i, j | 0 <= i < j < |pq|
      ensures PageKey(pq[i]) != PageKey(pq[j])
    {
      if i < |p| <= j {
        assert PageKey(q[j - |p|]) !in v' && Among(p, PageKey(p[i]));
      } else if |p| <= i {
        assert PageKey(q[i - |p|]) != PageKey(q[j - |p|]);
      }
    }
  }

  lemma UnmappedRest(v: imap<Key, Mapping>, v': imap<Key, Mapping>, p: seq<nat>, q: seq<nat>)
    requires Added(v, v', p) && Unmapped(v, p + q)
    ensures Unmapped(v', q)
  {
    hide PageKey;
    var pq := p + q;
    forall j | 0 <= j < |q|
      ensures PageKey(q[j]) !in v'
    {
      assert pq[|p| + j] == q[j] && PageKey(pq[|p| + j]) !in v;
      forall i | 0 <= i < |p|
        ensures PageKey(p[i]) != PageKey(q[j])
      {
        assert pq[i] == p[i] && PageKey(pq[i]) != PageKey(pq[|p| + j]);
      }
    }
    forall i, j | 0 <= i < j < |q|
      ensures PageKey(q[i]) != PageKey(q[j])
    {
      assert pq[|p| + i] == q[i] && pq[|p| + j] == q[j];
    }
  }

  // What fits after some pages have been added is what fits together with them.
  lemma FitsMore(a: Space, b: Space, p: seq<nat>, q: seq<nat>)
    requires Grown(a, b, p)
    ensures Fits(a, p + q) <==> Fits(b, q)
  {
    SlotsPlus(p, q);
    UnmappedMore(a.view, b.view, p, q);
    hide Unmapped, Slots, Keeps, Added;
    TablesLeft(a.tables, b.tables, Slots(p), Slots(q));
  }

  lemma TablesLeft(a: set<Key>, b: set<Key>, s: set<Key>, t: set<Key>)
    requires b == a + s
    ensures |s + t - a| + |a| == |t - b| + |b|
  {
    UnionSize(a, s + t);
    UnionSize(b, t);
    assert a + (s + t) == b + t;
  }

  lemma FitsPrefix(a: Space, p: seq<nat>, q: seq<nat>)
    requires Fits(a, p + q)
    ensures Fits(a, p)
  {
    SlotsPlus(p, q);
    FewerSlots(Slots(p) - a.tables, Slots(p + q) - a.tables);
    hide Slots;
    UnmappedPrefix(a.view, p, q);
  }

  lemma UnmappedPrefix(view: imap<Key, Mapping>, p: seq<nat>, q: seq<nat>)
    requires Unmapped(view, p + q)
    ensures Unmapped(view, p)
  {
    hide PageKey;
    assert forall i :: 0 <= i < |p| ==> (p + q)[i] == p[i];
  }

  lemma {:induction false} FewerSlots(a: set<Key>, b: set<Key>)
    requires a <= b
    ensures |a| <= |b|
  {
    assert b == a + (b - a);
  }

  // A single page.
  lemma FitsOne(a: Space, p: nat)
    ensures Fits(a, [p]) <==> PageKey(p) !in a.view && a.user > 0 && (SlotKey(p) in a.tables || a.kernel > 0)
  {
    assert Slots([p]) == {SlotKey(p)};
    if SlotKey(p) in a.tables {
      assert Slots([p]) - a.tables == {};
    } else {
      assert Slots([p]) - a.tables == {SlotKey(p)};
    }
  }

  lemma GrownOne(a: Space, b: Space, p: nat)
    requires Keeps(a.view, a.frames, b.view, b.frames) && PageKey(p) !in a.view
    requires forall u :: u in b.view <==> u in a.view || u == PageKey(p)
    requires b.tables == a.tables + {SlotKey(p)} && b.user + 1 == a.user && b.kernel + |b.tables| == a.kernel + |a.tables|
    requires b.rest == a.rest
    ensures Grown(a, b, [p])
  {
    hide Keeps, PageKey;
    assert Slots([p]) == {SlotKey(p)};
    assert [p][0] == p;
  }

  // ---- Segments in place. ----

  // The first n pages of a segment are in place.
  ghost predicate Loaded(view: imap<Key, Mapping>, frames: Frames, file: seq<byte>, s: Segment, n: nat) {
    forall i: nat :: i < n ==> PageIs(view, frames, Bits(s.upage + 4096 * i), s.writable, SegmentPage(file, s, i))
  }

  lemma LoadedStays(view: imap<Key, Mapping>, frames: Frames, view': imap<Key, Mapping>, frames': Frames,
                    file: seq<byte>, s: Segment, n: nat)
    requires Loaded(view, frames, file, s, n) && Keeps(view, frames, view', frames')
    ensures Loaded(view', frames', file, s, n)
  {
    hide Bits, SegmentPage;
  }

  // ---- The address space of a process. ----

  class AddressSpace {
    const mem: Memory
    const supply: Supply
    const pd: bv32
    var frames: Frames

    ghost predicate Valid()
      reads this, mem
    {
      && mem.Valid() && PdOk(mem.words, pd)
      && FramesOk(View(mem.words, pd), Held(mem.free, mem.words), frames)
    }

    ghost function UserView(): imap<Key, Mapping>
      reads this, mem
    {
      View(mem.words, pd)
    }

    ghost function Now(): Space
      reads this, mem
    {
      Space(View(mem.words, pd), frames, Tables(mem.words, pd), |mem.Pool(true)|, |mem.Pool(false)|, Rest(mem.words, pd))
    }

    // Every page is free, a table or in use.
    ghost function Everything(): set<Key>
      reads this, mem
    {
      Held(mem.free, mem.words) + frames.Keys
    }

    constructor (mem: Memory, supply: Supply, pd: bv32)
      requires mem.Valid() && PdOk(mem.words, pd) && View(mem.words, pd) == imap[]
      ensures this.mem == mem && this.supply == supply && this.pd == pd && frames == map[] && Valid()
    {
      this.mem, this.supply, this.pd, frames := mem, supply, pd, map[];
    }

    // install_page.
    method InstallPage(upage: bv32, kpage: bv32, writable: bool) returns (ok: bool)
      requires mem.Valid() && PdOk(mem.words, pd) && UserPage(upage) && KernelPage(kpage)
      modifies mem`words, mem`free
      ensures mem.Valid() && PdOk(mem.words, pd)
      ensures mem.free <= old(mem.free) && Held(mem.free, mem.words) == old(Held(mem.free, mem.words))
      ensures ok <==> K(upage) !in old(UserView())
                      && (old(HasTable(mem.words, pd, PdNo(upage))) || old(mem.Pool(false)) != {})
      ensures !ok ==> mem.words == old(mem.words) && mem.free == old(mem.free)
      ensures ok ==> TableHad(old(mem.words), old(mem.free), mem.words, mem.free, mem.userPool, pd, PdNo(upage))
      ensures UserView() == if ok then old(UserView())[K(upage) := Mapping(kpage, writable)] else old(UserView())
      ensures Rest(mem.words, pd) == old(Rest(mem.words, pd))
    {
      hide PdOk, View, Held, TableHad, Rest;
      var there := mem.GetPageFor(pd, upage);
      PageItself(upage);
      if there != 0 {
        return false;
      }
      MappedPages(mem.words, pd, upage);
      ok := mem.SetPage(pd, upage, kpage, writable);
    }

    // One pass of load_segment: a page is got, filled and mapped.
    method LoadPage(file: seq<byte>, pos: nat, ghost p: nat, upage: bv32, n: nat, writable: bool) returns (ok: bool)
      requires Valid() && UserPage(upage) && upage == Bits(p) && n <= 4096
      modifies this`frames, mem`words, mem`free, mem`released, supply
      ensures Valid() && Everything() == old(Everything())
      ensures supply.Failures() >= old(supply.Failures())
      ensures n == 0 ==> supply.Failures() == old(supply.Failures())
      ensures supply.Failures() == old(supply.Failures()) ==> (ok <==> Inside(file, pos, n) && Fits(old(Now()), [p]))
      ensures !ok ==> Now() == old(Now()) && mem.free == old(mem.free) && mem.words == old(mem.words)
      ensures ok ==> Inside(file, pos, n) && Grown(old(Now()), Now(), [p])
                     && PageIs(UserView(), frames, upage, writable, Sub(file, pos, n) + Zeros(4096 - n))
    {
      hide *;
      ghost var held, a := Held(mem.free, mem.words), Now();
      ValidParts();
      NowIs();
      WhatFits(p, upage);
      var kpage := mem.GetPage(true);
      NowIs();
      if kpage == 0 {
        NothingGot(held);
        return false;
      }
      OneLess(old(mem.free), mem.userPool, K(kpage));
      Got(held, kpage);
      ok := FillPage(kpage, file, pos, upage, n, writable, held);
      NowIs();
      if ok {
        InsideIs(file, pos, n);
        Balanced(old(mem.words), old(mem.free), kpage, mem.words, mem.free, mem.userPool, pd, PdNo(upage));
        PageGrown(a, Now(), p, upage, writable, Sub(file, pos, n) + Zeros(4096 - n));
      }
    }

    // The page is read into, and mapped or given back.
    method FillPage(kpage: bv32, file: seq<byte>, pos: nat, upage: bv32, n: nat, writable: bool, ghost held: set<Key>)
      returns (ok: bool)
      requires Out(kpage, held) && UserPage(upage) && n <= 4096
      modifies this`frames, mem`words, mem`free, mem`released, supply
      ensures Valid() && Everything() == held + old(frames.Keys)
      ensures supply.Failures() >= old(supply.Failures())
      ensures n == 0 ==> supply.Failures() == old(supply.Failures())
      ensures supply.Failures() == old(supply.Failures()) ==>
                (ok <==> Inside(file, pos, n) && K(upage) !in old(UserView())
                         && (old(HasTable(mem.words, pd, PdNo(upage))) || old(mem.Pool(false)) != {}))
      ensures ok ==> Inside(file, pos, n)
                     && TableHad(old(mem.words), old(mem.free), mem.words, mem.free, mem.userPool, pd, PdNo(upage))
                     && PageLoaded(old(UserView()), old(frames), UserView(), frames, ok, upage, writable,
                                   Sub(file, pos, n) + Zeros(4096 - n))
      ensures Rest(mem.words, pd) == old(Rest(mem.words, pd))
      ensures !ok ==> mem.words == old(mem.words) && mem.free == old(mem.free) + {K(kpage)} && frames == old(frames)
    {
      hide *;
      var data := FileRead(file, pos, n, supply);
      if |data| == n {
        ok := MapOrFree(upage, kpage, writable, data + Zeros(4096 - n), held);
      } else {
        GiveBack(kpage, held);
        ok := false;
      }
    }

    lemma ValidParts()
      requires Valid()
      ensures mem.Valid() && PdOk(mem.words, pd) && FramesOk(UserView(), Held(mem.free, mem.words), frames)
    {
    }

    lemma NowIs()
      ensures UserView() == View(mem.words, pd) && Held(mem.free, mem.words) == mem.free + mem.words.Keys
      ensures Everything() == Held(mem.free, mem.words) + frames.Keys
      ensures Now() == Space(UserView(), frames, Tables(mem.words, pd), |mem.Pool(true)|, |mem.Pool(false)|,
                             Rest(mem.words, pd))
      ensures mem.Pool(true) == mem.free * mem.userPool && mem.Pool(false) == mem.free - mem.userPool
    {
    }

    // A page is out: it has been got and is neither free nor mapped yet.
    ghost predicate Out(kpage: bv32, held: set<Key>)
      reads this, mem
    {
      && mem.Valid() && PdOk(mem.words, pd) && KernelPage(kpage) && K(kpage) in held
      && FramesOk(UserView(), held, frames) && Held(mem.free, mem.words) == held - {K(kpage)}
    }

    lemma NothingGot(held: set<Key>)
      requires mem.Valid() && PdOk(mem.words, pd) && FramesOk(UserView(), held, frames) && held == Held(mem.free, mem.words)
      ensures Valid() && Everything() == held + frames.Keys
    {
    }

    lemma Got(held: set<Key>, kpage: bv32)
      requires mem.Valid() && PdOk(mem.words, pd) && FramesOk(UserView(), held, frames)
      requires KernelPage(kpage) && K(kpage) in held && K(kpage) !in mem.words && K(kpage) !in mem.free
      requires held == Held(mem.free + {K(kpage)}, mem.words)
      ensures Out(kpage, held)
    {
      hide FramesOk, PdOk, View, KernelPage;
    }

    // The page goes back unused.
    method GiveBack(kpage: bv32, ghost held: set<Key>)
      requires Out(kpage, held)
      modifies mem`words, mem`free, mem`released
      ensures Valid() && Everything() == held + frames.Keys && UserView() == old(UserView())
      ensures mem.words == old(mem.words) && mem.free == old(mem.free) + {K(kpage)}
    {
      hide PdOk, View, FramesOk, KernelPage;
      ghost var w := mem.words;
      assert K(kpage) !in w;
      mem.FreePage(kpage);
      assert mem.words == w;
      assert Held(mem.free, mem.words) == held;
    }

    // The page is mapped with its contents, or goes back.
    method MapOrFree(upage: bv32, kpage: bv32, writable: bool, content: seq<byte>, ghost held: set<Key>) returns (ok: bool)
      requires Out(kpage, held) && UserPage(upage)
      modifies this`frames, mem`words, mem`free, mem`released
      ensures Valid() && Everything() == held + old(frames.Keys)
      ensures ok ==> PageLoaded(old(UserView()), old(frames), UserView(), frames, ok, upage, writable, content)
      ensures ok <==> K(upage) !in old(UserView())
                      && (old(HasTable(mem.words, pd, PdNo(upage))) || old(mem.Pool(false)) != {})
      ensures ok ==> TableHad(old(mem.words), old(mem.free), mem.words, mem.free, mem.userPool, pd, PdNo(upage))
      ensures !ok ==> mem.words == old(mem.words) && mem.free == old(mem.free) + {K(kpage)} && frames == old(frames)
      ensures Rest(mem.words, pd) == old(Rest(mem.words, pd))
    {
      hide PdOk, View, FramesOk, KernelPage, TableHad, Rest;
      NotHeld(UserView(), held, frames, K(kpage));
      ok := InstallPage(upage, kpage, writable);
      if ok {
        FrameAdded(old(UserView()), held, Held(mem.free, mem.words), frames, upage, kpage, writable, content);
        frames := frames[K(kpage) := content];
        assert Everything() == held + old(frames.Keys);
      } else {
        GiveBack(kpage, held);
      }
    }

    // load_segment. A failure leaves the pages loaded so far to be given back
    // with the rest of the address space.
    method LoadSegment(file: seq<byte>, s: Segment) returns (ok: bool, ghost done: nat)
      requires Valid() && Loadable(s)
      modifies this`frames, mem`words, mem`free, mem`released, supply
      ensures Valid() && Everything() == old(Everything())
      ensures supply.Failures() >= old(supply.Failures())
      ensures supply.Failures() == old(supply.Failures()) ==>
                (ok <==> Inside(file, s.ofs, s.read) && Fits(old(Now()), SegmentPages(s)))
      ensures ok ==> done == PageCnt(s) && Inside(file, s.ofs, s.read) && Loaded(UserView(), frames, file, s, PageCnt(s))
      ensures done <= PageCnt(s) && Grown(old(Now()), Now(), SegmentPages(s)[..done])
    {
      hide *;
      var readBytes, zeroBytes, upage, pos := s.read, s.zero, Bits(s.upage), s.ofs;
      ghost var a := Now();
      done := 0;
      NothingLoaded(file, s);
      while readBytes > 0 || zeroBytes > 0
        invariant done <= PageCnt(s) && readBytes == Left(s, done) && readBytes + zeroBytes == s.read + s.zero - 4096 * done
        invariant upage == Bits(s.upage + 4096 * done) && (readBytes > 0 ==> pos == s.ofs + 4096 * done)
        invariant Loading(old(Everything()), a, file, s, done)
        invariant supply.Failures() >= old(supply.Failures())
        decreases readBytes + zeroBytes
      {
        var pageReadBytes := if readBytes < 4096 then readBytes else 4096;
        var pageZeroBytes := 4096 - pageReadBytes;
        PagesToGo(s, done, pos);
        ok := LoadNext(file, s, done, pos, upage, pageReadBytes, old(Everything()), a);
        if !ok {
          return;
        }
        readBytes, zeroBytes := readBytes - pageReadBytes, zeroBytes - pageZeroBytes;
        upage, pos := upage + 4096, pos + pageReadBytes;
        done := done + 1;
      }
      AllDone(old(Everything()), a, file, s, done);
      ok := true;
    }

    // The first i pages are in place, read from inside the file, and nothing
    // else is different.
    ghost predicate Loading(pages: set<Key>, a: Space, file: seq<byte>, s: Segment, i: nat)
      reads this, mem
    {
      && Valid() && Everything() == pages && Loaded(UserView(), frames, file, s, i)
      && i <= PageCnt(s) && Grown(a, Now(), SegmentPages(s)[..i])
      && Inside(file, s.ofs, s.read - Left(s, i))
    }

    lemma NothingLoaded(file: seq<byte>, s: Segment)
      requires Valid()
      ensures Loading(Everything(), Now(), file, s, 0) && Left(s, 0) == s.read
    {
      hide Valid, UserView, Grown, Everything, Now;
      GrownNothing(Now());
    }

    lemma AllDone(pages: set<Key>, a: Space, file: seq<byte>, s: Segment, i: nat)
      requires i <= PageCnt(s) && s.read + s.zero - 4096 * i == 0
      requires Loading(pages, a, file, s, i)
      ensures i == PageCnt(s) && Inside(file, s.ofs, s.read) && Valid() && Everything() == pages
      ensures Loaded(UserView(), frames, file, s, i) && Grown(a, Now(), SegmentPages(s)[..i]) && Fits(a, SegmentPages(s))
    {
      hide Loaded, Valid, UserView, Everything, Grown, Fits, Now;
      assert SegmentPages(s)[..i] == SegmentPages(s);
      GrownFits(a, Now(), SegmentPages(s));
    }

    lemma StillLoading(pages: set<Key>, a: Space, file: seq<byte>, s: Segment, i: nat)
      requires Loading(pages, a, file, s, i)
      ensures Valid() && Everything() == pages && i <= PageCnt(s) && Grown(a, Now(), SegmentPages(s)[..i])
      ensures Loaded(UserView(), frames, file, s, i) && Inside(file, s.ofs, s.read - Left(s, i))
    {
      hide Loaded, Valid, UserView, Everything, Grown, Now;
    }

    lemma NowLoading(pages: set<Key>, a: Space, file: seq<byte>, s: Segment, i: nat)
      requires Valid() && Everything() == pages && i <= PageCnt(s) && Grown(a, Now(), SegmentPages(s)[..i])
      requires Loaded(UserView(), frames, file, s, i) && Inside(file, s.ofs, s.read - Left(s, i))
      ensures Loading(pages, a, file, s, i)
    {
      hide Loaded, Valid, UserView, Everything, Grown, Now;
    }

    // Page i of a segment, of which the pages before are in place.
    method LoadNext(file: seq<byte>, s: Segment, ghost i: nat, pos: nat, upage: bv32, n: nat, ghost pages: set<Key>,
                    ghost a: Space) returns (ok: bool)
      requires Loadable(s) && i < PageCnt(s) && upage == Bits(s.upage + 4096 * i) && UserPage(upage)
      requires n == ReadNow(s, i) && (Left(s, i) > 0 ==> pos == s.ofs + 4096 * i)
      requires Loading(pages, a, file, s, i)
      modifies this`frames, mem`words, mem`free, mem`released, supply
      ensures Valid() && Everything() == pages
      ensures supply.Failures() >= old(supply.Failures())
      ensures ok ==> Loading(pages, a, file, s, i + 1)
      ensures !ok ==> Grown(a, Now(), SegmentPages(s)[..i])
      ensures !ok && supply.Failures() == old(supply.Failures()) ==>
                !(Inside(file, s.ofs, s.read) && Fits(a, SegmentPages(s)))
    {
      hide *;
      StillLoading(pages, a, file, s, i);
      ghost var mid, p := Now(), s.upage + 4096 * i;
      NowIs();
      Blocked(a, mid, file, s, i, pos);
      ok := LoadPage(file, pos, p, upage, n, s.writable);
      if ok {
        PageContent(file, s, i, pos);
        ReadOn(file, s, i, pos);
        NowIs();
        OneMorePage(a, mid, Now(), file, s, i);
        NowLoading(pages, a, file, s, i + 1);
      }
    }

    // setup_stack: a zeroed page at the top of user memory.
    method SetupStack() returns (ok: bool)
      requires Valid()
      modifies this`frames, mem`words, mem`free, mem`released, supply
      ensures Valid() && Everything() == old(Everything()) && supply.Failures() == old(supply.Failures())
      ensures ok <==> Fits(old(Now()), [STACK_PAGE])
      ensures !ok ==> Now() == old(Now())
      ensures ok ==> Grown(old(Now()), Now(), [STACK_PAGE]) && PageIs(UserView(), frames, 0xbfff_f000, true, Zeros(4096))
    {
      hide *;
      assert [] + Zeros(4096) == Zeros(4096);
      StackBits();
      NothingRead();
      ok := LoadPage([], 0, STACK_PAGE, 0xbfff_f000, 0, true);
    }

    // load, from the headers of the executable to the stack page. A failure
    // leaves what is there to be given back with the rest.
    method Load(file: seq<byte>) returns (ok: bool, entry: word, ghost pages: seq<nat>)
      requires Valid() && |file| < 0x8000_0000
      modifies this`frames, mem`words, mem`free, mem`released, supply
      ensures Valid() && Everything() == old(Everything())
      ensures supply.Failures() >= old(supply.Failures())
      ensures supply.Failures() == old(supply.Failures()) ==> (ok <==> CanRun(old(Now()), file))
      ensures ok ==> IsExecutable(file) && entry == EhdrOf(file[..52]).entry && pages == ProgramPages(file)
      ensures ok ==> InMemory(UserView(), frames, file) && PageIs(UserView(), frames, 0xbfff_f000, true, Zeros(4096))
      ensures ok ==> UserSees(mem.words, pd, frames, file)
      ensures Grown(old(Now()), Now(), pages)
      ensures if |file| >= 52 then pages <= ProgramPages(file) else pages == []
    {
      hide *;
      ok, entry, pages := false, 0, [];
      GrownNothing(Now());
      ghost var a := Now();
      var data := FileRead(file, 0, 52, supply);
      HeaderRead(a, file, data);
      if |data| != 52 {
        return;
      }
      var ehdr := EhdrOf(data);
      if !GoodEhdr(ehdr) {
        return;
      }
      ok, pages := LoadSegments(file, ehdr);
      PagesFirst(file, pages);
      NowIs();
      if ok {
        ghost var mid := Now();
        StackNext(a, mid, file);
        ok := SetupStack();
        NowIs();
        if ok {
          StackLoaded(a, mid, Now(), file);
          ThroughTables(file);
          entry, pages := ehdr.entry, ProgramPages(file);
        }
      }
    }

    lemma ThroughTables(file: seq<byte>)
      requires Valid() && |file| >= 52 && InMemory(UserView(), frames, file)
      requires PageIs(UserView(), frames, 0xbfff_f000, true, Zeros(4096))
      ensures UserSees(mem.words, pd, frames, file)
    {
      hide PdOk, View, InMemory, PageIs, FramesOk, UserSees;
      MemoryIsSeen(mem.words, pd, frames, file);
    }

    // The pages that can be mapped.
    lemma WhatFits(p: nat, upage: bv32)
      requires upage == Bits(p) && UserPage(upage)
      ensures Fits(Now(), [p]) <==>
                && K(upage) !in UserView() && mem.Pool(true) != {}
                && (HasTable(mem.words, pd, PdNo(upage)) || mem.Pool(false) != {})
      ensures PdNo(upage) < 768 && SlotKey(p) == K(PdNo(upage))
    {
      UserHalf(upage);
      TablesAre(mem.words, pd, PdNo(upage));
      hide PdNo, Tables, View, HasTable, Fits, Bits, UserAddr, PgOfs;
      FitsOne(Now(), p);
      SomeMember(mem.Pool(true));
      SomeMember(mem.Pool(false));
    }

    // The program headers one after the other.
    method LoadSegments(file: seq<byte>, ehdr: Ehdr) returns (ok: bool, ghost pages: seq<nat>)
      requires Valid() && |file| < 0x8000_0000
      modifies this`frames, mem`words, mem`free, mem`released, supply
      ensures Valid() && Everything() == old(Everything())
      ensures supply.Failures() >= old(supply.Failures())
      ensures var segments := SegmentsTo(file, Signed32(ehdr.phoff), ehdr.phnum);
              && Grown(old(Now()), Now(), pages) && pages <= AllPages(segments)
              && (ok ==> pages == AllPages(segments) && AllLoaded(UserView(), frames, file, segments))
      ensures ok ==> Good(old(Now()), file, Signed32(ehdr.phoff), ehdr.phnum)
      ensures !ok && supply.Failures() == old(supply.Failures()) ==> !Good(old(Now()), file, Signed32(ehdr.phoff), ehdr.phnum)
    {
      hide *;
      ghost var a := Now();
      var fileOfs := Signed32(ehdr.phoff);
      var i := 0;
      NoneLoaded(file, fileOfs);
      while i < ehdr.phnum
        invariant i <= ehdr.phnum && fileOfs == Signed32(ehdr.phoff) + 32 * i
        invariant LoadedTo(a, file, Signed32(ehdr.phoff), i) && Everything() == old(Everything())
        invariant supply.Failures() >= old(supply.Failures())
      {
        ok, pages := LoadHeader(file, Signed32(ehdr.phoff), i, ehdr.phnum, fileOfs, a);
        if !ok {
          return;
        }
        fileOfs := fileOfs + 32;
        i := i + 1;
      }
      AllHeaders(a, file, Signed32(ehdr.phoff), i);
      ok, pages := true, AllPages(SegmentsTo(file, Signed32(ehdr.phoff), ehdr.phnum));
    }

    // The segments of the first i headers are in place, and nothing else is new.
    ghost predicate LoadedTo(a: Space, file: seq<byte>, ofs: int, i: nat)
      reads this, mem
    {
      && Valid() && HeadersOk(file, ofs, i) && AllInside(file, SegmentsTo(file, ofs, i))
      && Grown(a, Now(), AllPages(SegmentsTo(file, ofs, i)))
      && AllLoaded(UserView(), frames, file, SegmentsTo(file, ofs, i))
    }

    lemma NoneLoaded(file: seq<byte>, ofs: int)
      requires Valid()
      ensures LoadedTo(Now(), file, ofs, 0)
    {
      hide Valid, Grown, Now;
      GrownNothing(Now());
    }

    lemma LoadedParts(a: Space, file: seq<byte>, ofs: int, i: nat)
      requires LoadedTo(a, file, ofs, i)
      ensures Valid() && HeadersOk(file, ofs, i) && AllInside(file, SegmentsTo(file, ofs, i))
      ensures Grown(a, Now(), AllPages(SegmentsTo(file, ofs, i)))
      ensures AllLoaded(UserView(), frames, file, SegmentsTo(file, ofs, i))
    {
      hide Valid, Grown, AllLoaded, Now, HeadersOk, AllInside;
    }

    lemma LoadedWhole(a: Space, file: seq<byte>, ofs: int, i: nat)
      requires Valid() && HeadersOk(file, ofs, i) && AllInside(file, SegmentsTo(file, ofs, i))
      requires Grown(a, Now(), AllPages(SegmentsTo(file, ofs, i)))
      requires AllLoaded(UserView(), frames, file, SegmentsTo(file, ofs, i))
      ensures LoadedTo(a, file, ofs, i)
    {
      hide Valid, Grown, AllLoaded, Now, HeadersOk, AllInside;
    }

    lemma AllHeaders(a: Space, file: seq<byte>, ofs: int, n: nat)
      requires LoadedTo(a, file, ofs, n)
      ensures Valid() && Good(a, file, ofs, n) && AllLoaded(UserView(), frames, file, SegmentsTo(file, ofs, n))
      ensures Grown(a, Now(), AllPages(SegmentsTo(file, ofs, n)))
    {
      LoadedParts(a, file, ofs, n);
      hide Valid, Grown, AllLoaded, Now, HeadersOk, AllInside, Fits, LoadedTo;
      GrownFits(a, Now(), AllPages(SegmentsTo(file, ofs, n)));
    }

    // Header i of n: it is read and checked, and its segment is loaded if it has one.
    method LoadHeader(file: seq<byte>, ghost ofs: int, ghost i: nat, ghost n: nat, fileOfs: int, ghost a: Space)
      returns (ok: bool, ghost pages: seq<nat>)
      requires LoadedTo(a, file, ofs, i) && i < n && fileOfs == ofs + 32 * i
      modifies this`frames, mem`words, mem`free, mem`released, supply
      ensures Valid() && Everything() == old(Everything())
      ensures supply.Failures() >= old(supply.Failures())
      ensures ok ==> LoadedTo(a, file, ofs, i + 1)
      ensures !ok ==> Grown(a, Now(), pages) && pages <= AllPages(SegmentsTo(file, ofs, n))
      ensures !ok && supply.Failures() == old(supply.Failures()) ==> !Good(a, file, ofs, n)
    {
      hide *;
      LoadedParts(a, file, ofs, i);
      SegmentsGrow(file, ofs, i, n);
      GoodPrefix(a, file, ofs, i + 1, n);
      HeaderNext(a, file, ofs, i);
      ok, pages := false, AllPages(SegmentsTo(file, ofs, i));
      NowIs();
      if fileOfs < 0 || fileOfs > |file| {
        BadPlace(file, fileOfs);
        return;
      }
      var data := FileRead(file, fileOfs, 32, supply);
      HeaderInside(file, fileOfs, data);
      if |data| != 32 {
        return;
      }
      var phdr := PhdrOf(data);
      if phdr.kind == PT_DYNAMIC || phdr.kind == PT_INTERP || phdr.kind == PT_SHLIB {
        return;
      }
      if phdr.kind == PT_LOAD {
        if !ValidSegment(phdr, |file|) {
          return;
        }
        ok, pages := LoadNextSegment(file, ofs, i, SegmentOf(phdr), a);
        SegmentsGrow(file, ofs, i + 1, n);
        PrefixTwice(pages, AllPages(SegmentsTo(file, ofs, i + 1)), AllPages(SegmentsTo(file, ofs, n)));
      } else {
        ok := true;
        LoadedWhole(a, file, ofs, i + 1);
      }
    }

    method LoadNextSegment(file: seq<byte>, ghost ofs: int, ghost i: nat, s: Segment, ghost a: Space)
      returns (ok: bool, ghost pages: seq<nat>)
      requires LoadedTo(a, file, ofs, i) && HeaderLoads(file, ofs + 32 * i)
      requires s == SegmentOf(PhdrAt(file, ofs + 32 * i))
      modifies this`frames, mem`words, mem`free, mem`released, supply
      ensures Valid() && Everything() == old(Everything())
      ensures supply.Failures() >= old(supply.Failures())
      ensures ok ==> LoadedTo(a, file, ofs, i + 1)
      ensures Grown(a, Now(), pages) && pages <= AllPages(SegmentsTo(file, ofs, i + 1))
      ensures !ok && supply.Failures() == old(supply.Failures()) ==> !Good(a, file, ofs, i + 1)
    {
      hide *;
      LoadedParts(a, file, ofs, i);
      ghost var mid, past := Now(), SegmentsTo(file, ofs, i);
      NowIs();
      NextSegment(file, ofs, i);
      AllPagesPlus(past, s);
      FitsMore(a, mid, AllPages(past), SegmentPages(s));
      ghost var done;
      ok, done := LoadSegment(file, s);
      NowIs();
      pages := AllPages(past) + SegmentPages(s)[..done];
      GrownMore(a, mid, Now(), AllPages(past), SegmentPages(s)[..done]);
      SegmentStep(a, mid, Now(), file, ofs, i, s, done, ok);
      if ok { LoadedWhole(a, file, ofs, i + 1); }
    }

    // pagedir_destroy at the end of the process: its directory, its tables and
    // every page it was given are free again, each given back once.
    method Destroy()
      requires Valid()
      modifies mem`words, mem`free, mem`released
      ensures mem.Valid() && |old(mem.released)| <= |mem.released|
      ensures var r := mem.released[|old(mem.released)|..];
              && mem.released == old(mem.released) + r && Distinct(r) && mem.free == old(mem.free) + set k | k in r
              && (forall p :: p in r <==> p == K(pd) || IsTable(old(mem.words), pd, p) || p in frames)
      ensures mem.words == old(Rest(mem.words, pd)) && mem.free == old(Everything()) - mem.words.Keys
    {
      hide PdOk, View, FramesOk, FramesOutside, FramesApart, Releases, IsTable, KernelPage, Rest, Everything;
      FramesOutsideTables(mem.words, mem.free, pd, frames);
      DestroyReleasesOnce(mem.words, pd);
      NotNull(mem.words, pd);
      ghost var before, r := mem.released, Releases(mem.words, pd, 768) + [K(pd)];
      AllBut(mem.free + set k | k in r);
      mem.Destroy(pd);
      assert mem.released == before + r;
      assert mem.released[|before|..] == r;
    }

    lemma AllBut(free: set<Key>)
      requires Valid()
      requires forall p :: p in free <==> p in mem.free || p == K(pd) || IsTable(mem.words, pd, p) || p in frames
      ensures free == Everything() - Rest(mem.words, pd).Keys
    {
      hide PdOk, View, KernelPage;
      PdIsWord(mem.words, pd);
      forall p
        ensures p in frames ==> p !in mem.words && p !in mem.free
        ensures IsTable(mem.words, pd, p) ==> p in mem.words
      {
        if IsTable(mem.words, pd, p) { TableIsWord(mem.words, pd, p); }
      }
      hide IsTable;
    }
  }

  lemma PdIsWord(words: Words, pd: bv32)
    requires PdOk(words, pd)
    ensures K(pd) in words
  {
  }

  lemma TableIsWord(words: Words, pd: bv32, p: Key)
    requires PdOk(words, pd) && IsTable(words, pd, p)
    ensures p in words
  {
    hide PageAt, KernelPage, PdesApart, Present, InRange;
    var i: bv32 :| i < 768 && HasTable(words, pd, i) && p == K(TableOf(words, pd, i));
    assert PdeOk(words, pd, i);
  }

  lemma GrownFits(a: Space, b: Space, p: seq<nat>)
    requires Grown(a, b, p)
    ensures Fits(a, p)
  {
    hide Grown, Fits;
    GrownNothing(b);
    FitsMore(a, b, p, []);
    assert p + [] == p;
  }

  lemma PagesTo(s: Segment, i: nat)
    requires i < PageCnt(s)
    ensures SegmentPages(s)[..i] + [s.upage + 4096 * i] == SegmentPages(s)[..i + 1]
    ensures SegmentPages(s)[..i + 1] + SegmentPages(s)[i + 1..] == SegmentPages(s)
  {
    assert SegmentPages(s)[..i + 1] == SegmentPages(s)[..i] + [SegmentPages(s)[i]];
  }

  // If page i cannot be mapped or read, the segment is to blame.
  lemma Blocked(a: Space, mid: Space, file: seq<byte>, s: Segment, i: nat, pos: nat)
    requires i < PageCnt(s) && Grown(a, mid, SegmentPages(s)[..i]) && (Left(s, i) > 0 ==> pos == s.ofs + 4096 * i)
    ensures Fits(a, SegmentPages(s)) ==> Fits(mid, [s.upage + 4096 * i])
    ensures Inside(file, s.ofs, s.read) ==> Inside(file, pos, ReadNow(s, i))
  {
    hide Grown, Fits, SegmentPages;
    PagesTo(s, i);
    var p, q := SegmentPages(s)[..i], [s.upage + 4096 * i];
    FitsMore(a, mid, p, q);
    if Fits(a, SegmentPages(s)) { FitsPrefix(a, p + q, SegmentPages(s)[i + 1..]); }
  }

  lemma OneMorePage(a: Space, mid: Space, b: Space, file: seq<byte>, s: Segment, i: nat)
    requires i < PageCnt(s) && Grown(a, mid, SegmentPages(s)[..i]) && Grown(mid, b, [s.upage + 4096 * i])
    requires Loaded(mid.view, mid.frames, file, s, i)
    requires PageIs(b.view, b.frames, Bits(s.upage + 4096 * i), s.writable, SegmentPage(file, s, i))
    ensures Grown(a, b, SegmentPages(s)[..i + 1]) && Loaded(b.view, b.frames, file, s, i + 1)
  {
    PagesTo(s, i);
    GrownKeeps(mid, b, [s.upage + 4096 * i]);
    hide *;
    GrownMore(a, mid, b, SegmentPages(s)[..i], [s.upage + 4096 * i]);
    LoadedStays(mid.view, mid.frames, b.view, b.frames, file, s, i);
    LoadedNext(b.view, b.frames, file, s, i);
  }

  lemma LoadedNext(view: imap<Key, Mapping>, frames: Frames, file: seq<byte>, s: Segment, i: nat)
    requires Loaded(view, frames, file, s, i)
    requires PageIs(view, frames, Bits(s.upage + 4096 * i), s.writable, SegmentPage(file, s, i))
    ensures Loaded(view, frames, file, s, i + 1)
  {
    hide PageIs, Bits, SegmentPage;
  }

  lemma GrownKeeps(a: Space, b: Space, p: seq<nat>)
    requires Grown(a, b, p)
    ensures Keeps(a.view, a.frames, b.view, b.frames)
  {
  }

  lemma PagesToGo(s: Segment, i: nat, pos: nat)
    requires Loadable(s) && i <= PageCnt(s) && 4096 * i < s.read + s.zero
    requires Left(s, i) > 0 ==> pos == s.ofs + 4096 * i
    ensures i < PageCnt(s) && UserPage(Bits(s.upage + 4096 * i)) && 4096 * (i + 1) <= s.read + s.zero
    ensures ReadNow(s, i) == if Left(s, i) < 4096 then Left(s, i) else 4096
    ensures Left(s, i + 1) == Left(s, i) - ReadNow(s, i)
    ensures Bits(s.upage + 4096 * (i + 1)) == Bits(s.upage + 4096 * i) + 4096
    ensures Left(s, i + 1) > 0 ==> pos + ReadNow(s, i) == s.ofs + 4096 * (i + 1)
  {
    var n := s.upage + 4096 * i;
    assert n % 4096 == 0;
    UserBits(n);
    PageBits(n);
    hide Bits, RoundDown, UserAddr;
  }

  lemma ReadOn(file: seq<byte>, s: Segment, i: nat, pos: nat)
    requires Left(s, i) > 0 ==> pos == s.ofs + 4096 * i
    requires Inside(file, pos, ReadNow(s, i)) && Inside(file, s.ofs, s.read - Left(s, i))
    ensures Inside(file, s.ofs, s.read - Left(s, i + 1))
  {
  }

  lemma NotNull(words: Words, pd: bv32)
    requires PdOk(words, pd)
    ensures pd != 0
  {
  }

  lemma MappedPages(words: Words, pd: bv32, upage: bv32)
    requires PdOk(words, pd) && UserPage(upage)
    ensures K(upage) in View(words, pd) ==> View(words, pd)[K(upage)].frame | PgOfs(upage) != 0
  {
    FindOk(words, pd, upage);
    ViewKey(words, pd, K(upage));
  }

  lemma StackBits()
    ensures Bits(STACK_PAGE) == 0xbfff_f000 && UserPage(0xbfff_f000)
  {
    KernelWord();
    hide Word;
  }

  lemma InsideIs(file: seq<byte>, pos: nat, n: nat)
    ensures Inside(file, pos, n) <==> n == 0 || pos + n <= |file|
  {
  }

  lemma NothingRead()
    ensures Inside([], 0, 0) && Sub<byte>([], 0, 0) == []
  {
  }

  lemma SomeMember(s: set<Key>)
    ensures |s| > 0 <==> s != {}
  {
  }

  lemma OneLess(free: set<Key>, userPool: set<Key>, k: Key)
    requires k in free * userPool
    ensures (free - {k}) - userPool == free - userPool && (free - {k}) + {k} == free
    ensures |(free - {k}) * userPool| + 1 == |free * userPool|
  {
    assert (free - {k}) * userPool == free * userPool - {k};
  }

  // What one page more costs.
  lemma Balanced(words: Words, free: set<Key>, kpage: bv32, words': Words, free': set<Key>, userPool: set<Key>,
                 pd: bv32, i: bv32)
    requires K(kpage) in free * userPool && i < 768
    requires TableHad(words, free - {K(kpage)}, words', free', userPool, pd, i)
    ensures Tables(words', pd) == Tables(words, pd) + {K(i)}
    ensures |free' * userPool| + 1 == |free * userPool|
    ensures |free' - userPool| + |Tables(words', pd)| == |free - userPool| + |Tables(words, pd)|
  {
    OneLess(free, userPool, K(kpage));
    TablesGrown(words, words', pd, i);
    TablesAre(words, pd, i);
    hide *;
    TableTaken(words, free - {K(kpage)}, words', free', userPool, pd, i);
    assert Tables(words, pd) + {K(i)} == Tables(words, pd) + if K(i) in Tables(words, pd) then {} else {K(i)};
  }

  lemma TablesGrown(words: Words, words': Words, pd: bv32, i: bv32)
    requires i < 768 && HasTable(words', pd, i)
    requires forall j: bv32 :: j < 768 && j != i ==> DirEntry(words', pd, j) == DirEntry(words, pd, j)
    ensures Tables(words', pd) == Tables(words, pd) + {K(i)}
  {
    forall k
      ensures k in Tables(words', pd) <==> k in Tables(words, pd) || k == K(i)
    {
      if k.bits < 768 {
        TablesAre(words', pd, k.bits);
        TablesAre(words, pd, k.bits);
        assert k.bits != i ==> DirEntry(words', pd, k.bits) == DirEntry(words, pd, k.bits);
      }
    }
  }

  lemma TableTaken(words: Words, free: set<Key>, words': Words, free': set<Key>, userPool: set<Key>, pd: bv32, i: bv32)
    requires TableHad(words, free, words', free', userPool, pd, i)
    ensures free' * userPool == free * userPool
    ensures |free' - userPool| == |free - userPool| - if HasTable(words, pd, i) then 0 else 1
  {
    if !HasTable(words, pd, i) { OneKernelPage(free, userPool, K(PageAt(DirEntry(words', pd, i)))); }
  }

  lemma OneKernelPage(free: set<Key>, userPool: set<Key>, k: Key)
    requires k in free - userPool
    ensures (free - {k}) * userPool == free * userPool && |(free - {k}) - userPool| == |free - userPool| - 1
  {
    assert (free - {k}) - userPool == free - userPool - {k};
  }

  lemma PageGrown(a: Space, b: Space, p: nat, upage: bv32, writable: bool, content: seq<byte>)
    requires upage == Bits(p) && PageLoaded(a.view, a.frames, b.view, b.frames, true, upage, writable, content)
    requires b.tables == a.tables + {SlotKey(p)} && b.user + 1 == a.user && b.kernel + |b.tables| == a.kernel + |a.tables|
    requires b.rest == a.rest
    ensures Grown(a, b, [p]) && PageIs(b.view, b.frames, upage, writable, content)
  {
    LoadedKeeps(a.view, a.frames, b.view, b.frames, true, upage, writable, content);
    hide SlotKey, Keeps, PageIs, Bits;
    GrownOne(a, b, p);
  }

  // ---- What an executable comes to in memory. ----

  ghost predicate AllLoaded(view: imap<Key, Mapping>, frames: Frames, file: seq<byte>, segments: seq<Segment>) {
    forall s :: s in segments ==> Loaded(view, frames, file, s, PageCnt(s))
  }

  // The headers are good, the file is long enough, and there is room.
  ghost predicate Good(a: Space, file: seq<byte>, ofs: int, n: nat) {
    && HeadersOk(file, ofs, n) && AllInside(file, SegmentsTo(file, ofs, n))
    && Fits(a, AllPages(SegmentsTo(file, ofs, n)))
  }

  lemma {:induction false} SegmentsGrow(file: seq<byte>, ofs: int, i: nat, n: nat)
    requires i <= n
    ensures SegmentsTo(file, ofs, i) <= SegmentsTo(file, ofs, n)
    ensures AllPages(SegmentsTo(file, ofs, i)) <= AllPages(SegmentsTo(file, ofs, n))
    decreases n
  {
    hide SegmentsTo, AllPages, SegmentOf, PhdrAt, ValidSegment;
    if i < n {
      SegmentsGrow(file, ofs, i, n - 1);
      SegmentsNext(file, ofs, n - 1);
      if HeaderLoads(file, ofs + 32 * (n - 1)) {
        AllPagesPlus(SegmentsTo(file, ofs, n - 1), SegmentOf(PhdrAt(file, ofs + 32 * (n - 1))));
      }
    }
  }

  lemma SegmentsNext(file: seq<byte>, ofs: int, i: nat)
    ensures var at := ofs + 32 * i;
            SegmentsTo(file, ofs, i + 1) ==
            if HeaderLoads(file, at) then SegmentsTo(file, ofs, i) + [SegmentOf(PhdrAt(file, at))]
            else SegmentsTo(file, ofs, i)
  {
    hide HeaderLoads, SegmentOf, PhdrAt;
  }

  lemma GoodPrefix(a: Space, file: seq<byte>, ofs: int, i: nat, n: nat)
    requires i <= n
    ensures Good(a, file, ofs, n) ==> Good(a, file, ofs, i)
  {
    SegmentsGrow(file, ofs, i, n);
    hide Fits, Inside, HeaderOk, SegmentsTo, AllPages;
    if Good(a, file, ofs, n) {
      FitsFirst(a, AllPages(SegmentsTo(file, ofs, i)), AllPages(SegmentsTo(file, ofs, n)));
    }
  }

  lemma FitsFirst(a: Space, p: seq<nat>, q: seq<nat>)
    requires p <= q && Fits(a, q)
    ensures Fits(a, p)
  {
    hide Fits;
    assert q == p + q[|p|..];
    FitsPrefix(a, p, q[|p|..]);
  }

  // Whether header i can be passed.
  lemma HeaderNext(a: Space, file: seq<byte>, ofs: int, i: nat)
    requires HeadersOk(file, ofs, i)
    ensures HeadersOk(file, ofs, i + 1) <==> HeaderOk(file, ofs + 32 * i)
    ensures Good(a, file, ofs, i + 1) ==> HeaderOk(file, ofs + 32 * i)
    ensures !HeaderLoads(file, ofs + 32 * i) ==> SegmentsTo(file, ofs, i + 1) == SegmentsTo(file, ofs, i)
  {
    hide Fits, AllInside, HeaderOk, AllPages;
    assert HeadersOk(file, ofs, i + 1) ==> HeaderOk(file, ofs + 32 * i);
  }

  lemma NextSegment(file: seq<byte>, ofs: int, i: nat)
    requires HeaderLoads(file, ofs + 32 * i)
    ensures var s := SegmentOf(PhdrAt(file, ofs + 32 * i));
            Loadable(s) && SegmentsTo(file, ofs, i + 1) == SegmentsTo(file, ofs, i) + [s]
  {
    ValidIsLoadable(PhdrAt(file, ofs + 32 * i), |file|);
    hide SegmentOf, PhdrAt, ValidSegment, Loadable;
  }

  lemma PrefixTwice(p: seq<nat>, q: seq<nat>, r: seq<nat>)
    requires p <= q && q <= r
    ensures p <= r
  {
  }

  lemma BadPlace(file: seq<byte>, ofs: int)
    requires ofs < 0 || ofs > |file|
    ensures !HeaderOk(file, ofs)
  {
  }

  lemma HeaderInside(file: seq<byte>, ofs: nat, data: seq<byte>)
    requires |data| <= 32 && Inside(file, ofs, |data|) && data == Sub(file, ofs, |data|)
    ensures |data| == 32 ==> ofs + 32 <= |file| && data == file[ofs..ofs + 32] && PhdrOf(data) == PhdrAt(file, ofs)
    ensures !Inside(file, ofs, 32) ==> !HeaderOk(file, ofs)
    ensures |data| == 32 ==>
              var ph := PhdrAt(file, ofs);
              && (HeaderOk(file, ofs) <==> ph.kind != PT_DYNAMIC && ph.kind != PT_INTERP && ph.kind != PT_SHLIB
                                           && (ph.kind == PT_LOAD ==> ValidSegment(ph, |file|)))
              && (HeaderLoads(file, ofs) <==> HeaderOk(file, ofs) && ph.kind == PT_LOAD)
  {
  }

  lemma SegmentStep(a: Space, mid: Space, b: Space, file: seq<byte>, ofs: int, i: nat, s: Segment, done: nat, ok: bool)
    requires HeadersOk(file, ofs, i) && AllInside(file, SegmentsTo(file, ofs, i)) && HeaderLoads(file, ofs + 32 * i)
    requires SegmentsTo(file, ofs, i + 1) == SegmentsTo(file, ofs, i) + [s]
    requires AllLoaded(mid.view, mid.frames, file, SegmentsTo(file, ofs, i))
    requires done <= PageCnt(s) && Grown(mid, b, SegmentPages(s)[..done])
    requires ok ==> done == PageCnt(s) && Inside(file, s.ofs, s.read) && Loaded(b.view, b.frames, file, s, PageCnt(s))
    requires AllPages(SegmentsTo(file, ofs, i + 1)) == AllPages(SegmentsTo(file, ofs, i)) + SegmentPages(s)
    requires Fits(a, AllPages(SegmentsTo(file, ofs, i + 1))) <==> Fits(mid, SegmentPages(s))
    ensures AllPages(SegmentsTo(file, ofs, i)) + SegmentPages(s)[..done] <= AllPages(SegmentsTo(file, ofs, i + 1))
    ensures HeadersOk(file, ofs, i + 1)
    ensures ok ==> AllInside(file, SegmentsTo(file, ofs, i + 1)) && SegmentPages(s)[..done] == SegmentPages(s)
                   && AllLoaded(b.view, b.frames, file, SegmentsTo(file, ofs, i + 1))
    ensures !(Inside(file, s.ofs, s.read) && Fits(mid, SegmentPages(s))) ==> !Good(a, file, ofs, i + 1)
  {
    GrownKeeps(mid, b, SegmentPages(s)[..done]);
    HeaderNext(a, file, ofs, i);
    assert s in SegmentsTo(file, ofs, i) + [s];
    hide Grown, Fits, Loaded, Inside, Keeps, AllPages, SegmentPages, SegmentsTo, HeadersOk, PageCnt;
    forall r | r in SegmentsTo(file, ofs, i)
      ensures Loaded(b.view, b.frames, file, r, PageCnt(r))
    {
      LoadedStays(mid.view, mid.frames, b.view, b.frames, file, r, PageCnt(r));
    }
  }

  // A program can be run: its headers are good, the file holds its segments,
  // and their pages and the stack page have room.
  ghost predicate CanRun(a: Space, file: seq<byte>) {
    IsExecutable(file) && AllInside(file, Segments(file)) && Fits(a, ProgramPages(file))
  }

  // Byte b is at address at.
  ghost predicate ByteIs(view: imap<Key, Mapping>, frames: Frames, at: nat, writable: bool, b: byte) {
    var u := PageKey(at - at % 4096);
    && u in view && view[u].writable == writable && K(view[u].frame) in frames
    && at % 4096 < |frames[K(view[u].frame)]| && frames[K(view[u].frame)][at % 4096] == b
  }

  // The memory of a segment is what its header says: bytes of the file, then zeros.
  ghost predicate SegmentIs(view: imap<Key, Mapping>, frames: Frames, file: seq<byte>, ph: Phdr) {
    && (ph.filesz == 0 || ph.offset + ph.filesz <= |file|)
    && forall at: nat :: ph.vaddr <= at < ph.vaddr + ph.memsz ==> AddressIs(view, frames, file, ph, at)
  }

  ghost predicate AddressIs(view: imap<Key, Mapping>, frames: Frames, file: seq<byte>, ph: Phdr, at: nat)
    requires ph.vaddr <= at && (ph.filesz == 0 || ph.offset + ph.filesz <= |file|)
  {
    ByteIs(view, frames, at, ph.flags / 2 % 2 == 1,
           if at - ph.vaddr < ph.filesz then file[ph.offset + (at - ph.vaddr)] else 0)
  }

  // So it is for all segments of an executable.
  ghost predicate InMemory(view: imap<Key, Mapping>, frames: Frames, file: seq<byte>)
    requires |file| >= 52
  {
    var e := EhdrOf(file[..52]);
    forall i :: 0 <= i < e.phnum && HeaderLoads(file, Signed32(e.phoff) + 32 * i) ==>
      SegmentIs(view, frames, file, PhdrAt(file, Signed32(e.phoff) + 32 * i))
  }

  // What user code sees of it through the page tables: the bytes of the segments,
  // which it can write exactly in writable ones, and a zeroed stack page.
  ghost predicate UserSees(words: Words, pd: bv32, frames: Frames, file: seq<byte>)
    requires |file| >= 52
  {
    var e := EhdrOf(file[..52]);
    && (forall i :: 0 <= i < e.phnum && HeaderLoads(file, Signed32(e.phoff) + 32 * i) ==>
          SegmentSeen(words, pd, frames, file, PhdrAt(file, Signed32(e.phoff) + 32 * i)))
    && forall at: nat :: STACK_PAGE <= at < PHYS_BASE ==> UserMemory.Finds(words, pd, frames, at, true, 0)
  }

  ghost predicate SegmentSeen(words: Words, pd: bv32, frames: Frames, file: seq<byte>, ph: Phdr) {
    && (ph.filesz == 0 || ph.offset + ph.filesz <= |file|)
    && forall at: nat :: ph.vaddr <= at < ph.vaddr + ph.memsz ==> AddressSeen(words, pd, frames, file, ph, at)
  }

  ghost predicate AddressSeen(words: Words, pd: bv32, frames: Frames, file: seq<byte>, ph: Phdr, at: nat)
    requires ph.vaddr <= at && (ph.filesz == 0 || ph.offset + ph.filesz <= |file|)
  {
    UserMemory.Finds(words, pd, frames, at, ph.flags / 2 % 2 == 1,
                     if at - ph.vaddr < ph.filesz then file[ph.offset + (at - ph.vaddr)] else 0)
  }

  lemma MemoryIsSeen(words: Words, pd: bv32, frames: Frames, file: seq<byte>)
    requires PdOk(words, pd) && |file| >= 52 && InMemory(View(words, pd), frames, file)
    requires PageIs(View(words, pd), frames, 0xbfff_f000, true, Zeros(4096))
    ensures UserSees(words, pd, frames, file)
  {
    hide PdOk, View, EhdrOf, PhdrAt, ValidSegment, SegmentIs, SegmentSeen, Signed32, PageIs, UserMemory.Finds;
    var e := EhdrOf(file[..52]);
    forall i | 0 <= i < e.phnum && HeaderLoads(file, Signed32(e.phoff) + 32 * i)
      ensures SegmentSeen(words, pd, frames, file, PhdrAt(file, Signed32(e.phoff) + 32 * i))
    {
      LoadsValid(file, Signed32(e.phoff) + 32 * i);
      SegmentIsSeen(words, pd, frames, file, PhdrAt(file, Signed32(e.phoff) + 32 * i));
    }
    forall at: nat | STACK_PAGE <= at < PHYS_BASE
      ensures UserMemory.Finds(words, pd, frames, at, true, 0)
    {
      StackSeen(words, pd, frames, at);
    }
  }

  lemma LoadsValid(file: seq<byte>, ofs: int)
    requires HeaderLoads(file, ofs)
    ensures ofs >= 0 && ofs + 32 <= |file| && ValidSegment(PhdrAt(file, ofs), |file|)
  {
  }

  lemma SegmentIsSeen(words: Words, pd: bv32, frames: Frames, file: seq<byte>, ph: Phdr)
    requires PdOk(words, pd) && ValidSegment(ph, |file|) && SegmentIs(View(words, pd), frames, file, ph)
    ensures SegmentSeen(words, pd, frames, file, ph)
  {
    NoWrap(ph.vaddr, ph.memsz);
    hide PdOk, View, ValidSegment, AddressIs, AddressSeen;
    forall at: nat | ph.vaddr <= at < ph.vaddr + ph.memsz
      ensures AddressSeen(words, pd, frames, file, ph, at)
    {
      AddressIsSeen(words, pd, frames, file, ph, at);
    }
  }

  lemma AddressIsSeen(words: Words, pd: bv32, frames: Frames, file: seq<byte>, ph: Phdr, at: nat)
    requires PdOk(words, pd) && ph.vaddr <= at < PHYS_BASE && (ph.filesz == 0 || ph.offset + ph.filesz <= |file|)
    requires AddressIs(View(words, pd), frames, file, ph, at)
    ensures AddressSeen(words, pd, frames, file, ph, at)
  {
    hide PdOk, View, ByteIs, UserMemory.Finds;
    ByteSeen(words, pd, frames, at, ph.flags / 2 % 2 == 1,
             if at - ph.vaddr < ph.filesz then file[ph.offset + (at - ph.vaddr)] else 0);
  }

  lemma ByteSeen(words: Words, pd: bv32, frames: Frames, at: nat, writable: bool, b: byte)
    requires PdOk(words, pd) && at < PHYS_BASE && ByteIs(View(words, pd), frames, at, writable, b)
    ensures UserMemory.Finds(words, pd, frames, at, writable, b)
  {
    hide PdOk, View, Bits, UserMemory.Finds;
    UserMemory.ByteFound(words, pd, frames, at, writable, b);
  }

  lemma StackSeen(words: Words, pd: bv32, frames: Frames, at: nat)
    requires PdOk(words, pd) && STACK_PAGE <= at < PHYS_BASE
    requires PageIs(View(words, pd), frames, 0xbfff_f000, true, Zeros(4096))
    ensures UserMemory.Finds(words, pd, frames, at, true, 0)
  {
    hide PdOk, View, Bits, UserMemory.Finds, UserAddr, PgOfs;
    StackBits();
    assert at - at % 4096 == STACK_PAGE;
    ByteSeen(words, pd, frames, at, true, 0);
  }

  lemma LoadedIsMemory(view: imap<Key, Mapping>, frames: Frames, file: seq<byte>, ph: Phdr)
    requires ValidSegment(ph, |file|)
    requires var s := SegmentOf(ph); Inside(file, s.ofs, s.read) && Loaded(view, frames, file, s, PageCnt(s))
    ensures SegmentIs(view, frames, file, ph)
  {
    var s := SegmentOf(ph);
    ValidIsLoadable(ph, |file|);
    assert s.writable == (ph.flags / 2 % 2 == 1);
    hide ValidSegment, SegmentOf, Bits, Loaded;
    forall at: nat | ph.vaddr <= at < ph.vaddr + ph.memsz
      ensures AddressIs(view, frames, file, ph, at)
    {
      hide ByteIs, Loadable;
      ByteLoaded(view, frames, file, s, at);
    }
  }

  lemma PlaceOf(s: Segment, at: nat) returns (i: nat)
    requires Loadable(s) && s.upage <= at < s.upage + s.read + s.zero
    ensures i < PageCnt(s) && at - at % 4096 == s.upage + 4096 * i && at - s.upage == 4096 * i + at % 4096
  {
    i := (at - s.upage) / 4096;
    assert s.upage == 4096 * (s.upage / 4096);
    assert at / 4096 == s.upage / 4096 + i;
  }

  // An address of a segment.
  lemma ByteLoaded(view: imap<Key, Mapping>, frames: Frames, file: seq<byte>, s: Segment, at: nat)
    requires Loadable(s) && s.upage <= at < s.upage + s.read + s.zero && Loaded(view, frames, file, s, PageCnt(s))
    ensures ByteIs(view, frames, at, s.writable, SegmentByte(file, s, at - s.upage))
  {
    var i := PlaceOf(s, at);
    hide Bits, SegmentByte, PageCnt, Loadable;
    assert PageIs(view, frames, Bits(s.upage + 4096 * i), s.writable, SegmentPage(file, s, i));
  }

  lemma {:induction false} SegmentOfHeader(file: seq<byte>, ofs: int, n: nat, i: nat)
    requires i < n && HeaderLoads(file, ofs + 32 * i)
    ensures SegmentOf(PhdrAt(file, ofs + 32 * i)) in SegmentsTo(file, ofs, n)
  {
    hide HeaderLoads, SegmentOf, PhdrAt;
    if i < n - 1 { SegmentOfHeader(file, ofs, n - 1, i); }
  }

  lemma ProgramLoaded(view: imap<Key, Mapping>, frames: Frames, file: seq<byte>)
    requires |file| >= 52 && AllInside(file, Segments(file)) && AllLoaded(view, frames, file, Segments(file))
    ensures InMemory(view, frames, file)
  {
    var e := EhdrOf(file[..52]);
    forall i | 0 <= i < e.phnum && HeaderLoads(file, Signed32(e.phoff) + 32 * i)
      ensures SegmentIs(view, frames, file, PhdrAt(file, Signed32(e.phoff) + 32 * i))
    {
      SegmentOfHeader(file, Signed32(e.phoff), e.phnum, i);
      hide Inside, Loaded, SegmentIs, SegmentOf, PhdrAt, ValidSegment, SegmentsTo, Signed32, EhdrOf;
      LoadedIsMemory(view, frames, file, PhdrAt(file, Signed32(e.phoff) + 32 * i));
    }
  }

  lemma PagesFirst(file: seq<byte>, pages: seq<nat>)
    requires |file| >= 52 && pages <= AllPages(Segments(file))
    ensures pages <= ProgramPages(file)
  {
    hide AllPages, Segments;
  }

  // When all segments are in place, it is up to the stack page.
  lemma StackNext(a: Space, mid: Space, file: seq<byte>)
    requires |file| >= 52 && GoodEhdr(EhdrOf(file[..52])) && Grown(a, mid, AllPages(Segments(file)))
    requires Good(a, file, Signed32(EhdrOf(file[..52]).phoff), EhdrOf(file[..52]).phnum)
    ensures IsExecutable(file) && AllInside(file, Segments(file))
    ensures CanRun(a, file) <==> Fits(mid, [STACK_PAGE])
  {
    hide HeadersOk, AllInside, Fits, SegmentsTo, EhdrOf, GoodEhdr, Signed32, AllPages, Grown;
    FitsMore(a, mid, AllPages(Segments(file)), [STACK_PAGE]);
  }

  lemma StackLoaded(a: Space, mid: Space, b: Space, file: seq<byte>)
    requires |file| >= 52 && AllInside(file, Segments(file)) && AllLoaded(mid.view, mid.frames, file, Segments(file))
    requires Grown(a, mid, AllPages(Segments(file))) && Grown(mid, b, [STACK_PAGE])
    ensures Grown(a, b, ProgramPages(file)) && InMemory(b.view, b.frames, file)
  {
    GrownKeeps(mid, b, [STACK_PAGE]);
    hide AllInside, Grown, Segments, AllPages, Loaded, PageCnt, InMemory, Keeps;
    GrownMore(a, mid, b, AllPages(Segments(file)), [STACK_PAGE]);
    forall s | s in Segments(file)
      ensures Loaded(b.view, b.frames, file, s, PageCnt(s))
    {
      LoadedStays(mid.view, mid.frames, b.view, b.frames, file, s, PageCnt(s));
    }
    ProgramLoaded(b.view, b.frames, file);
  }

  // What reading the first header settles.
  lemma HeaderRead(a: Space, file: seq<byte>, data: seq<byte>)
    requires |data| <= 52 && Inside(file, 0, |data|) && data == Sub(file, 0, |data|)
    ensures |data| == 52 ==> |file| >= 52 && data == file[..52]
    ensures !Inside(file, 0, 52) ==> !CanRun(a, file)
    ensures |data| == 52 ==> var e := EhdrOf(data);
                             IsExecutable(file) <==> GoodEhdr(e) && HeadersOk(file, Signed32(e.phoff), e.phnum)
    ensures |data| == 52 ==> Segments(file) == SegmentsTo(file, Signed32(EhdrOf(data).phoff), EhdrOf(data).phnum)
    ensures CanRun(a, file) ==> IsExecutable(file) && |file| >= 52
    ensures CanRun(a, file) ==> var e := EhdrOf(file[..52]); Good(a, file, Signed32(e.phoff), e.phnum)
    ensures [] <= if |file| >= 52 then ProgramPages(file) else []
  {
    hide HeadersOk, AllInside, Fits, SegmentsTo, EhdrOf, GoodEhdr, Signed32, AllPages;
    if CanRun(a, file) { FitsPrefix(a, AllPages(Segments(file)), [STACK_PAGE]); }
  }

  // A process from its page directory on: if it cannot be loaded, the address
  // space is destroyed, and memory is as it was.
  method Execute(mem: Memory, supply: Supply, file: seq<byte>) returns (space: AddressSpace?, entry: word)
    requires mem.Valid() && |file| < 0x8000_0000
    modifies mem`words, mem`free, mem`released, supply
    ensures mem.Valid() && supply.Failures() >= old(supply.Failures())
    ensures supply.Failures() == old(supply.Failures()) ==>
              (space != null <==> old(mem.Pool(false)) != {} && CanRun(old(FreshSpace(mem)), file))
    ensures space == null ==> mem.free == old(mem.free) && mem.words == old(mem.words)
    ensures space != null ==> fresh(space) && space.mem == mem && space.Valid() && IsExecutable(file)
    ensures space != null ==> entry == EhdrOf(file[..52]).entry && InMemory(space.UserView(), space.frames, file)
    ensures space != null ==> PageIs(space.UserView(), space.frames, 0xbfff_f000, true, Zeros(4096))
    ensures space != null ==> UserSees(mem.words, space.pd, space.frames, file)
    ensures space != null ==> NothingElse(mem.words, space.pd, ProgramPages(file))
    ensures space != null ==> Grown(old(FreshSpace(mem)), space.Now(), ProgramPages(file))
    ensures space != null ==> Rest(mem.words, space.pd) == old(mem.words)
                              && space.Everything() == old(mem.free) + old(mem.words).Keys
  {
    hide *;
    space, entry := null, 0;
    ghost var free, words := mem.free, mem.words;
    NothingLost(mem);
    PoolsAre(mem);
    FreshIs(mem);
    var pd := mem.Create();
    if pd == 0 {
      return;
    }
    var made := new AddressSpace(mem, supply, pd);
    ghost var a := made.Now();
    NewIs(free, words, made);
    made.NowIs();
    var ok;
    ghost var pages;
    ok, entry, pages := made.Load(file);
    made.NowIs();
    RestStays(a, made.Now(), pages);
    if ok {
      made.ValidParts();
      OnlyTheProgram(made, free * mem.userPool, free - mem.userPool, words, pages);
      space := made;
    } else {
      made.Destroy();
    }
  }

  // User code that touches a page other than these faults.
  ghost predicate NothingElse(words: Words, pd: bv32, pages: seq<nat>) {
    forall at: nat :: at < PHYS_BASE && !Among(pages, PageKey(at - at % 4096)) ==> UserMemory.Faults(words, pd, at)
  }

  lemma OnlyTheProgram(space: AddressSpace, user: set<Key>, kernel: set<Key>, words: Words, pages: seq<nat>)
    requires space.Valid() && Grown(NewSpace(user, kernel, words), space.Now(), pages)
    ensures NothingElse(space.mem.words, space.pd, pages)
  {
    OnlyPages(user, kernel, words, space.Now(), pages);
    hide PdOk, View, FramesOk, OnlyIn;
    NothingOutside(space.mem.words, space.pd, pages);
  }

  ghost predicate OnlyIn(view: imap<Key, Mapping>, pages: seq<nat>) {
    forall u :: u in view ==> Among(pages, u)
  }

  lemma OnlyPages(user: set<Key>, kernel: set<Key>, words: Words, b: Space, pages: seq<nat>)
    requires Grown(NewSpace(user, kernel, words), b, pages)
    ensures OnlyIn(b.view, pages)
  {
    hide Among, Unmapped, Slots;
  }

  lemma NothingOutside(words: Words, pd: bv32, pages: seq<nat>)
    requires PdOk(words, pd) && OnlyIn(View(words, pd), pages)
    ensures NothingElse(words, pd, pages)
  {
    hide PdOk, View, Among, UserMemory.Faults, PageKey;
    forall at: nat | at < PHYS_BASE && !Among(pages, PageKey(at - at % 4096))
      ensures UserMemory.Faults(words, pd, at)
    {
      KeyOf(at - at % 4096);
      UserMemory.NothingFound(words, pd, at);
    }
  }

  lemma KeyOf(p: nat)
    ensures PageKey(p) == K(Bits(p))
  {
  }

  ghost function FreshSpace(mem: Memory): Space
    reads mem
  {
    NewSpace(mem.Pool(true), mem.Pool(false), mem.words)
  }

  lemma FreshIs(mem: Memory)
    ensures FreshSpace(mem) == NewSpace(mem.Pool(true), mem.Pool(false), mem.words)
  {
  }

  // An address space in which nothing is mapped yet.
  ghost function NewSpace(user: set<Key>, kernel: set<Key>, words: Words): Space {
    Space(imap[], map[], {}, |user|, if |kernel| == 0 then 0 else |kernel| - 1, words)
  }

  lemma PoolsAre(mem: Memory)
    ensures mem.Pool(true) == mem.free * mem.userPool && mem.Pool(false) == mem.free - mem.userPool
  {
  }

  lemma NothingLost(mem: Memory)
    requires mem.Valid()
    ensures mem.free + mem.words.Keys - mem.words.Keys == mem.free
  {
  }

  lemma NewIs(free: set<Key>, words: Words, space: AddressSpace)
    requires var mem, pd := space.mem, K(space.pd);
             && pd in free - mem.userPool && mem.free == free - {pd} && pd !in words && pd in mem.words
             && mem.words == words[pd := mem.words[pd]] && space.frames == map[] && View(mem.words, space.pd) == imap[]
             && forall i: bv32 :: i < 768 ==> !HasTable(mem.words, space.pd, i)
    ensures space.Now() == NewSpace(free * space.mem.userPool, free - space.mem.userPool, words)
    ensures space.Everything() == free + words.Keys && space.Now().rest == words
  {
    hide *;
    var mem, pd := space.mem, space.pd;
    NoTables(mem.words, pd);
    NoRest(words, pd, mem.words);
    OneKernelPage(free, mem.userPool, K(pd));
    PagePut(free, words, K(pd), mem.words[K(pd)]);
    space.NowIs();
    NewSpaceIs(free * mem.userPool, free - mem.userPool, words);
  }

  lemma NewSpaceIs(user: set<Key>, kernel: set<Key>, words: Words)
    requires |kernel| > 0
    ensures NewSpace(user, kernel, words) == Space(imap[], map[], {}, |user|, |kernel| - 1, words)
  {
  }

  lemma PagePut(free: set<Key>, words: Words, k: Key, t: Table)
    requires k in free
    ensures (free - {k}) + words[k := t].Keys == free + words.Keys
  {
  }

  lemma NoRest(words: Words, pd: bv32, words': Words)
    requires K(pd) !in words && K(pd) in words' && words' == words[K(pd) := words'[K(pd)]]
    requires forall i: bv32 :: i < 768 ==> !HasTable(words', pd, i)
    ensures Rest(words', pd) == words
  {
    assert forall k :: !IsTable(words', pd, k);
    hide IsTable, HasTable;
  }

  lemma NoTables(words: Words, pd: bv32)
    requires forall i: bv32 :: i < 768 ==> !HasTable(words, pd, i)
    ensures Tables(words, pd) == {}
  {
    forall k: Key | k.bits < 768
      ensures k !in Tables(words, pd)
    {
      TablesAre(words, pd, k.bits);
    }
  }

  lemma RestStays(a: Space, b: Space, pages: seq<nat>)
    requires Grown(a, b, pages)
    ensures b.rest == a.rest
  {
  }

  ghost predicate NoneTwice(pages: seq<nat>) {
    forall i, j :: 0 <= i < j < |pages| ==> pages[i] != pages[j]
  }

  // What this comes to in a new address space: no page of the program comes up
  // twice, and there are enough pages, for each of its own and for each table.
  lemma FitsInNewSpace(user: set<Key>, kernel: set<Key>, words: Words, file: seq<byte>)
    requires |file| >= 52
    ensures var a, pages := NewSpace(user, kernel, words), ProgramPages(file);
            Fits(a, pages) <==> NoneTwice(pages) && |pages| <= |user| && |Slots(pages)| <= a.kernel
  {
    var e, pages := EhdrOf(file[..52]), ProgramPages(file);
    SegmentsLoadable(file, Signed32(e.phoff), e.phnum);
    PagesInUser(Segments(file));
    hide EhdrOf, SegmentsTo, AllPages, Loadable, Slots, Bits;
    forall i, j | 0 <= i < j < |pages|
      ensures PageKey(pages[i]) != PageKey(pages[j]) <==> pages[i] != pages[j]
    {
      assert pages[i] in pages && pages[j] in pages;
      if pages[i] != pages[j] { PagesDiffer(pages[i], pages[j]); }
    }
    assert Slots(pages) - {} == Slots(pages);
    hide PageKey;
    assert Unmapped(imap[], pages) ==> NoneTwice(pages) by {
      forall i, j | Unmapped(imap[], pages) && 0 <= i < j < |pages|
        ensures pages[i] != pages[j]
      {
        assert PageKey(pages[i]) != PageKey(pages[j]);
      }
    }
  }
}
