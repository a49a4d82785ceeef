// The two-level page tables of a process, as words of memory.
module PageTables {

  // An address or an index as the key of a map.
  datatype Key = K(bits: bv32)

  // Memory that holds page tables: for each page its 1024 words.
  type Table = map<Key, bv32>
  type Words = map<Key, Table>

  // ---- Addresses. ----

  function PgOfs(va: bv32): bv32 { va & 0xfff }
  function PtNo(va: bv32): bv32 { (va & 0x3f_f000) >> 12 }
  function PdNo(va: bv32): bv32 { va >> 22 }
  function RoundDown(va: bv32): bv32 { va & 0xffff_f000 }

  predicate UserAddr(va: bv32) { va < 0xc000_0000 }

  // The page frames of the kernel: aligned addresses in the kernel's range.
  predicate KernelPage(p: bv32) { p >= 0xc000_0000 && PgOfs(p) == 0 }

  function Vtop(va: bv32): bv32
    requires !UserAddr(va)
  {
    va - 0xc000_0000
  }

  // Directory index, table index and offset make up an address.
  lemma AddressParts(va: bv32)
    ensures PdNo(va) < 1024 && PtNo(va) < 1024
    ensures va == (PdNo(va) << 22) | (PtNo(va) << 12) | PgOfs(va)
  {
  }

  lemma UserHalf(va: bv32)
    ensures UserAddr(va) <==> PdNo(va) < 768
  {
  }

  lemma PageParts(va: bv32)
    ensures RoundDown(va) | PgOfs(va) == va && PgOfs(RoundDown(va)) == 0
    ensures PdNo(RoundDown(va)) == PdNo(va) && PtNo(RoundDown(va)) == PtNo(va)
  {
  }

  lemma IndicesMakePage(va: bv32)
    ensures RoundDown(va) == (PdNo(va) << 22) | (PtNo(va) << 12)
  {
  }

  // Two addresses have the same indices exactly when they lie in one page.
  lemma SamePage(va: bv32, vb: bv32)
    ensures PdNo(va) == PdNo(vb) && PtNo(va) == PtNo(vb) <==> RoundDown(va) == RoundDown(vb)
  {
    hide PdNo, PtNo, RoundDown, PgOfs;
    PageParts(va);
    PageParts(vb);
    IndicesMakePage(va);
    IndicesMakePage(vb);
  }

  // ---- Entries. ----

  function Present(e: bv32): bool { e & 1 != 0 }
  function Writable(e: bv32): bool { e & 2 != 0 }
  function User(e: bv32): bool { e & 4 != 0 }
  function Dirty(e: bv32): bool { e & 0x40 != 0 }
  function Accessed(e: bv32): bool { e & 0x20 != 0 }

  // An entry whose address lies in the memory the kernel maps.
  predicate InRange(e: bv32) { (e & 0xffff_f000) < 0x4000_0000 }

  function PdeCreate(pt: bv32): bv32
    requires KernelPage(pt)
  {
    Vtop(pt) | 4 | 1 | 2
  }

  function PageAt(e: bv32): bv32 {
    (e & 0xffff_f000) + 0xc000_0000
  }

  function PteCreateUser(page: bv32, writable: bool): bv32
    requires KernelPage(page)
  {
    Vtop(page) | 1 | (if writable then 2 else 0) | 4
  }

  lemma EntryRoundTrip(page: bv32, writable: bool)
    requires KernelPage(page)
    ensures var e := PteCreateUser(page, writable);
            && PageAt(e) == page && Present(e) && Writable(e) == writable && User(e) && InRange(e)
            && !Dirty(e) && !Accessed(e)
    ensures var e := PdeCreate(page); PageAt(e) == page && Present(e) && Writable(e) && User(e) && InRange(e) && e != 0
  {
  }

  // What the bits of an entry mean besides D and A.
  predicate SameMapping(e: bv32, f: bv32) {
    && Present(f) == Present(e) && Writable(f) == Writable(e) && User(f) == User(e)
    && PageAt(f) == PageAt(e) && InRange(f) == InRange(e)
  }

  // Changing a flag leaves the rest of an entry.
  lemma PresentCleared(e: bv32)
    ensures var f := e & 0xffff_fffe;
            !Present(f) && Writable(f) == Writable(e) && User(f) == User(e) && PageAt(f) == PageAt(e) && InRange(f) == InRange(e)
            && Dirty(f) == Dirty(e) && Accessed(f) == Accessed(e)
  {
  }

  function WithDirty(e: bv32, dirty: bool): bv32 {
    if dirty then e | 0x40 else e & 0xffff_ffbf
  }

  function WithAccessed(e: bv32, accessed: bool): bv32 {
    if accessed then e | 0x20 else e & 0xffff_ffdf
  }

  lemma DirtySet(e: bv32)
    ensures var f := e | 0x40; SameMapping(e, f) && Dirty(f) && Accessed(f) == Accessed(e)
  {
  }

  lemma DirtyCleared(e: bv32)
    ensures var f := e & 0xffff_ffbf; SameMapping(e, f) && !Dirty(f) && Accessed(f) == Accessed(e)
  {
  }

  lemma AccessedSet(e: bv32)
    ensures var f := e | 0x20; SameMapping(e, f) && Accessed(f) && Dirty(f) == Dirty(e)
  {
  }

  lemma AccessedCleared(e: bv32)
    ensures var f := e & 0xffff_ffdf; SameMapping(e, f) && !Accessed(f) && Dirty(f) == Dirty(e)
  {
  }

  lemma DirtyChanged(e: bv32, dirty: bool)
    ensures var f := WithDirty(e, dirty); SameMapping(e, f) && Dirty(f) == dirty && Accessed(f) == Accessed(e)
  {
    hide SameMapping, Dirty, Accessed;
    if dirty { DirtySet(e); } else { DirtyCleared(e); }
  }

  lemma AccessedChanged(e: bv32, accessed: bool)
    ensures var f := WithAccessed(e, accessed);
            SameMapping(e, f) && Accessed(f) == accessed && Dirty(f) == Dirty(e)
  {
    hide SameMapping, Dirty, Accessed;
    if accessed { AccessedSet(e); } else { AccessedCleared(e); }
  }

  // ---- A page directory and what it maps. ----

  datatype Mapping = Mapping(frame: bv32, writable: bool)
  datatype Slot = NoSlot | Slot(pt: bv32, index: bv32)

  predicate UserPage(u: bv32) { UserAddr(u) && PgOfs(u) == 0 }

  // The page directory entry for index i: empty or pointing to a table.
  ghost predicate PdeOk(words: Words, pd: bv32, i: bv32) {
    && K(pd) in words && K(i) in words[K(pd)]
    && var e := words[K(pd)][K(i)];
       e != 0 ==> && Present(e) && InRange(e) && PageAt(e) != pd && TableOk(words, PageAt(e))
  }

  ghost predicate TableOk(words: Words, pt: bv32) {
    KernelPage(pt) && K(pt) in words
    && forall k: bv32 :: k < 1024 ==> K(k) in words[K(pt)] && (Present(words[K(pt)][K(k)]) ==> InRange(words[K(pt)][K(k)]))
  }

  // Distinct entries have distinct tables.
  ghost predicate PdesApart(words: Words, pd: bv32) {
    forall i: bv32, j: bv32 :: i < 768 && j < 768 && i != j && HasTable(words, pd, i) && HasTable(words, pd, j) ==>
      TableOf(words, pd, i) != TableOf(words, pd, j)
  }

  ghost predicate HasTable(words: Words, pd: bv32, i: bv32) {
    K(pd) in words && K(i) in words[K(pd)] && words[K(pd)][K(i)] != 0
  }

  ghost function TableOf(words: Words, pd: bv32, i: bv32): bv32
    requires HasTable(words, pd, i)
  {
    PageAt(words[K(pd)][K(i)])
  }

  // Every table for user addresses is open to user code, for reading and
  // writing, and so is every page it maps, for reading at least.
  ghost predicate Open(words: Words, pd: bv32) {
    forall i: bv32 :: i < 768 ==> PdeOpen(words, pd, i)
  }

  ghost predicate PdeOpen(words: Words, pd: bv32, i: bv32) {
    HasTable(words, pd, i) ==>
      User(words[K(pd)][K(i)]) && Writable(words[K(pd)][K(i)]) && TableOpen(words, TableOf(words, pd, i))
  }

  ghost predicate TableOpen(words: Words, pt: bv32) {
    K(pt) in words ==> forall k: bv32 :: k < 1024 && K(k) in words[K(pt)] && Present(words[K(pt)][K(k)]) ==> User(words[K(pt)][K(k)])
  }

  ghost predicate PdOk(words: Words, pd: bv32) {
    && K(pd) in words && KernelPage(pd) && (forall i: bv32 :: i < 768 ==> PdeOk(words, pd, i)) && PdesApart(words, pd)
    && Open(words, pd)
  }

  // A store of e through s keeps user pages open: e is for a user page, or s is
  // in none of the tables for user addresses.
  ghost predicate MayStore(words: Words, pd: bv32, s: Slot, e: bv32)
    requires s.Slot?
  {
    (Present(e) ==> User(e)) || forall j: bv32 :: j < 768 && HasTable(words, pd, j) ==> TableOf(words, pd, j) != s.pt
  }

  // What may be looked up: a user address, or a kernel address whose directory
  // entry is empty or leads to a table that serves no user address.
  ghost predicate Lookable(words: Words, pd: bv32, va: bv32) {
    UserAddr(va) || (PdeOk(words, pd, PdNo(va)) && ApartFromUser(words, pd, PdNo(va)))
  }

  ghost predicate ApartFromUser(words: Words, pd: bv32, i: bv32) {
    HasTable(words, pd, i) ==>
      forall j: bv32 :: j < 768 && HasTable(words, pd, j) ==> TableOf(words, pd, j) != TableOf(words, pd, i)
  }

  // lookup_page without creating: where the entry for an address is.
  ghost function Find(words: Words, pd: bv32, va: bv32): Slot {
    if HasTable(words, pd, PdNo(va)) then Slot(TableOf(words, pd, PdNo(va)), PtNo(va)) else NoSlot
  }

  ghost function Entry(words: Words, s: Slot): bv32 {
    if s.Slot? && K(s.pt) in words && K(s.index) in words[K(s.pt)] then words[K(s.pt)][K(s.index)] else 0
  }

  ghost function EntryFor(words: Words, pd: bv32, va: bv32): bv32 {
    Entry(words, Find(words, pd, va))
  }

  ghost function MappingOf(e: bv32): Mapping {
    Mapping(PageAt(e), Writable(e))
  }

  // The finite map a page directory stands for.
  ghost function View(words: Words, pd: bv32): imap<Key, Mapping> {
    imap k: Key | UserPage(k.bits) && Present(EntryFor(words, pd, k.bits)) :: MappingOf(EntryFor(words, pd, k.bits))
  }

  // What the map says of an address is what its entry says.
  lemma ViewAt(words: Words, pd: bv32, va: bv32)
    requires UserAddr(va)
    ensures var u := K(RoundDown(va));
            && (u in View(words, pd) <==> Present(EntryFor(words, pd, va)))
            && (u in View(words, pd) ==> View(words, pd)[u] == MappingOf(EntryFor(words, pd, va)))
  {
    hide Present, MappingOf, Entry;
    PageParts(va);
    UserHalf(va);
    UserHalf(RoundDown(va));
    assert Find(words, pd, RoundDown(va)) == Find(words, pd, va);
    hide Find, PdNo, PtNo, RoundDown;
  }

  // ---- Changing one entry. ----

  function Poke(words: Words, s: Slot, e: bv32): Words
    requires s.Slot? && K(s.pt) in words
  {
    words[K(s.pt) := words[K(s.pt)][K(s.index) := e]]
  }

  lemma FindOk(words: Words, pd: bv32, va: bv32)
    requires PdOk(words, pd) && Lookable(words, pd, va)
    ensures K(pd) in words
    ensures var s := Find(words, pd, va);
            s.Slot? ==> s.index < 1024 && s.pt != pd && TableOk(words, s.pt) && K(s.pt) in words
  {
    UserHalf(va);
    AddressParts(va);
    assert PdeOk(words, pd, PdNo(va));
  }

  // The entry of an address serves user addresses only in its own page.
  lemma SlotsApart(words: Words, pd: bv32, va: bv32, vb: bv32)
    requires PdOk(words, pd) && Lookable(words, pd, va) && UserAddr(vb) && RoundDown(va) != RoundDown(vb)
    requires Find(words, pd, va).Slot?
    ensures Find(words, pd, va) != Find(words, pd, vb)
  {
    hide PdNo, PtNo, RoundDown, PageAt;
    UserHalf(va);
    UserHalf(vb);
    SamePage(va, vb);
  }

  // Writing an entry keeps the directory well formed and changes what is found
  // for that page only.
  lemma Poked(words: Words, pd: bv32, s: Slot, e: bv32)
    requires PdOk(words, pd) && s.Slot? && K(s.pt) in words && s.pt != pd && (Present(e) ==> InRange(e))
    requires MayStore(words, pd, s, e)
    ensures PdOk(Poke(words, s, e), pd) && Poke(words, s, e)[K(pd)] == words[K(pd)]
  {
    hide Present, InRange, PageAt, KernelPage, User, Writable;
    var words' := Poke(words, s, e);
    assert words'[K(pd)] == words[K(pd)];
    PokedOpen(words, pd, s, e);
    hide Open, MayStore;
    forall i: bv32 | i < 768
      ensures PdeOk(words', pd, i)
    {
      assert PdeOk(words, pd, i);
    }
    forall i: bv32, j: bv32 | i < 768 && j < 768 && i != j && HasTable(words', pd, i) && HasTable(words', pd, j)
      ensures TableOf(words', pd, i) != TableOf(words', pd, j)
    {
      assert HasTable(words, pd, i) && HasTable(words, pd, j);
    }
  }

  lemma PokedOpen(words: Words, pd: bv32, s: Slot, e: bv32)
    requires Open(words, pd) && K(pd) in words && s.Slot? && K(s.pt) in words && s.pt != pd && MayStore(words, pd, s, e)
    ensures Open(Poke(words, s, e), pd)
  {
    hide Present, PageAt, User, Writable;
    var words' := Poke(words, s, e);
    assert words'[K(pd)] == words[K(pd)];
    forall i: bv32 | i < 768
      ensures PdeOpen(words', pd, i)
    {
      assert PdeOpen(words, pd, i);
    }
  }

  lemma PokedEntry(words: Words, pd: bv32, va: bv32, e: bv32, vb: bv32)
    requires PdOk(words, pd) && Lookable(words, pd, va) && UserAddr(vb) && Find(words, pd, va).Slot?
    ensures K(Find(words, pd, va).pt) in words
    ensures EntryFor(Poke(words, Find(words, pd, va), e), pd, vb) ==
            if RoundDown(vb) == RoundDown(va) then e else EntryFor(words, pd, vb)
  {
    hide PdNo, PtNo, RoundDown, PageAt, PdOk, TableOk;
    FindOk(words, pd, va);
    FindOk(words, pd, vb);
    SamePage(va, vb);
    var s, words' := Find(words, pd, va), Poke(words, Find(words, pd, va), e);
    assert words'[K(pd)] == words[K(pd)];
    assert Find(words', pd, vb) == Find(words, pd, vb);
    if RoundDown(vb) != RoundDown(va) { SlotsApart(words, pd, va, vb); }
  }

  // ---- A new page table. ----

  function ZeroTable(n: bv32): Table {
    if n == 0 then map[] else WithZero(ZeroTable(n - 1), K(n - 1))
  }

  function WithZero(t: Table, k: Key): Table {
    t[k := 0]
  }

  lemma Below(n: bv32, i: bv32)
    requires i < n <= 1024
    ensures n - 1 < n && i <= n - 1
  {
  }

  lemma {:induction false} ZeroAt(n: bv32, i: bv32)
    requires i < n <= 1024
    ensures K(i) in ZeroTable(n) && ZeroTable(n)[K(i)] == 0
  {
    var m := n - 1;
    Below(n, i);
    assert ZeroTable(n) == WithZero(ZeroTable(m), K(m));
    if i != m { ZeroAt(m, i); }
  }

  function AddTable(words: Words, pd: bv32, i: bv32, pt: bv32): Words
    requires K(pd) in words && KernelPage(pt)
  {
    words[K(pt) := ZeroTable(1024)][K(pd) := words[K(pd)][K(i) := PdeCreate(pt)]]
  }

  lemma TableAdded(words: Words, pd: bv32, i: bv32, pt: bv32)
    requires PdOk(words, pd) && i < 768 && KernelPage(pt) && K(pt) !in words && !HasTable(words, pd, i)
    ensures PdOk(AddTable(words, pd, i, pt), pd)
  {
    var words' := AddTable(words, pd, i, pt);
    forall j: bv32 | j < 768
      ensures PdeOk(words', pd, j)
    {
      PdeStillOk(words, pd, i, pt, j);
    }
    AddedOpen(words, pd, i, pt);
    hide ZeroTable, PdeCreate, PageAt, Present, InRange, KernelPage, PdeOk, TableOf, HasTable, Open;
    forall j: bv32, k: bv32 | j < 768 && k < 768 && j != k && HasTable(words', pd, j) && HasTable(words', pd, k)
      ensures TableOf(words', pd, j) != TableOf(words', pd, k)
    {
      TableFrom(words, pd, i, pt, j);
      TableFrom(words, pd, i, pt, k);
    }
  }

  lemma PdeStillOk(words: Words, pd: bv32, i: bv32, pt: bv32, j: bv32)
    requires PdOk(words, pd) && i < 768 && j < 768 && KernelPage(pt) && K(pt) !in words
    ensures PdeOk(AddTable(words, pd, i, pt), pd, j)
  {
    EntryRoundTrip(pt, true);
    NewTableOk(AddTable(words, pd, i, pt), pt);
    assert PdeOk(words, pd, j);
    hide ZeroTable, PdeCreate, PageAt, Present, InRange, KernelPage, PdesApart;
  }

  lemma AddedOpen(words: Words, pd: bv32, i: bv32, pt: bv32)
    requires PdOk(words, pd) && i < 768 && KernelPage(pt) && K(pt) !in words
    ensures Open(AddTable(words, pd, i, pt), pd)
  {
    var words' := AddTable(words, pd, i, pt);
    EntryRoundTrip(pt, true);
    NewTableOpen(words', pt);
    hide ZeroTable, PdeCreate, PageAt, Present, User, Writable, InRange, KernelPage, PdesApart, TableOpen;
    forall j: bv32 | j < 768
      ensures PdeOpen(words', pd, j)
    {
      assert PdeOpen(words, pd, j) && PdeOk(words, pd, j);
      if j != i && HasTable(words', pd, j) { SameTableOpen(words, words', TableOf(words, pd, j)); }
    }
  }

  lemma SameTableOpen(words: Words, words': Words, pt: bv32)
    requires K(pt) in words && K(pt) in words' && words'[K(pt)] == words[K(pt)] && TableOpen(words, pt)
    ensures TableOpen(words', pt)
  {
    hide Present, User;
  }

  lemma NewTableOpen(words: Words, pt: bv32)
    requires K(pt) in words && words[K(pt)] == ZeroTable(1024)
    ensures TableOpen(words, pt)
  {
    hide ZeroTable;
    forall k: bv32 | k < 1024
      ensures K(k) in words[K(pt)] && words[K(pt)][K(k)] == 0
    {
      ZeroAt(1024, k);
    }
  }

  // Each slot has the table it had, or the new one, which no other slot has.
  lemma TableFrom(words: Words, pd: bv32, i: bv32, pt: bv32, j: bv32)
    requires PdOk(words, pd) && i < 768 && j < 768 && KernelPage(pt) && K(pt) !in words
    requires HasTable(AddTable(words, pd, i, pt), pd, j)
    ensures j == i ==> TableOf(AddTable(words, pd, i, pt), pd, j) == pt
    ensures j != i ==> HasTable(words, pd, j) && TableOf(AddTable(words, pd, i, pt), pd, j) == TableOf(words, pd, j) != pt
  {
    assert PdeOk(words, pd, j);
    EntryRoundTrip(pt, true);
    hide ZeroTable, PdeCreate, PageAt, Present, InRange, KernelPage, PdesApart;
  }

  lemma NewTableOk(words: Words, pt: bv32)
    requires KernelPage(pt) && K(pt) in words && words[K(pt)] == ZeroTable(1024)
    ensures TableOk(words, pt)
  {
    hide ZeroTable;
    forall k: bv32 | k < 1024
      ensures K(k) in words[K(pt)] && words[K(pt)][K(k)] == 0
    {
      ZeroAt(1024, k);
    }
  }

  // Its entries are all empty, so nothing new is mapped.
  lemma TableAddedEntry(words: Words, pd: bv32, i: bv32, pt: bv32, va: bv32)
    requires PdOk(words, pd) && i < 768 && KernelPage(pt) && K(pt) !in words && !HasTable(words, pd, i) && UserAddr(va)
    ensures EntryFor(AddTable(words, pd, i, pt), pd, va) == EntryFor(words, pd, va)
    ensures PdNo(va) == i ==> Find(AddTable(words, pd, i, pt), pd, va) == Slot(pt, PtNo(va))
  {
    hide PdNo, PtNo, ZeroTable, PdeCreate, Present, InRange, KernelPage, PageAt, PdesApart;
    EntryRoundTrip(pt, true);
    UserHalf(va);
    AddressParts(va);
    var words' := AddTable(words, pd, i, pt);
    assert PdeOk(words, pd, PdNo(va));
    if PdNo(va) == i {
      assert words'[K(pt)] == ZeroTable(1024);
      ZeroAt(1024, PtNo(va));
    } else {
      assert words'[K(pd)][K(PdNo(va))] == words[K(pd)][K(PdNo(va))];
    }
  }
}
