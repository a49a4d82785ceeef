// What the processor makes of page tables: the walk of section 3.7 of the IA-32
// manual, volume 3A, for an access by user code.
module Mmu {
  import opened PageTables

  // A page fault, or the physical address that is reached.
  datatype Access = Fault | At(address: bv32)

  // Kernel addresses are physical ones moved up by PHYS_BASE.
  function Phys(p: bv32): bv32 { p - 0xc000_0000 }
  function Virt(p: bv32): bv32 { p + 0xc000_0000 }

  // The fields of an address and of an entry: bits 31 to 22, bits 21 to 12 and
  // bits 11 to 0; bits 31 to 12.
  function High(va: bv32): bv32 { va >> 22 }
  function Middle(va: bv32): bv32 { (va >> 12) & 0x3ff }
  function Low(va: bv32): bv32 { va & 0xfff }
  function Base(e: bv32): bv32 { e & 0xffff_f000 }
  function Join(page: bv32, ofs: bv32): bv32 { page | ofs }

  // Word number index of the page at a physical address.
  ghost function WordAt(words: Words, page: bv32, index: bv32): bv32 {
    var k := K(Virt(page));
    if k in words && K(index) in words[k] then words[k][K(index)] else 0
  }

  // Bits 0 and 2 let user code read, bit 1 lets it write too.
  predicate Lets(e: bv32, write: bool) {
    e & 5 == 5 && (write ==> e & 2 == 2)
  }

  // The directory is at cr3; either level may refuse.
  ghost function Walk(words: Words, cr3: bv32, va: bv32, write: bool): Access {
    var pde := WordAt(words, Base(cr3), High(va));
    if !Lets(pde, write) then Fault
    else
      var pte := WordAt(words, Base(pde), Middle(va));
      if !Lets(pte, write) then Fault else At(Join(Base(pte), Low(va)))
  }

  function Into(page: bv32, ofs: bv32): bv32 { page + ofs }

  // What a mapping lets user code reach: the byte that far into the frame.
  function Reach(m: Mapping, va: bv32, write: bool): Access {
    if write && !m.writable then Fault else At(Into(Phys(m.frame), PgOfs(va)))
  }

  // The processor reaches through the tables just what the map says: pages that
  // are mapped, for writing those that are writable.
  lemma WalkIsView(words: Words, pd: bv32, va: bv32, write: bool)
    requires PdOk(words, pd) && UserAddr(va)
    ensures var u := K(RoundDown(va));
            Walk(words, Phys(pd), va, write) ==
            if u in View(words, pd) then Reach(View(words, pd)[u], va, write) else Fault
  {
    WalkIsEntry(words, pd, va, write);
    ViewAt(words, pd, va);
    hide PdOk, View, Walk, EntryFor, RoundDown;
    EntryReach(EntryFor(words, pd, va), va, write);
  }

  lemma EntryReach(e: bv32, va: bv32, write: bool)
    requires Present(e) ==> User(e)
    ensures (if Lets(e, write) then At(Join(Base(e), Low(va))) else Fault)
         == if Present(e) then Reach(MappingOf(e), va, write) else Fault
  {
    EntryFields(e, write);
    JoinAdds(e, va);
    hide Present, User, Writable, PageAt, Lets, Phys, Base, Low, Join, Into, PgOfs;
  }

  lemma JoinAdds(e: bv32, va: bv32)
    ensures Join(Base(e), Low(va)) == Into(Base(e), PgOfs(va))
  {
  }

  lemma EntryFields(e: bv32, write: bool)
    ensures Phys(PageAt(e)) == Base(e) && Virt(Base(e)) == PageAt(e)
    ensures Lets(e, write) <==> Present(e) && User(e) && (write ==> Writable(e))
  {
  }

  lemma WalkIsEntry(words: Words, pd: bv32, va: bv32, write: bool)
    requires PdOk(words, pd) && UserAddr(va)
    ensures var e := EntryFor(words, pd, va);
            && (Present(e) ==> User(e))
            && Walk(words, Phys(pd), va, write) == if Lets(e, write) then At(Join(Base(e), Low(va))) else Fault
  {
    DirectoryWord(words, pd, va);
    EntryOpen(words, pd, va, write);
    NullLets(write);
    if HasTable(words, pd, PdNo(va)) {
      var pde := words[K(pd)][K(PdNo(va))];
      TableWord(words, pde, va);
    }
    hide PdNo, PtNo, Present, User, Lets, Phys, High, Middle, Low, Base, Join, WordAt, Entry, PdOk, PageAt, UserAddr;
  }

  lemma EntryOpen(words: Words, pd: bv32, va: bv32, write: bool)
    requires PdOk(words, pd) && UserAddr(va)
    ensures HasTable(words, pd, PdNo(va)) ==> Lets(words[K(pd)][K(PdNo(va))], write)
    ensures Present(EntryFor(words, pd, va)) ==> User(EntryFor(words, pd, va))
  {
    UserHalf(va);
    AddressParts(va);
    NullLets(write);
    assert PdeOk(words, pd, PdNo(va)) && PdeOpen(words, pd, PdNo(va));
    if HasTable(words, pd, PdNo(va)) { EntryFields(words[K(pd)][K(PdNo(va))], write); }
    hide PdNo, PtNo, Present, User, Writable, InRange, PageAt, KernelPage, Lets, PdesApart, UserAddr;
  }

  lemma DirectoryWord(words: Words, pd: bv32, va: bv32)
    requires PdOk(words, pd)
    ensures WordAt(words, Base(Phys(pd)), High(va)) ==
            if HasTable(words, pd, PdNo(va)) then words[K(pd)][K(PdNo(va))] else 0
  {
    AddressFields(pd, va);
    hide PdNo, PtNo, Phys, Virt, High, Middle, Base, KernelPage;
  }

  lemma TableWord(words: Words, pde: bv32, va: bv32)
    ensures WordAt(words, Base(pde), Middle(va)) == Entry(words, Slot(PageAt(pde), PtNo(va)))
  {
    EntryFields(pde, false);
    IndexField(va);
    hide PageAt, PtNo, Virt, Base, Middle, Lets, Present, User, Writable, Phys;
  }

  lemma IndexField(va: bv32)
    ensures Middle(va) == PtNo(va)
  {
  }

  lemma AddressFields(pd: bv32, va: bv32)
    requires KernelPage(pd)
    ensures High(va) == PdNo(va) && Middle(va) == PtNo(va) && Virt(Base(Phys(pd))) == pd
  {
  }

  lemma NullLets(write: bool)
    ensures !Lets(0, write) && !Present(0)
  {
  }

  // User code reaches the page at upage as m says, or not at all, and
  // everything else as before.
  ghost predicate Opened(words: Words, words': Words, pd: bv32, upage: bv32, m: Mapping) {
    forall va: bv32, write: bool :: UserAddr(va) ==>
      Walk(words', Phys(pd), va, write) ==
      if RoundDown(va) == upage then Reach(m, va, write) else Walk(words, Phys(pd), va, write)
  }

  ghost predicate Closed(words: Words, words': Words, pd: bv32, upage: bv32) {
    forall va: bv32, write: bool :: UserAddr(va) ==>
      Walk(words', Phys(pd), va, write) == if RoundDown(va) == upage then Fault else Walk(words, Phys(pd), va, write)
  }

  lemma PageOpened(words: Words, words': Words, pd: bv32, upage: bv32, m: Mapping)
    requires PdOk(words, pd) && PdOk(words', pd) && View(words', pd) == View(words, pd)[K(upage) := m]
    ensures Opened(words, words', pd, upage, m)
  {
    hide PdOk, View, Walk, RoundDown, Phys, Reach, UserAddr;
    forall va: bv32, write: bool | UserAddr(va)
      ensures Walk(words', Phys(pd), va, write) ==
              if RoundDown(va) == upage then Reach(m, va, write) else Walk(words, Phys(pd), va, write)
    {
      WalkIsView(words, pd, va, write);
      WalkIsView(words', pd, va, write);
    }
  }

  lemma PageClosed(words: Words, words': Words, pd: bv32, upage: bv32)
    requires PdOk(words, pd) && PdOk(words', pd) && View(words', pd) == View(words, pd) - {K(upage)}
    ensures Closed(words, words', pd, upage)
  {
    hide PdOk, View, Walk, RoundDown, Phys, Reach, UserAddr;
    forall va: bv32, write: bool | UserAddr(va)
      ensures Walk(words', Phys(pd), va, write) == if RoundDown(va) == upage then Fault else Walk(words, Phys(pd), va, write)
    {
      WalkIsView(words, pd, va, write);
      WalkIsView(words', pd, va, write);
    }
  }

  // An access leaves its mark in the entry: bit 5, and bit 6 if it is a write.
  function Touched(e: bv32, write: bool): bv32 {
    e | 0x20 | (if write then 0x40 else 0)
  }

  // That is what the flags of pagedir stand for.
  lemma FlagsTell(e: bv32, write: bool)
    ensures var f := Touched(e, write);
            SameMapping(e, f) && Accessed(f) && (Dirty(f) <==> Dirty(e) || write)
  {
  }
}
