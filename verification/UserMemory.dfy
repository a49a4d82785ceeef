// What user code finds at an address, by way of the page tables.
module UserMemory {
  import opened PageTables
  import opened Addresses
  import opened Bytes
  import opened Mmu

  // A read at the address reaches byte b of some frame; a write goes there too if
  // it is let, and faults otherwise.
  ghost predicate Finds(words: Words, pd: bv32, frames: map<Key, seq<byte>>, at: nat, writable: bool, b: byte) {
    var read, write := Walk(words, Phys(pd), Bits(at), false), Walk(words, Phys(pd), Bits(at), true);
    && write == (if writable then read else Fault)
    && exists f: bv32 :: FrameHas(frames, f, at % 4096, b) && read == At(Into(Phys(f), Bits(at % 4096)))
  }

  // Byte number ofs of the frame at f is b.
  ghost predicate FrameHas(frames: map<Key, seq<byte>>, f: bv32, ofs: nat, b: byte) {
    KernelPage(f) && K(f) in frames && ofs < |frames[K(f)]| && frames[K(f)][ofs] == b
  }

  ghost predicate Faults(words: Words, pd: bv32, at: nat) {
    forall write: bool :: Walk(words, Phys(pd), Bits(at), write) == Fault
  }

  lemma ByteFound(words: Words, pd: bv32, frames: map<Key, seq<byte>>, at: nat, writable: bool, b: byte)
    requires PdOk(words, pd) && at < 0xc000_0000
    requires var u := K(Bits(at - at % 4096));
             && u in View(words, pd) && View(words, pd)[u].writable == writable
             && K(View(words, pd)[u].frame) in frames
             && at % 4096 < |frames[K(View(words, pd)[u].frame)]|
             && frames[K(View(words, pd)[u].frame)][at % 4096] == b
    ensures Finds(words, pd, frames, at, writable, b)
  {
    Accesses(words, pd, at);
    hide PdOk, View, Bits, Walk, Into, Phys, KernelPage, Finds;
    var f := View(words, pd)[K(Bits(at - at % 4096))].frame;
    assert FrameHas(frames, f, at % 4096, b);
    hide FrameHas;
    Reached(words, pd, frames, at, writable, b, f);
  }

  lemma Reached(words: Words, pd: bv32, frames: map<Key, seq<byte>>, at: nat, writable: bool, b: byte, f: bv32)
    requires FrameHas(frames, f, at % 4096, b)
    requires Walk(words, Phys(pd), Bits(at), false) == At(Into(Phys(f), Bits(at % 4096)))
    requires Walk(words, Phys(pd), Bits(at), true) == if writable then At(Into(Phys(f), Bits(at % 4096))) else Fault
    ensures Finds(words, pd, frames, at, writable, b)
  {
    hide FrameHas, Walk, Into, Phys, Bits;
  }

  lemma NothingFound(words: Words, pd: bv32, at: nat)
    requires PdOk(words, pd) && at < 0xc000_0000 && K(Bits(at - at % 4096)) !in View(words, pd)
    ensures Faults(words, pd, at)
  {
    Accesses(words, pd, at);
    hide PdOk, View, Bits, Walk, Into, Phys;
  }

  // What the map says of an address given as a number.
  lemma Accesses(words: Words, pd: bv32, at: nat)
    requires PdOk(words, pd) && at < 0xc000_0000
    ensures var u := K(Bits(at - at % 4096));
            var read, write := Walk(words, Phys(pd), Bits(at), false), Walk(words, Phys(pd), Bits(at), true);
            if u in View(words, pd) then
              && KernelPage(View(words, pd)[u].frame)
              && read == At(Into(Phys(View(words, pd)[u].frame), Bits(at % 4096)))
              && write == if View(words, pd)[u].writable then read else Fault
            else read == Fault == write
  {
    UserBits(at);
    PageBits(at);
    LowBits(at);
    hide PdOk, View, Bits, RoundDown, PgOfs, UserAddr, KernelPage, Walk, Into, Phys;
    if K(RoundDown(Bits(at))) in View(words, pd) { FrameOfView(words, pd, Bits(at)); }
    WalkIsView(words, pd, Bits(at), false);
    WalkIsView(words, pd, Bits(at), true);
  }

  lemma LowBits(n: nat)
    ensures PgOfs(Bits(n)) == Bits(n % 4096)
  {
    hide *;
    var q, o := n / 4096, n % 4096;
    TwelveBits(q, o);
    assert n == 4096 * q + o;
    BitsAre(n);
    BitsAre(o);
    LowPlace(Word(q), Word(o));
  }

  lemma LowPlace(x: Key, o: Key)
    requires Less(o, K(0x1000))
    ensures PgOfs(InPage(x, o).bits) == o.bits
  {
    LowPlaceBits(x.bits, o.bits);
    hide Place, PgOfs;
  }

  lemma LowPlaceBits(x: bv32, o: bv32)
    requires o < 0x1000
    ensures PgOfs(Place(x, o)) == o
  {
  }

  lemma FrameOfView(words: Words, pd: bv32, va: bv32)
    requires PdOk(words, pd) && UserAddr(va) && K(RoundDown(va)) in View(words, pd)
    ensures KernelPage(View(words, pd)[K(RoundDown(va))].frame)
  {
    ViewAt(words, pd, va);
    UserHalf(va);
    AddressParts(va);
    assert PdeOk(words, pd, PdNo(va));
    hide View, RoundDown, PdNo, PtNo, UserAddr, PdesApart, Open;
    InRangeIsKernel(EntryFor(words, pd, va));
    hide Present, InRange, PageAt, KernelPage, Writable;
  }

  lemma InRangeIsKernel(e: bv32)
    ensures InRange(e) ==> KernelPage(PageAt(e))
  {
  }
}
