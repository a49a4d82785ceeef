// Executables: their headers, and the pages of memory their segments come to.
module Executable {
  import opened PageTables
  import opened Addresses
  import opened Bytes

  const PHYS_BASE: nat := 0xc000_0000
  const STACK_PAGE: nat := 0xbfff_f000

  // ---- Headers, as their bytes are laid out in the file. ----

  function Le16(b: seq<byte>): nat
    requires |b| == 2
  {
    b[0] as int + 0x100 * (b[1] as int)
  }

  datatype Ehdr = Ehdr(ident: seq<byte>, kind: nat, machine: nat, version: word, entry: word, phoff: word,
                       phentsize: nat, phnum: nat)

  function EhdrOf(b: seq<byte>): Ehdr
    requires |b| == 52
  {
    Ehdr(b[..16], Le16(b[16..18]), Le16(b[18..20]), FromLe32(b[20..24]), FromLe32(b[24..28]), FromLe32(b[28..32]),
         Le16(b[42..44]), Le16(b[44..46]))
  }

  // What load checks of it.
  predicate GoodEhdr(e: Ehdr) {
    && |e.ident| == 16 && e.ident[..7] == [0x7f, 69, 76, 70, 1, 1, 1] && e.kind == 2 && e.machine == 3 && e.version == 1
    && e.phentsize == 32 && e.phnum <= 1024
  }

  datatype Phdr = Phdr(kind: word, offset: word, vaddr: word, filesz: word, memsz: word, flags: word)

  function PhdrOf(b: seq<byte>): Phdr
    requires |b| == 32
  {
    Phdr(FromLe32(b[0..4]), FromLe32(b[4..8]), FromLe32(b[8..12]), FromLe32(b[16..20]), FromLe32(b[20..24]),
         FromLe32(b[24..28]))
  }

  // The headers as the structures of the ELF format lay them out, field after
  // field: halves of two bytes, words of four.
  function EhdrBytes(e: Ehdr, shoff: word, flags: word, ehsize: nat, shdr: seq<byte>): seq<byte>
    requires HalvesOk(e) && ehsize < 0x1_0000
  {
    e.ident + Half(e.kind) + Half(e.machine) + Le32(e.version) + Le32(e.entry) + Le32(e.phoff) + Le32(shoff) + Le32(flags)
    + Half(ehsize) + Half(e.phentsize) + Half(e.phnum) + shdr
  }

  predicate HalvesOk(e: Ehdr) {
    e.kind < 0x1_0000 && e.machine < 0x1_0000 && e.phentsize < 0x1_0000 && e.phnum < 0x1_0000
  }

  function Half(n: nat): (b: seq<byte>)
    requires n < 0x1_0000
    ensures |b| == 2 && Le16(b) == n
  {
    [n % 0x100, n / 0x100]
  }

  // Reading them gives back each field.
  lemma EhdrFields(e: Ehdr, shoff: word, flags: word, ehsize: nat, shdr: seq<byte>)
    requires |e.ident| == 16 && HalvesOk(e) && ehsize < 0x1_0000 && |shdr| == 6
    ensures |EhdrBytes(e, shoff, flags, ehsize, shdr)| == 52 && EhdrOf(EhdrBytes(e, shoff, flags, ehsize, shdr)) == e
  {
    hide Le32, FromLe32, Half, Le16;
    var b := EhdrBytes(e, shoff, flags, ehsize, shdr);
    FourBytes(e.version);
    FourBytes(e.entry);
    FourBytes(e.phoff);
    FourBytes(shoff);
    FourBytes(flags);
    assert b[..16] == e.ident && b[16..18] == Half(e.kind) && b[18..20] == Half(e.machine);
    assert b[20..24] == Le32(e.version) && b[24..28] == Le32(e.entry) && b[28..32] == Le32(e.phoff);
    assert b[42..44] == Half(e.phentsize) && b[44..46] == Half(e.phnum);
  }

  function PhdrBytes(ph: Phdr, paddr: word, align: word): seq<byte> {
    Le32(ph.kind) + Le32(ph.offset) + Le32(ph.vaddr) + Le32(paddr) + Le32(ph.filesz) + Le32(ph.memsz) + Le32(ph.flags)
    + Le32(align)
  }

  lemma PhdrFields(ph: Phdr, paddr: word, align: word)
    ensures |PhdrBytes(ph, paddr, align)| == 32 && PhdrOf(PhdrBytes(ph, paddr, align)) == ph
  {
    hide Le32, FromLe32;
    var b := PhdrBytes(ph, paddr, align);
    FourBytes(ph.kind);
    FourBytes(ph.offset);
    FourBytes(ph.vaddr);
    FourBytes(paddr);
    FourBytes(ph.filesz);
    FourBytes(ph.memsz);
    FourBytes(ph.flags);
    FourBytes(align);
    assert b[0..4] == Le32(ph.kind) && b[4..8] == Le32(ph.offset) && b[8..12] == Le32(ph.vaddr);
    assert b[16..20] == Le32(ph.filesz) && b[20..24] == Le32(ph.memsz) && b[24..28] == Le32(ph.flags);
  }

  lemma FourBytes(w: word)
    ensures |Le32(w)| == 4 && FromLe32(Le32(w)) == w
  {
    Le32RoundTrip(w);
  }

  const PT_LOAD: word := 1
  const PT_DYNAMIC: word := 2
  const PT_INTERP: word := 3
  const PT_SHLIB: word := 5

  // ---- Segments. ----

  // A segment: `read` bytes of the file from ofs, then `zero` bytes, from upage on.
  datatype Segment = Segment(ofs: nat, upage: nat, read: nat, zero: nat, writable: bool)

  function Sum32(a: word, b: word): word {
    (a + b) % 0x1_0000_0000
  }

  // ROUND_UP to whole pages.
  function RoundUp(a: word): word {
    Sum32(a, 4095) / 4096 * 4096
  }

  // validate_segment, in 32-bit arithmetic.
  predicate ValidSegment(ph: Phdr, length: nat) {
    && ph.offset % 4096 == ph.vaddr % 4096 && ph.offset <= length
    && ph.memsz >= ph.filesz && ph.memsz != 0
    && ph.vaddr < PHYS_BASE && Sum32(ph.vaddr, ph.memsz) < PHYS_BASE
    && Sum32(ph.vaddr, ph.memsz) >= ph.vaddr && ph.vaddr >= 4096
  }

  // What load passes to load_segment.
  function SegmentOf(ph: Phdr): Segment {
    var pageOffset := ph.vaddr % 4096;
    var read := if ph.filesz > 0 then Sum32(pageOffset, ph.filesz) else 0;
    var zero := (RoundUp(Sum32(pageOffset, ph.memsz)) - read) % 0x1_0000_0000;
    Segment(ph.offset - ph.offset % 4096, ph.vaddr - pageOffset, read, zero, ph.flags / 2 % 2 == 1)
  }

  function PageCnt(s: Segment): nat {
    (s.read + s.zero) / 4096
  }

  // What load_segment asserts, and pagedir_set_page of each page.
  predicate Loadable(s: Segment) {
    && (s.read + s.zero) % 4096 == 0 && s.upage % 4096 == 0 && s.ofs % 4096 == 0
    && s.upage + s.read + s.zero <= PHYS_BASE
  }

  // The checks in wrapping arithmetic let through just the segments that lie in
  // user memory above page 0 and have a file part no longer than they are.
  lemma ValidExactly(ph: Phdr, length: nat)
    ensures ValidSegment(ph, length) <==>
            && (ph.offset - ph.vaddr) % 4096 == 0 && ph.offset <= length
            && 4096 <= ph.vaddr < ph.vaddr + ph.memsz < PHYS_BASE && ph.filesz <= ph.memsz
  {
    SameInPage(ph.offset, ph.vaddr);
    if ph.vaddr < PHYS_BASE && Sum32(ph.vaddr, ph.memsz) < PHYS_BASE && Sum32(ph.vaddr, ph.memsz) >= ph.vaddr {
      NoWrap(ph.vaddr, ph.memsz);
    }
  }

  lemma SameInPage(a: nat, b: nat)
    ensures a % 4096 == b % 4096 <==> (a - b) % 4096 == 0
  {
    assert a - b == 4096 * (a / 4096 - b / 4096) + (a % 4096 - b % 4096);
  }

  // No sum wraps in a segment that has been validated, its pages are user
  // pages other than the first, and they are those that its memory lies on.
  lemma ValidIsLoadable(ph: Phdr, length: nat)
    requires ValidSegment(ph, length)
    ensures var s := SegmentOf(ph);
            && Loadable(s) && s.upage >= 4096
            && s.upage <= ph.vaddr && ph.vaddr + ph.memsz <= s.upage + s.read + s.zero
            && (ph.filesz > 0 ==> s.upage + s.read == ph.vaddr + ph.filesz && s.ofs + s.read == ph.offset + ph.filesz)
            && s.upage + s.read + s.zero < ph.vaddr + ph.memsz + 4096
            && (ph.filesz == 0 ==> s.read == 0)
            && ph.vaddr - s.upage == ph.offset - s.ofs < 4096
  {
    var base, pageOffset := ph.vaddr - ph.vaddr % 4096, ph.vaddr % 4096;
    PageOf(ph.vaddr);
    PageOf(ph.offset);
    NoWrap(ph.vaddr, ph.memsz);
    var m := pageOffset + ph.memsz;
    Rounded(m, base);
    hide RoundUp;
    assert Sum32(pageOffset, ph.memsz) == m;
    assert ph.filesz > 0 ==> Sum32(pageOffset, ph.filesz) == pageOffset + ph.filesz;
    SameRest(RoundUp(m), if ph.filesz > 0 then pageOffset + ph.filesz else 0);
  }

  lemma PageOf(a: nat)
    ensures (a - a % 4096) % 4096 == 0 && a % 4096 <= a
  {
  }

  // The checks on the end of a segment rule out that it wraps.
  lemma NoWrap(a: word, n: word)
    requires Sum32(a, n) < PHYS_BASE && Sum32(a, n) >= a
    ensures a + n < PHYS_BASE
  {
  }

  lemma SameRest(r: word, n: nat)
    requires n <= r
    ensures (r - n) % 0x1_0000_0000 == r - n && n + (r - n) == r
  {
  }

  lemma Rounded(m: nat, base: nat)
    requires base % 4096 == 0 && base + m <= PHYS_BASE
    ensures m < 0x1_0000_0000 && var r := RoundUp(m); m <= r < m + 4096 && r % 4096 == 0 && base + r <= PHYS_BASE
  {
    var q := (m + 4095) / 4096;
    assert RoundUp(m) == 4096 * q;
    assert base == 4096 * (base / 4096);
  }

  predicate Inside(file: seq<byte>, pos: nat, n: nat) {
    n == 0 || pos + n <= |file|
  }

  // Byte d of a segment: from the file, then zero.
  function SegmentByte(file: seq<byte>, s: Segment, d: nat): byte {
    if d < s.read && s.ofs + d < |file| then file[s.ofs + d] else 0
  }

  function SegmentPage(file: seq<byte>, s: Segment, i: nat): (p: seq<byte>)
    ensures |p| == 4096
  {
    seq<byte>(4096, (o: int) requires 0 <= o => SegmentByte(file, s, 4096 * i + o))
  }

  // How much of the file part is left after i pages.
  function Left(s: Segment, i: nat): (n: nat)
    ensures n <= s.read
  {
    if 4096 * i < s.read then s.read - 4096 * i else 0
  }

  function ReadNow(s: Segment, i: nat): (n: nat)
    ensures n <= 4096 && n <= Left(s, i)
  {
    if Left(s, i) < 4096 then Left(s, i) else 4096
  }

  // The part read and the part zeroed make up page i.
  lemma PageContent(file: seq<byte>, s: Segment, i: nat, pos: nat)
    requires Left(s, i) > 0 ==> pos == s.ofs + 4096 * i
    requires Inside(file, pos, ReadNow(s, i))
    ensures Sub(file, pos, ReadNow(s, i)) + Zeros(4096 - ReadNow(s, i)) == SegmentPage(file, s, i)
  {
    var n := ReadNow(s, i);
    var p := Sub(file, pos, n) + Zeros(4096 - n);
    forall o: nat | o < 4096
      ensures p[o] == SegmentByte(file, s, 4096 * i + o)
    {
    }
  }

  // ---- A whole executable. ----

  function PhdrAt(file: seq<byte>, ofs: nat): Phdr
    requires ofs + 32 <= |file|
  {
    PhdrOf(file[ofs..ofs + 32])
  }

  // A program header with which loading goes on.
  predicate HeaderOk(file: seq<byte>, ofs: int) {
    && 0 <= ofs && ofs + 32 <= |file|
    && var ph := PhdrAt(file, ofs);
       && ph.kind != PT_DYNAMIC && ph.kind != PT_INTERP && ph.kind != PT_SHLIB
       && (ph.kind == PT_LOAD ==> ValidSegment(ph, |file|))
  }

  predicate HeadersOk(file: seq<byte>, ofs: int, n: nat) {
    forall i :: 0 <= i < n ==> HeaderOk(file, ofs + 32 * i)
  }

  predicate HeaderLoads(file: seq<byte>, ofs: int) {
    HeaderOk(file, ofs) && PhdrAt(file, ofs).kind == PT_LOAD
  }

  // The segments of the first n program headers.
  function SegmentsTo(file: seq<byte>, ofs: int, n: nat): seq<Segment> {
    if n == 0 then []
    else
      var past := SegmentsTo(file, ofs, n - 1);
      var at := ofs + 32 * (n - 1);
      if HeaderLoads(file, at) then past + [SegmentOf(PhdrAt(file, at))] else past
  }

  predicate IsExecutable(file: seq<byte>) {
    && |file| >= 52
    && var e := EhdrOf(file[..52]); GoodEhdr(e) && HeadersOk(file, Signed32(e.phoff), e.phnum)
  }

  // Which files they are, byte by byte: the magic number of the format, class,
  // order and version 1; an executable for machine 3 in version 1; headers of 32
  // bytes, at most 1024 of them.
  lemma GoodEhdrExactly(b: seq<byte>)
    requires |b| == 52
    ensures GoodEhdr(EhdrOf(b)) <==>
            && b[..7] == [127, 'E' as int, 'L' as int, 'F' as int, 1, 1, 1] && b[16..24] == [2, 0, 3, 0, 1, 0, 0, 0]
            && b[42..44] == [32, 0] && b[44] as int + 256 * (b[45] as int) <= 1024
  {
    assert b[..16][..7] == b[..7];
    HalfIs(b[16..18], 2);
    HalfIs(b[18..20], 3);
    HalfIs(b[42..44], 32);
    WordIsSmall(b[20..24], 1);
    var c := b[16..24];
    assert c[..2] == b[16..18] && c[2..4] == b[18..20] && c[4..] == b[20..24];
    assert c == c[..2] + c[2..4] + c[4..];
    hide FromLe32;
  }

  lemma HalfIs(b: seq<byte>, n: byte)
    requires |b| == 2
    ensures Le16(b) == n as int <==> b == [n, 0]
  {
  }

  lemma WordIsSmall(b: seq<byte>, n: byte)
    requires |b| == 4
    ensures FromLe32(b) == n as int <==> b == [n, 0, 0, 0]
  {
  }

  // Loading goes on with a program header that is in the file and not of the types
  // 2, 3 or 5, and type 1 is what it loads if the segment is valid.
  lemma HeaderExactly(file: seq<byte>, ofs: nat)
    requires ofs + 32 <= |file|
    ensures var kind := file[ofs..ofs + 4];
            && (HeaderOk(file, ofs) <==>
                  && kind != [2, 0, 0, 0] && kind != [3, 0, 0, 0] && kind != [5, 0, 0, 0]
                  && (kind == [1, 0, 0, 0] ==> ValidSegment(PhdrAt(file, ofs), |file|)))
            && (HeaderLoads(file, ofs) <==> kind == [1, 0, 0, 0] && ValidSegment(PhdrAt(file, ofs), |file|))
  {
    var kind := file[ofs..ofs + 4];
    assert file[ofs..ofs + 32][0..4] == kind;
    WordIsSmall(kind, 1);
    WordIsSmall(kind, 2);
    WordIsSmall(kind, 3);
    WordIsSmall(kind, 5);
    hide ValidSegment, FromLe32;
  }

  function Segments(file: seq<byte>): seq<Segment>
    requires |file| >= 52
  {
    var e := EhdrOf(file[..52]);
    SegmentsTo(file, Signed32(e.phoff), e.phnum)
  }

  // The pages of a segment and of all, in the order of loading.
  function SegmentPages(s: Segment): (p: seq<nat>)
    ensures |p| == PageCnt(s)
  {
    seq(PageCnt(s), i requires 0 <= i => s.upage + 4096 * i)
  }

  function AllPages(segments: seq<Segment>): seq<nat> {
    if segments == [] then [] else AllPages(segments[..|segments| - 1]) + SegmentPages(segments[|segments| - 1])
  }

  // All pages of a program, the stack last.
  function ProgramPages(file: seq<byte>): seq<nat>
    requires |file| >= 52
  {
    AllPages(Segments(file)) + [STACK_PAGE]
  }

  predicate AllInside(file: seq<byte>, segments: seq<Segment>) {
    forall s :: s in segments ==> Inside(file, s.ofs, s.read)
  }

  lemma AllPagesPlus(segments: seq<Segment>, s: Segment)
    ensures AllPages(segments + [s]) == AllPages(segments) + SegmentPages(s)
  {
    assert (segments + [s])[..|segments|] == segments;
  }

  // Every segment of the headers so far can be loaded.
  lemma {:induction false} SegmentsLoadable(file: seq<byte>, ofs: int, n: nat)
    ensures forall s :: s in SegmentsTo(file, ofs, n) ==> Loadable(s) && s.upage >= 4096
  {
    if n > 0 {
      SegmentsLoadable(file, ofs, n - 1);
      if HeaderLoads(file, ofs + 32 * (n - 1)) { ValidIsLoadable(PhdrAt(file, ofs + 32 * (n - 1)), |file|); }
    }
  }

  // All their pages are user pages.
  lemma {:induction false} PagesInUser(segments: seq<Segment>)
    requires forall s :: s in segments ==> Loadable(s)
    ensures forall p :: p in AllPages(segments) ==> p < PHYS_BASE
  {
    if segments != [] {
      var rest, s := segments[..|segments| - 1], segments[|segments| - 1];
      PagesInUser(rest);
      forall p | p in SegmentPages(s)
        ensures p < PHYS_BASE
      {
        LastInside(s, (p - s.upage) / 4096);
      }
      hide SegmentPages, Loadable;
    }
  }

  lemma LastInside(s: Segment, i: nat)
    requires Loadable(s)
    ensures i < PageCnt(s) ==> s.upage + 4096 * i < PHYS_BASE
  {
  }
}
