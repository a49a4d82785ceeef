// malloc, realloc and free over a pool of pages.
module Malloc {
  import opened Bytes
  import opened HeapBooks
  import opened HeapPages
  import Bitmap
  import Layout

  const LIMIT: nat := 0x1_0000_0000     // size_t has 32 bits

  // DIV_ROUND_UP (size + sizeof (struct arena), PGSIZE), in 32-bit arithmetic.
  function PageCount(size: nat): nat {
    (size + 12 + 4095) % 0x1_0000_0000 / 4096
  }

  // The page count is the least that is enough for the request unless the sum
  // wrapped past zero pages, which the last eleven sizes do.
  lemma PageCountEnough(size: nat)
    requires 0 < size < LIMIT
    ensures PageCount(size) == 0 || (4096 * PageCount(size) >= size + 12 <==> size <= 0xFFFF_FFF4)
    ensures 4096 * PageCount(size) < size + 12 + 4096
    ensures PageCount(size) == 0 <==> 0xFFFF_EFF5 <= size <= 0xFFFF_FFF4
  {
  }

  const DESCS := [Desc(16, 255), Desc(32, 127), Desc(64, 63), Desc(128, 31), Desc(256, 15), Desc(512, 7), Desc(1024, 3)]

  // Sizes double from 16 to the last one below half a page, and an arena is cut
  // into as many blocks as it holds.
  lemma DescriptorLaw(d: nat)
    requires d < |DESCS|
    ensures DESCS[d].size == if d == 0 then 16 else 2 * DESCS[d - 1].size
    ensures DESCS[d].size < PAGE / 2 && (2 * DESCS[d].size >= PAGE / 2 <==> d == |DESCS| - 1)
    ensures HEADER + DESCS[d].count * DESCS[d].size <= PAGE < HEADER + (DESCS[d].count + 1) * DESCS[d].size
  {
    assert DESCS[d] == [Desc(16, 255), Desc(32, 127), Desc(64, 63), Desc(128, 31), Desc(256, 15), Desc(512, 7),
                        Desc(1024, 3)][d];
  }

  // The request is too big for every descriptor.
  ghost predicate TooBig(descs: seq<Desc>, size: nat) {
    forall d :: 0 <= d < |descs| ==> descs[d].size < size
  }

  // Room is what a request of this size gets: a block of the first descriptor
  // that is large enough or, past the last, what is left of whole pages.
  ghost predicate Fits(descs: seq<Desc>, size: nat, room: nat) {
    if TooBig(descs, size) then room == 4096 * PageCount(size) - 12
    else exists d :: 0 <= d < |descs| && FirstFit(descs, size, d) && room == descs[d].size
  }

  ghost predicate FirstFit(descs: seq<Desc>, size: nat, d: nat)
    requires d < |descs|
  {
    descs[d].size >= size && forall e :: 0 <= e < d ==> descs[e].size < size
  }

  // The request gets its page, which is too small for it.
  ghost predicate Wraps(descs: seq<Desc>, pages: seq<bool>, size: nat) {
    size > 0xFFFF_FFF4 && !OutOfPages(descs, pages, size)
  }

  // There are no n pages to be had in one run.
  ghost predicate NoRun(pages: seq<bool>, n: nat) {
    n == 0 || forall j: nat :: !Bitmap.Run(pages, j, n, false)
  }

  // How many pages a request takes that no listed block serves.
  ghost function PagesFor(descs: seq<Desc>, size: nat): nat {
    if TooBig(descs, size) then PageCount(size) else 1
  }

  // No memory for a request, as its pages are not to be had.
  ghost predicate OutOfPages(descs: seq<Desc>, pages: seq<bool>, size: nat) {
    NoRun(pages, PagesFor(descs, size))
  }

  // The descriptor of the request lists a free block.
  ghost predicate Spare(descs: seq<Desc>, lists: seq<seq<nat>>, size: nat) {
    exists d :: 0 <= d < |descs| && d < |lists| && FirstFit(descs, size, d) && lists[d] != []
  }

  // A listed block is taken from the front of its list.
  ghost predicate FromFront(descs: seq<Desc>, lists: seq<seq<nat>>, b: nat, size: nat) {
    forall d :: 0 <= d < |descs| && d < |lists| && FirstFit(descs, size, d) && lists[d] != [] ==> b == lists[d][0]
  }

  // The page map after a request got block b.
  ghost function AfterGet(descs: seq<Desc>, base: nat, pages: seq<bool>, spare: bool, b: nat, size: nat): seq<bool> {
    if b == 0 || spare then pages else Mark(base, pages, PageOf(b), PagesFor(descs, size), true)
  }

  // A request is refused exactly if neither a listed block nor a run of pages
  // serves it; the run it gets is the first that is long enough.
  ghost predicate Got(descs: seq<Desc>, base: nat, pages: seq<bool>, spare: bool, b: nat, size: nat) {
    && (b == 0 <==> size == 0 || (!spare && OutOfPages(descs, pages, size)))
    && (b != 0 && !spare ==> FirstFree(base, pages, PageOf(b), PagesFor(descs, size)))
  }

  // The page map after block b, which had so much room, is freed.
  ghost function AfterFree(base: nat, pages: seq<bool>, live: set<nat>, b: nat, room: nat): seq<bool> {
    if b == 0 || InUse(live, PageOf(b)) then pages else Mark(base, pages, PageOf(b), PagesUnder(b, room), false)
  }

  lemma PastTheLast(descs: seq<Desc>, size: nat)
    requires TooBig(descs, size)
    ensures PageCount(size) > 0 ==> Fits(descs, size, 4096 * PageCount(size) - 12)
    ensures PagesFor(descs, size) == PageCount(size) && forall lists :: !Spare(descs, lists, size)
  {
  }

  lemma FirstOf(descs: seq<Desc>, size: nat, d: nat)
    requires d < |descs| && FirstFit(descs, size, d)
    ensures Fits(descs, size, descs[d].size) && !TooBig(descs, size)
    ensures PagesFor(descs, size) == 1
    ensures forall lists :: d < |lists| ==> (Spare(descs, lists, size) <==> lists[d] != [])
  {
  }

  // A request gets at least what it asks for, unless its page count wrapped.
  lemma FitsEnough(descs: seq<Desc>, size: nat, room: nat)
    requires DescsOk(descs) && 0 < size < LIMIT && Fits(descs, size, room)
    ensures room >= size <==> size <= 0xFFFF_FFF4
    ensures size > 0xFFFF_FFF4 ==> room == 4084
  {
    PageCountEnough(size);
  }

  // The sizes from half a page on are past the last descriptor.
  lemma HalfPageTooBig(descs: seq<Desc>, size: nat)
    requires DescsOk(descs) && size >= 2048
    ensures TooBig(descs, size) && forall lists :: !Spare(descs, lists, size)
  {
  }

  // What calloc takes for a product that did not wrap.
  predicate PassesTest(a: nat, b: nat) {
    a * b % 0x1_0000_0000 >= a && a * b % 0x1_0000_0000 >= b
  }

  // The test lets a wrapped product through exactly if taking one factor off
  // it, the larger, stays between the same two multiples of 2^32.
  lemma TestIncomplete(a: nat, b: nat)
    requires a <= b < LIMIT
    ensures a * b >= LIMIT && PassesTest(a, b)
            <==> (a * b - b) / 0x1_0000_0000 == a * b / 0x1_0000_0000 >= 1
    ensures PassesTest(a, b) <==> PassesTest(b, a)
  {
    assert a * b == b * a;
    var n := a * b;
    if a > 0 {
      assert n - b == (a - 1) * b;
      SameMultiple(n, b);
    }
  }

  lemma TestIs(a: nat, b: nat)
    ensures PassesTest(a, b) <==> a * b % 0x1_0000_0000 >= a && a * b % 0x1_0000_0000 >= b
    ensures a * b % 0x1_0000_0000 < LIMIT
  {
  }

  lemma SameMultiple(n: nat, m: nat)
    requires m <= n && m < LIMIT
    ensures n % 0x1_0000_0000 >= m <==> (n - m) / 0x1_0000_0000 == n / 0x1_0000_0000
  {
  }

  ghost predicate CommonPrefix(data': map<nat, seq<byte>>, b: nat, data: map<nat, seq<byte>>, a: nat, n: nat) {
    a in data && b in data' && var m := if n < |data[a]| then n else |data[a]|;
                               m <= |data'[b]| && data'[b][..m] == data[a][..m]
  }

  // No two descriptors have blocks of the same size.
  ghost predicate SizesApart(descs: seq<Desc>) {
    forall i, j :: 0 <= i < j < |descs| ==> descs[i].size != descs[j].size
  }

  // The books before the first request.
  lemma NothingYet(lists: seq<seq<nat>>, base: nat, used: seq<bool>)
    requires |lists| == |DESCS| && forall d :: 0 <= d < |DESCS| ==> lists[d] == []
    ensures var k := Books(lists, map[], {});
            BooksOk(DESCS, k) && PagesOk(k, base, used) && NoIdleArena(DESCS, k)
    ensures SizesApart(DESCS) && DescsOk(DESCS) && OwnersOk(map[], base, used, used)
  {
  }

  class Heap {
    const basePage: nat
    ghost const others: seq<bool>     // pages of the pool that belong to somebody else
    var used: seq<bool>          // the kernel pool's page map
    var mem: seq<byte>           // memory up to the end of the pool, by address
    var descs: seq<Desc>
    var freeLists: seq<seq<nat>>
    var arenas: map<nat, Arena>
    ghost var live: set<nat>     // blocks handed out and not freed

    ghost function K(): Books
      reads this`freeLists, this`arenas, this`live
    {
      Books(freeLists, arenas, live)
    }

    ghost predicate Pool()
      reads this`used, this`mem, this`descs, this`freeLists, this`arenas, this`live
    {
      && basePage > 0 && |mem| == 4096 * (basePage + |used|) <= LIMIT
      && BooksOk(descs, K()) && PagesOk(K(), basePage, used)
      && |freeLists| == |descs| && DescsOk(descs) && SizesApart(descs)
      && OwnersOk(arenas, basePage, used, others)
    }

    ghost predicate Valid()
      reads this
    {
      Pool() && NoIdleArena(descs, K())
    }

    ghost function CapacityOf(a: nat): nat
      reads this`descs, this`freeLists, this`arenas, this`live
    {
      if PageOf(a) in arenas then Capacity(descs, K(), a) else 0
    }

    // What every live block holds, to its full capacity.
    ghost function Data(): map<nat, seq<byte>>
      reads this`mem, this`descs, this`freeLists, this`arenas, this`live
    {
      Contents(descs, K(), mem)
    }

    // malloc_init: descriptors for the powers of two below half a page.
    constructor (basePage: nat, used: seq<bool>, mem: seq<byte>)
      requires basePage > 0 && |mem| == 4096 * (basePage + |used|) <= LIMIT
      ensures Valid() && live == {} && arenas == map[]
      ensures this.basePage == basePage && this.used == used && this.mem == mem
      ensures descs == DESCS && others == used
    {
      this.basePage, this.used, this.mem, this.others := basePage, used, mem, used;
      descs, freeLists, arenas, live := [], [], map[], {};
      new;
      var size := 16;
      while size < 2048
        modifies this`descs, this`freeLists
        invariant |descs| <= 7 && descs == DESCS[..|descs|] && |freeLists| == |descs|
        invariant size == if |descs| < 7 then DESCS[|descs|].size else 2048
        invariant forall d :: 0 <= d < |descs| ==> freeLists[d] == []
        decreases 2048 - size
      {
        descs := descs + [Desc(size, (4096 - 12) / size)];
        freeLists := freeLists + [[]];
        size := size * 2;
      }
      NothingYet(freeLists, basePage, used);
      hide BooksOk, PagesOk, OwnersOk, SizesApart, NoIdleArena, DescsOk;
    }

    // ---- Pages. ----

    // palloc_get_multiple on the kernel pool.
    method PallocGet(cnt: nat) returns (ok: bool, page: nat)
      requires Pool()
      modifies this`used
      ensures !ok ==> used == old(used)
      ensures ok <==> !NoRun(old(used), cnt)
      ensures ok ==> cnt > 0 && FirstFree(basePage, old(used), page, cnt) && page - basePage + cnt <= |used|
                     && used == Layout.SetBits(old(used), page - basePage, page - basePage + cnt, true)
    {
      ok, page := false, 0;
      if cnt != 0 {
        var idx;
        ok, idx := Bitmap.Scan(used, 0, cnt, false);
        if ok {
          used := Layout.SetBits(used, idx, idx + cnt, true);
          page := basePage + idx;
        }
      }
    }

    // palloc_free_multiple: the pages are filled with 0xcc and unmarked.
    method PallocFree(page: nat, cnt: nat)
      requires basePage <= page && page - basePage + cnt <= |used|
      requires |mem| == 4096 * (basePage + |used|)
      requires Bitmap.Run(used, page - basePage, cnt, true)
      modifies this`used, this`mem
      ensures used == Layout.SetBits(old(used), page - basePage, page - basePage + cnt, false)
      ensures mem == Splice(old(mem), 4096 * page, Filled(4096 * cnt))
    {
      mem := Splice(mem, 4096 * page, Filled(4096 * cnt));
      used := Layout.SetBits(used, page - basePage, page - basePage + cnt, false);
    }

    // ---- Allocation. ----

    // A request too big for every descriptor.
    method BigBlock(size: nat) returns (b: nat)
      requires Valid() && 0 < size < LIMIT
      modifies this`used, this`arenas, this`live
      ensures Valid()
      ensures b == 0 ==> live == old(live) && arenas == old(arenas) && used == old(used)
      ensures b == 0 <==> NoRun(old(used), PageCount(size))
      ensures b != 0 ==> FirstFree(basePage, old(used), PageOf(b), PageCount(size))
      ensures b != 0 ==> used == Mark(basePage, old(used), PageOf(b), PageCount(size), true)
      ensures b != 0 ==> b !in old(live) && live == old(live) + {b} && CapacityOf(b) == 4096 * PageCount(size) - 12
      ensures b != 0 ==> PageCount(size) > 0
      ensures SameKinds(old(K()), K())
    {
      hide BooksOk, NoIdleArena, PagesOk, OwnersOk, SizesApart, DescsOk, Mark;
      var pageCnt := PageCount(size);
      var ok, page := PallocGet(pageCnt);
      if !ok {
        return 0;
      }
      ArenasNonEmpty();
      PagesAdded(K(), AddBig(K(), page, pageCnt), basePage, old(used), used, page, Big(pageCnt));
      BigAdded(descs, K(), page, pageCnt);
      OwnersAdded(arenas, basePage, old(used), others, page, Big(pageCnt));
      StillNoIdle(descs, K(), AddBig(K(), page, pageCnt), page);
      arenas := arenas[page := Big(pageCnt)];
      live := live + {4096 * page + 12};
      FirstBlock(page);
      b := 4096 * page + 12;
    }

    // A page divided into free blocks of descriptor d.
    method NewArena(d: nat) returns (ok: bool)
      requires Valid() && d < |descs| && freeLists[d] == []
      modifies this`used, this`freeLists, this`arenas
      ensures Pool()
      ensures !ok ==> freeLists == old(freeLists) && arenas == old(arenas) && used == old(used)
      ensures ok <==> !NoRun(old(used), 1)
      ensures ok ==> freeLists[d] != [] && SameKinds(old(K()), K())
      ensures ok ==> NoIdleExcept(descs, K(), PageOf(freeLists[d][0]))
      ensures ok ==> FirstFree(basePage, old(used), PageOf(freeLists[d][0]), 1)
      ensures ok ==> used == Mark(basePage, old(used), PageOf(freeLists[d][0]), 1, true)
    {
      hide BooksOk, PagesOk, NoIdleArena, NoIdleExcept, SameKinds, NoRun, DescsOk;
      var page;
      ok, page := PallocGet(1);
      if ok {
        ghost var k := K();
        ArenasNonEmpty();
        PagesAdded(k, AddArena(descs, k, page, d), basePage, old(used), used, page, Small(d, descs[d].count));
        ArenaAdded(descs, k, page, d);
        OwnersAdded(arenas, basePage, old(used), others, page, Small(d, descs[d].count));
        OnlyArenaNew(descs, k, page, d);
        ListBlocks(d, page);
        arenas := arenas[page := Small(d, descs[d].count)];
        assert K() == AddArena(descs, k, page, d);
      }
    }

    // list_push_back of every block of the arena, in order.
    method ListBlocks(d: nat, page: nat)
      requires d < |descs| == |freeLists| && freeLists[d] == []
      modifies this`freeLists
      ensures freeLists == old(freeLists)[d := BlockSeq(page, descs[d].size, descs[d].count)]
    {
      var i := 0;
      while i < descs[d].count
        invariant i <= descs[d].count
        invariant freeLists == old(freeLists)[d := BlockSeq(page, descs[d].size, i)]
      {
        freeLists := freeLists[d := freeLists[d] + [BlockAt(page, descs[d].size, i)]];
        i := i + 1;
      }
    }

    // The block at the front of the list of descriptor d.
    method PopBlock(d: nat) returns (b: nat)
      requires Pool() && d < |descs| && freeLists[d] != []
      requires NoIdleExcept(descs, K(), PageOf(freeLists[d][0]))
      modifies this`freeLists, this`arenas, this`live
      ensures Valid() && b !in old(live) && live == old(live) + {b} && SameKinds(old(K()), K())
      ensures CapacityOf(b) == descs[d].size && b > 0 && b == old(freeLists[d][0])
    {
      hide BooksOk, PagesOk, NoIdleArena, NoIdleExcept, SameKinds;
      Taken(descs, K(), d);
      HeadCounted(descs, K(), d);
      NoIdleAfterTake(descs, K(), d);
      b := freeLists[d][0];
      freeLists := freeLists[d := freeLists[d][1..]];
      var p := PageOf(b);
      PagesSame(old(K()), Take(old(K()), d), basePage, used);
      OwnersSame(old(arenas), Take(old(K()), d).arenas, basePage, used, others);
      arenas := arenas[p := arenas[p].(freeCnt := arenas[p].freeCnt - 1)];
      live := live + {b};
      assert K() == Take(old(K()), d);
      LiveInPool(descs, K(), basePage, used, b);
    }

    // A block of descriptor d, from its list or from a new arena.
    method SmallBlock(d: nat) returns (b: nat)
      requires Valid() && d < |descs|
      modifies this`used, this`freeLists, this`arenas, this`live
      ensures Valid() && SameKinds(old(K()), K())
      ensures b == 0 ==> live == old(live)
      ensures b == 0 <==> old(freeLists[d]) == [] && NoRun(old(used), 1)
      ensures b != 0 ==> b !in old(live) && live == old(live) + {b} && CapacityOf(b) == descs[d].size
      ensures b == 0 || old(freeLists[d]) != [] ==> used == old(used)
      ensures old(freeLists[d]) != [] ==> b == old(freeLists[d][0])
      ensures b != 0 && old(freeLists[d]) == [] ==>
                FirstFree(basePage, old(used), PageOf(b), 1) && used == Mark(basePage, old(used), PageOf(b), 1, true)
    {
      hide BooksOk, PagesOk, NoIdleArena, SameKinds, NoRun, OwnersOk, Mark, FirstFree, PageOf, SizesApart, DescsOk;
      b := 0;
      KindsRefl(K());
      if freeLists[d] != [] {
        IdleNowhere(descs, K(), PageOf(freeLists[d][0]));
        b := PopBlock(d);
      } else {
        var ok := NewArena(d);
        if ok {
          ghost var mid := K();
          b := PopBlock(d);
          KindsTransitive(old(K()), mid, K());
        }
      }
    }

    // malloc: 0 is the null pointer.
    method Malloc(size: nat) returns (b: nat)
      requires Valid() && size < LIMIT
      modifies this`used, this`freeLists, this`arenas, this`live
      ensures Valid()
      ensures b == 0 ==> live == old(live)
      ensures b != 0 ==> b !in old(live) && live == old(live) + {b}
      ensures b != 0 ==> (CapacityOf(b) >= size <==> size <= 0xFFFF_FFF4)
      ensures b != 0 ==> Fits(descs, size, CapacityOf(b))
      ensures Got(descs, basePage, old(used), Spare(descs, old(freeLists), size), b, size)
      ensures used == AfterGet(descs, basePage, old(used), Spare(descs, old(freeLists), size), b, size)
      ensures size > 0 ==> FromFront(descs, old(freeLists), b, size)
      ensures Data() - {b} == old(Data()) && (b == 0 ==> Data() == old(Data()))
    {
      hide BooksOk, PagesOk, NoIdleArena, SameKinds, NoRun, Fits, PagesFor, PageCount, TooBig, Spare;
      hide OwnersOk, Mark, FirstFree, PageOf, SizesApart, DescsOk;
      b := 0;
      KindsRefl(K());
      if size != 0 {
        var d := FindDesc(size);
        if d == |descs| {
          PastTheLast(descs, size);
          b := BigBlock(size);
        } else {
          FirstOf(descs, size, d);
          b := SmallBlock(d);
        }
      }
      ContentsKept(descs, old(K()), K(), mem, mem, b);
      LivePositive();
      if b != 0 { FitsEnough(descs, size, CapacityOf(b)); }
    }

    // The smallest descriptor that satisfies a request, or none.
    method FindDesc(size: nat) returns (d: nat)
      ensures d <= |descs| && forall e :: 0 <= e < d ==> descs[e].size < size
      ensures d < |descs| ==> descs[d].size >= size
      ensures d == |descs| ==> TooBig(descs, size)
    {
      d := 0;
      while d < |descs| && descs[d].size < size
        invariant d <= |descs| && forall e :: 0 <= e < d ==> descs[e].size < size
      {
        d := d + 1;
      }
    }

    // ---- Freeing. ----

    // free: a small block goes to the front of its list, and its arena goes
    // back to the pool when that was its last live block; a big block's pages
    // go back at once.
    method Free(b: nat)
      requires Valid() && (b == 0 || b in live)
      modifies this`used, this`mem, this`freeLists, this`arenas, this`live
      ensures Valid() && live == old(live) - {b}
      ensures Data() == old(Data()) - {b}
      ensures used == AfterFree(basePage, old(used), live, b, old(CapacityOf(b)))
    {
      if b != 0 {
        var p := PageOf(b);
        LiveBlock(b);
        match arenas[p]
        case Small(d, _) =>
          FreeSmall(b, d);
        case Big(n) =>
          FreePages(b, n);
      }
    }

    // calloc: zeroes as many bytes as the 32-bit product says. The last eleven
    // sizes overrun the page they get: the model stops where memset would.
    method Calloc(a: nat, b: nat) returns (p: nat, overrun: bool)
      requires Valid() && a < LIMIT && b < LIMIT
      modifies this`used, this`mem, this`freeLists, this`arenas, this`live
      ensures Valid() && Data() - {p} == old(Data())
      ensures p != 0 ==> p !in old(live) && live == old(live) + {p} && PassesTest(a, b)
      ensures p != 0 ==> Fits(descs, a * b % 0x1_0000_0000, CapacityOf(p))
      ensures p != 0 ==> (CapacityOf(p) >= a * b <==> a * b <= 0xFFFF_FFF4)
      ensures overrun <==> PassesTest(a, b) && Wraps(descs, old(used), a * b % 0x1_0000_0000)
      ensures overrun ==> p != 0
      ensures p != 0 && !overrun ==> var n := a * b % 0x1_0000_0000;
                                     p in Data() && n <= |Data()[p]| && Data()[p][..n] == Zeros(n)
      ensures p == 0 ==> live == old(live) && Data() == old(Data())
      ensures PassesTest(a, b) ==> var n := a * b % 0x1_0000_0000;
                                   Got(descs, basePage, old(used), Spare(descs, old(freeLists), n), p, n)
      ensures PassesTest(a, b) ==> var n := a * b % 0x1_0000_0000;
                                   used == AfterGet(descs, basePage, old(used), Spare(descs, old(freeLists), n), p, n)
      ensures p == 0 ==> used == old(used)
    {
      hide *;
      var size := a * b % 0x1_0000_0000;
      TestIs(a, b);
      p, overrun := 0, false;
      ValidPool();
      LivePositive();
      if size >= a && size >= b {
        p, overrun := Cleared(size);
        if p != 0 { Wrapped(a * b, size, CapacityOf(p)); }
      }
    }

    // malloc and memset.
    method Cleared(size: nat) returns (p: nat, overrun: bool)
      requires Valid() && size < LIMIT
      modifies this`used, this`mem, this`freeLists, this`arenas, this`live
      ensures Valid() && Data() - {p} == old(Data()) && (size == 0 ==> p == 0)
      ensures p != 0 ==> p !in old(live) && live == old(live) + {p} && Fits(descs, size, CapacityOf(p))
      ensures p != 0 ==> (CapacityOf(p) >= size <==> size <= 0xFFFF_FFF4) && CapacityOf(p) < LIMIT
      ensures overrun <==> Wraps(descs, old(used), size)
      ensures overrun ==> p != 0
      ensures p != 0 && !overrun ==> p in Data() && size <= |Data()[p]| && Data()[p][..size] == Zeros(size)
      ensures p == 0 ==> live == old(live) && Data() == old(Data())
      ensures Got(descs, basePage, old(used), Spare(descs, old(freeLists), size), p, size)
      ensures p == 0 ==> used == old(used)
      ensures used == AfterGet(descs, basePage, old(used), Spare(descs, old(freeLists), size), p, size)
    {
      hide BooksOk, PagesOk, OwnersOk, NoIdleArena, Contents, Fits, OutOfPages, TooBig, Spare, SizesApart;
      hide Mark, FirstFree, PageOf, PagesFor;
      LivePositive();
      if size > 0xFFFF_FFF4 { HalfPageTooBig(descs, size); }
      overrun := false;
      p := Malloc(size);
      if p != 0 {
        DataLength(p);
        var room := BlockSize(p);
        overrun := size > room;
        if !overrun {
          ghost var d1 := Data();
          Store(p, Zeros(size));
          ZeroedPrefix(d1, p, size);
        }
      }
    }

    // block_size.
    method BlockSize(b: nat) returns (n: nat)
      requires Pool() && b in live
      ensures n == CapacityOf(b)
    {
      LiveBlock(b);
      match arenas[PageOf(b)]
      case Small(d, _) => n := descs[d].size;
      case Big(pages) => n := 4096 * pages - b % 4096;
    }

    // memcpy or memset into a block in use.
    method Store(b: nat, data: seq<byte>)
      requires Valid() && b in live && |data| <= CapacityOf(b)
      modifies this`mem
      ensures Valid() && Data() == Stored(old(Data()), b, data)
    {
      hide BooksOk, PagesOk, NoIdleArena, Contents;
      LiveBlock(b);
      StoredBlock(descs, K(), basePage, used, mem, b, data);
      mem := Splice(mem, b, data);
    }

    // realloc. The copy overruns the new block if the request is one of the
    // eleven whose page count wrapped and the old block is larger than a page:
    // the model stops where memcpy would.
    method Realloc(block: nat, newSize: nat) returns (b: nat, overrun: bool)
      requires Valid() && newSize < LIMIT && (block == 0 || block in live)
      modifies this`used, this`mem, this`freeLists, this`arenas, this`live
      ensures Valid()
      ensures newSize == 0 ==> b == 0 && live == old(live) - {block} && Data() == old(Data()) - {block}
      ensures newSize > 0 && b == 0 ==> live == old(live) && Data() == old(Data())
      ensures Got(descs, basePage, old(used), Spare(descs, old(freeLists), newSize), b, newSize)
      ensures newSize == 0 ==> used == AfterFree(basePage, old(used), live, block, old(CapacityOf(block)))
      ensures newSize > 0 ==> var got := AfterGet(descs, basePage, old(used), Spare(descs, old(freeLists), newSize), b, newSize);
                              used == if b == 0 || overrun then got
                                      else AfterFree(basePage, got, live, block, old(CapacityOf(block)))
      ensures overrun <==> block != 0 && old(CapacityOf(block)) > 4084 && Wraps(descs, old(used), newSize)
      ensures overrun ==> b != 0
      ensures b != 0 ==> b !in old(live) && live == old(live) - (if overrun then {} else {block}) + {b}
      ensures b != 0 ==> Fits(descs, newSize, CapacityOf(b)) && (CapacityOf(b) >= newSize <==> newSize <= 0xFFFF_FFF4)
      ensures b != 0 ==> Data() - {b} == old(Data()) - (if overrun then {} else {block})
      ensures b != 0 && block != 0 && !overrun ==> CommonPrefix(Data(), b, old(Data()), block, newSize)
    {
      hide BooksOk, PagesOk, OwnersOk, NoIdleArena, Contents, Fits, OutOfPages, Spare, SizesApart;
      hide Mark, FirstFree, PageOf, PagesFor, InUse, PagesUnder;
      LivePositive();
      ghost var data := Data();
      if block != 0 { DataLength(block); }
      overrun := false;
      if newSize == 0 {
        Free(block);
        b := 0;
      } else {
        if newSize > 0xFFFF_FFF4 { HalfPageTooBig(descs, newSize); }
        b := Malloc(newSize);
        if b != 0 {
          FitsEnough(descs, newSize, CapacityOf(b));
          if block != 0 {
            BelowLimit(data, block);
            overrun := MoveOver(block, b, newSize, data);
          }
        }
      }
    }

    // The copy in realloc, and the release of the old block.
    method MoveOver(block: nat, b: nat, newSize: nat, ghost data: map<nat, seq<byte>>) returns (overrun: bool)
      requires Valid() && block in live && b in live && b != block && block in data && Data() - {b} == data
      modifies this`used, this`mem, this`freeLists, this`arenas, this`live
      ensures Valid() && CapacityOf(b) == old(CapacityOf(b))
      ensures overrun <==> newSize > old(CapacityOf(b)) && |data[block]| > old(CapacityOf(b))
      ensures overrun ==> live == old(live) && Data() == old(Data())
      ensures !overrun ==> live == old(live) - {block} && Data() - {b} == data - {block}
      ensures !overrun ==> CommonPrefix(Data(), b, data, block, newSize)
      ensures used == (if overrun then old(used) else AfterFree(basePage, old(used), live, block, |data[block]|))
    {
      hide *;
      ValidPool();
      DataLength(block);
      DataLength(b);
      assert Data()[block] == data[block] by { assert block in Data() - {b}; }
      var oldSize := BlockSize(block);
      var minSize := if newSize < oldSize then newSize else oldSize;
      var room := BlockSize(b);
      overrun := minSize > room;
      if !overrun {
        CopyAndFree(block, b, newSize, oldSize, minSize, data);
      }
    }

    method CopyAndFree(block: nat, b: nat, newSize: nat, oldSize: nat, minSize: nat, ghost data: map<nat, seq<byte>>)
      requires Valid() && block in live && b in live && b != block && block in data && Data() - {b} == data
      requires oldSize == |data[block]| == CapacityOf(block) && minSize <= CapacityOf(b)
      requires minSize == if newSize < oldSize then newSize else oldSize
      modifies this`used, this`mem, this`freeLists, this`arenas, this`live
      ensures Valid() && live == old(live) - {block} && CapacityOf(b) == old(CapacityOf(b))
      ensures Data() - {b} == data - {block} && CommonPrefix(Data(), b, data, block, newSize)
      ensures used == AfterFree(basePage, old(used), live, block, oldSize)
    {
      hide *;
      ValidPool();
      DataLength(block);
      DataLength(b);
      ghost var d1 := Data();
      assert d1[block] == data[block] by { assert block in d1 - {b}; }
      ghost var copied := data[block][..minSize];
      SliceOfSlice(mem, block, block + oldSize, 0, minSize);
      assert mem[block..block + oldSize] == data[block] && copied == data[block][0..minSize];
      Store(b, mem[block..block + minSize]);
      ValidPool();
      DataLength(b);
      Free(block);
      ValidPool();
      DataLength(b);
      StoredLength(d1, b, copied);
      Moved(data, d1, b, block, copied);
      PrefixMoved(Data(), data, b, block, newSize, minSize);
    }

    // A block leaves room for its own header and those of the pages before it.
    lemma BelowLimit(data: map<nat, seq<byte>>, block: nat)
      requires Pool() && block in live && block in data && data[block] == Data()[block]
      ensures |data[block]| == CapacityOf(block) <= 0xFFFF_EFF4
    {
      DataLength(block);
      LiveBlock(block);
      LiveInPool(descs, K(), basePage, used, block);
      hide BooksOk, PagesOk, Contents, Held, NoIdleArena, DescsOk;
    }

    lemma ValidPool()
      requires Valid()
      ensures Pool()
    {
    }

    // Blocks in use do not overlap, each to its full capacity.
    lemma Separate()
      requires Valid()
      ensures forall a, b :: a in live && b in live && a < b ==> a + CapacityOf(a) <= b
    {
      forall a, b | a in live && b in live && a < b
        ensures a + CapacityOf(a) <= b
      {
        LiveApart(descs, K(), basePage, used, a, b);
        LiveDisjoint(descs, K(), basePage, used, a, b);
      }
    }

    // With no block in use the allocator holds no page.
    lemma NothingKept()
      requires Valid() && live == {}
      ensures arenas == map[] && used == others
    {
      hide BooksOk, PagesOk, NoIdleArena, OwnersOk, SizesApart, DescsOk;
      if p :| p in arenas {
        ArenaInUse(descs, K(), p);
      }
      NothingHeld(basePage, used, others);
    }

    lemma DataKeys()
      ensures Data().Keys == live
    {
    }

    // Every block in use holds as many bytes as it has room for.
    lemma DataLength(a: nat)
      requires Pool() && a in live
      ensures a in Data() && |Data()[a]| == CapacityOf(a) && a + CapacityOf(a) <= |mem|
      ensures Data()[a] == mem[a..a + CapacityOf(a)]
    {
      hide BooksOk, PagesOk, Contents, Held, Capacity, NoIdleArena, DescsOk;
      LiveExtent(descs, K(), basePage, used, a);
      HeldWhole(descs, K(), mem, a);
    }

    lemma PrefixMoved(data': map<nat, seq<byte>>, data: map<nat, seq<byte>>, b: nat, a: nat, n: nat, m: nat)
      requires a in data && b in data' && m == (if n < |data[a]| then n else |data[a]|)
      requires m <= |data'[b]| && data'[b][..m] == data[a][..m]
      ensures CommonPrefix(data', b, data, a, n)
    {
    }

    // What block_to_arena asserts, and more.
    lemma LiveBlock(b: nat)
      requires Pool() && b in live
      ensures b > 0 && PageOf(b) in arenas
      ensures arenas[PageOf(b)].Small? ==> arenas[PageOf(b)].desc < |descs|
      ensures arenas[PageOf(b)].Big? ==> b == 4096 * PageOf(b) + 12 && arenas[PageOf(b)].pages > 0
    {
      assert LiveOk(descs, K(), b) && CountOk(descs, K(), PageOf(b));
      LiveInPool(descs, K(), basePage, used, b);
    }

    lemma LivePositive()
      requires Pool()
      ensures 0 !in live && Data() - {0} == Data()
    {
      assert 0 in live ==> LiveOk(descs, K(), 0);
      if 0 in live {
        LiveInPool(descs, K(), basePage, used, 0);
      }
      hide BooksOk, PagesOk, Held;
    }

    method FreeSmall(b: nat, d: nat)
      requires Valid() && b in live && PageOf(b) in arenas
      requires arenas[PageOf(b)].Small? && arenas[PageOf(b)].desc == d < |descs|
      modifies this`used, this`mem, this`freeLists, this`arenas, this`live
      ensures Valid() && live == old(live) - {b}
      ensures Data() == old(Data()) - {b}
      ensures used == AfterFree(basePage, old(used), live, b, old(CapacityOf(b)))
    {
      hide BooksOk, PagesOk, OwnersOk, NoIdleArena, NoIdleExcept, Contents, InUse, Mark, PageOf, Capacity, PagesUnder;
      var p := PageOf(b);
      LiveBlock(b);
      BlockPages(descs, K(), b);
      PushBlock(b, d);
      if arenas[p].freeCnt >= descs[d].count {
        DropIdle(p, d);
      } else {
        NowIdleNowhere(descs, K(), p);
        ArenaInUse(descs, K(), p);
      }
    }

    // Clears the block and puts it at the front of its descriptor's list.
    method PushBlock(b: nat, d: nat)
      requires Valid() && b in live && PageOf(b) in arenas
      requires arenas[PageOf(b)].Small? && arenas[PageOf(b)].desc == d < |descs|
      modifies this`mem, this`freeLists, this`arenas, this`live
      ensures Pool() && live == old(live) - {b} && Data() == old(Data()) - {b}
      ensures PageOf(b) in arenas && arenas[PageOf(b)].Small? && arenas[PageOf(b)].desc == d
      ensures NoIdleExcept(descs, K(), PageOf(b))
    {
      hide BooksOk, PagesOk, Contents;
      var p := PageOf(b);
      PutBack(descs, K(), d, b);
      PagesSame(K(), Put(K(), d, b), basePage, used);
      OwnersSame(arenas, Put(K(), d, b).arenas, basePage, used, others);
      LiveInPool(descs, K(), basePage, used, b);
      ClearedBlock(descs, K(), basePage, used, mem, b);
      mem := Splice(mem, b, Filled(descs[d].size));
      freeLists := freeLists[d := [b] + freeLists[d]];
      arenas := arenas[p := arenas[p].(freeCnt := arenas[p].freeCnt + 1)];
      live := live - {b};
      assert K() == Put(old(K()), d, b);
      ContentsKept(descs, old(K()), K(), old(mem), mem, b);
      DataWithout(descs, old(K()), K(), old(mem), mem, b);
    }

    // The arena's blocks leave the list one by one, then its page is freed.
    method DropIdle(p: nat, d: nat)
      requires Pool() && p in arenas && arenas[p].Small? && arenas[p].desc == d < |descs|
      requires arenas[p].freeCnt >= descs[d].count && NoIdleExcept(descs, K(), p)
      modifies this`used, this`mem, this`freeLists, this`arenas
      ensures Valid() && Data() == old(Data())
      ensures used == Mark(basePage, old(used), p, 1, false) && !InUse(live, p)
    {
      hide BooksOk, PagesOk, OwnersOk, Contents;
      WhollyFree(descs, K(), p);
      ArenaDropped(descs, K(), p);
      ghost var k := K();
      var i := 0;
      while i < descs[d].count
        modifies this`freeLists
        invariant i <= descs[d].count
        invariant freeLists == k.freeLists[d := WithoutBlocks(k.freeLists[d], p, descs[d].size, i)]
      {
        freeLists := freeLists[d := Without(freeLists[d], BlockAt(p, descs[d].size, i))];
        i := i + 1;
      }
      arenas := arenas - {p};
      assert K() == DropArena(descs, k, p, d);
      NowIdleGone(descs, k, K(), p);
      FreeArenaPages(p, 1, k);
      LivePositive();
      HeldAlike(descs, k, K(), old(mem), mem, 0);
    }

    // The pages of a big block.
    method FreePages(b: nat, n: nat)
      requires Valid() && b in live && PageOf(b) in arenas && arenas[PageOf(b)] == Big(n)
      modifies this`used, this`mem, this`arenas, this`live
      ensures Valid() && live == old(live) - {b}
      ensures Data() == old(Data()) - {b}
      ensures used == AfterFree(basePage, old(used), live, b, old(CapacityOf(b)))
    {
      hide BooksOk, PagesOk, OwnersOk, NoIdleArena, Contents;
      var p := PageOf(b);
      ghost var k := K();
      LiveBlock(b);
      BlockPages(descs, k, b);
      BigDropped(descs, k, p);
      OnlyBigBlock(descs, k, p);
      StillNoIdle(descs, k, DropBig(k, p), p);
      arenas := arenas - {p};
      live := live - {b};
      assert K() == DropBig(k, p);
      FreeArenaPages(p, n, k);
      HeldAlike(descs, k, K(), old(mem), mem, b);
    }

    // Hands the pages of an arena that has left the books back to the pool.
    method FreeArenaPages(p: nat, n: nat, ghost k: Books)
      requires basePage > 0 && |mem| == 4096 * (basePage + |used|) <= LIMIT
      requires |freeLists| == |descs| && DescsOk(descs) && SizesApart(descs)
      requires BooksOk(descs, k) && PagesOk(k, basePage, used) && p in k.arenas && PagesOf(k.arenas[p]) == n
      requires OwnersOk(k.arenas, basePage, used, others)
      requires BooksOk(descs, K()) && arenas == k.arenas - {p} && K().live <= k.live
      requires NoIdleArena(descs, K())
      requires forall a :: a in k.live && PageOf(a) != p ==> a in live
      requires forall a :: a in live ==> PageOf(a) != p
      modifies this`used, this`mem
      ensures Valid() && used == Mark(basePage, old(used), p, n, false)
      ensures forall a :: a in live ==> Held(descs, K(), mem, a) == Held(descs, k, old(mem), a)
    {
      hide BooksOk, NoIdleArena, OwnersOk;
      assert PagesMarked(p, n, basePage, used);
      PagesFilled(descs, k, basePage, used, mem, p);
      forall q | q in k.arenas
        ensures PagesOf(k.arenas[q]) > 0
      {
        CountPositive(descs, k, q);
      }
      OwnersDropped(k.arenas, basePage, used, others, p);
      PallocFree(p, n);
      PagesDropped(k, K(), basePage, old(used), used, p);
    }

    lemma ArenasNonEmpty()
      requires BooksOk(descs, K())
      ensures forall q :: q in arenas ==> PagesOf(arenas[q]) > 0
    {
      forall q | q in arenas
        ensures PagesOf(arenas[q]) > 0
      {
        assert CountOk(descs, K(), q);
      }
    }
  }

  lemma IdleNowhere(descs: seq<Desc>, k: Books, p: nat)
    requires NoIdleArena(descs, k)
    ensures NoIdleExcept(descs, k, p)
  {
  }

  lemma {:induction false} FirstInSeq(p: nat, size: nat, n: nat)
    requires n > 0
    ensures BlockSeq(p, size, n) != [] && BlockSeq(p, size, n)[0] == 4096 * p + 12
  {
    if n > 1 {
      FirstInSeq(p, size, n - 1);
    } else {
      assert 0 * size == 0;
    }
  }

  lemma OnlyArenaNew(descs: seq<Desc>, k: Books, page: nat, d: nat)
    requires DescsOk(descs) && d < |descs| == |k.freeLists| && k.freeLists[d] == [] && page !in k.arenas
    requires NoIdleArena(descs, k)
    ensures var k' := AddArena(descs, k, page, d);
            && k'.freeLists == k.freeLists[d := BlockSeq(page, descs[d].size, descs[d].count)] && k'.freeLists[d] != []
            && SameKinds(k, k') && PageOf(k'.freeLists[d][0]) == page && NoIdleExcept(descs, k', page)
  {
    var size, count := descs[d].size, descs[d].count;
    assert [] + BlockSeq(page, size, count) == BlockSeq(page, size, count);
    FirstInSeq(page, size, count);
    FirstBlock(page);
    hide BlockSeq, PageOf;
  }

  lemma NowIdleNowhere(descs: seq<Desc>, k: Books, p: nat)
    requires NoIdleExcept(descs, k, p) && p in k.arenas && k.arenas[p].Small? && k.arenas[p].desc < |descs|
    requires k.arenas[p].freeCnt < descs[k.arenas[p].desc].count
    ensures NoIdleArena(descs, k)
  {
  }

  lemma CountPositive(descs: seq<Desc>, k: Books, q: nat)
    requires BooksOk(descs, k) && q in k.arenas
    ensures PagesOf(k.arenas[q]) > 0
  {
    assert CountOk(descs, k, q);
  }

  // Filling a live block leaves the bytes of the others alone.
  lemma ClearedBlock(descs: seq<Desc>, k: Books, base: nat, used: seq<bool>, mem: seq<byte>, b: nat)
    requires BooksOk(descs, k) && PagesOk(k, base, used) && b in k.live && |mem| == 4096 * (base + |used|)
    ensures PageOf(b) in k.arenas && b + Capacity(descs, k, b) <= |mem|
    ensures forall a :: a in k.live && a != b ==>
              Held(descs, k, Splice(mem, b, Filled(Capacity(descs, k, b))), a) == Held(descs, k, mem, a)
  {
    LiveExtent(descs, k, base, used, b);
    forall a | a in k.live && a != b
      ensures Held(descs, k, Splice(mem, b, Filled(Capacity(descs, k, b))), a) == Held(descs, k, mem, a)
    {
      LiveExtent(descs, k, base, used, a);
      LiveApart(descs, k, base, used, a, b);
      HeldBeside(descs, k, mem, a, b, Filled(Capacity(descs, k, b)));
    }
  }

  lemma LiveExtent(descs: seq<Desc>, k: Books, base: nat, used: seq<bool>, a: nat)
    requires BooksOk(descs, k) && PagesOk(k, base, used) && a in k.live
    ensures PageOf(a) in k.arenas && a + Capacity(descs, k, a) <= 4096 * (base + |used|)
  {
    assert LiveOk(descs, k, a);
    LiveInPool(descs, k, base, used, a);
  }

  lemma LiveApart(descs: seq<Desc>, k: Books, base: nat, used: seq<bool>, a: nat, b: nat)
    requires BooksOk(descs, k) && PagesOk(k, base, used) && a in k.live && b in k.live && a != b
    ensures PageOf(a) in k.arenas && PageOf(b) in k.arenas
    ensures a + Capacity(descs, k, a) <= b || b + Capacity(descs, k, b) <= a
  {
    LiveExtent(descs, k, base, used, a);
    LiveExtent(descs, k, base, used, b);
    if a < b { LiveDisjoint(descs, k, base, used, a, b); } else { LiveDisjoint(descs, k, base, used, b, a); }
  }

  // Writing beside a block does not change what it holds.
  lemma HeldBeside(descs: seq<Desc>, k: Books, mem: seq<byte>, a: nat, b: nat, data: seq<byte>)
    requires PageOf(a) in k.arenas && a + Capacity(descs, k, a) <= |mem| && b + |data| <= |mem|
    requires a + Capacity(descs, k, a) <= b || b + |data| <= a
    ensures Held(descs, k, Splice(mem, b, data), a) == Held(descs, k, mem, a)
  {
    SpliceElsewhere(mem, b, data, a, a + Capacity(descs, k, a));
  }

  // Filling the pages of one arena leaves the blocks of the others alone.
  lemma PagesFilled(descs: seq<Desc>, k: Books, base: nat, used: seq<bool>, mem: seq<byte>, p: nat)
    requires BooksOk(descs, k) && PagesOk(k, base, used) && p in k.arenas && |mem| == 4096 * (base + |used|)
    ensures 4096 * (p + PagesOf(k.arenas[p])) <= |mem|
    ensures forall a :: a in k.live && PageOf(a) != p ==>
              Held(descs, k, Splice(mem, 4096 * p, Filled(4096 * PagesOf(k.arenas[p]))), a) == Held(descs, k, mem, a)
  {
    var n := PagesOf(k.arenas[p]);
    assert PagesMarked(p, n, base, used);
    hide BooksOk, PagesOk, PagesMarked, Capacity, Held;
    forall a | a in k.live && PageOf(a) != p
      ensures Held(descs, k, Splice(mem, 4096 * p, Filled(4096 * n)), a) == Held(descs, k, mem, a)
    {
      LiveExtent(descs, k, base, used, a);
      LiveOffPages(descs, k, base, used, a, p);
      HeldBeside(descs, k, mem, a, 4096 * p, Filled(4096 * n));
    }
  }

  lemma DataWithout(descs: seq<Desc>, k: Books, k': Books, mem: seq<byte>, mem': seq<byte>, b: nat)
    requires Contents(descs, k', mem') - {b} == Contents(descs, k, mem) - {b} && b !in k'.live
    ensures Contents(descs, k', mem') == Contents(descs, k, mem) - {b}
  {
    assert Contents(descs, k', mem') - {b} == Contents(descs, k', mem');
  }

  function Filled(n: nat): (r: seq<byte>)
    ensures |r| == n
  {
    seq(n, _ => 0xcc)
  }

  // The page of a big block holds no other live block.
  lemma OnlyBigBlock(descs: seq<Desc>, k: Books, p: nat)
    requires BooksOk(descs, k) && p in k.arenas && k.arenas[p].Big?
    ensures forall a :: a in k.live && PageOf(a) == p ==> a == 4096 * p + 12
  {
    forall a | a in k.live && PageOf(a) == p
      ensures a == 4096 * p + 12
    {
      assert LiveOk(descs, k, a);
    }
  }

  lemma NowIdleGone(descs: seq<Desc>, k: Books, k': Books, p: nat)
    requires NoIdleExcept(descs, k, p) && k'.arenas == k.arenas - {p}
    ensures NoIdleArena(descs, k')
  {
  }

  // The surviving blocks hold what they held.
  lemma HeldAlike(descs: seq<Desc>, k: Books, k': Books, mem: seq<byte>, mem': seq<byte>, b: nat)
    requires k'.live == k.live - {b}
    requires forall a :: a in k'.live ==> Held(descs, k', mem', a) == Held(descs, k, mem, a)
    ensures Contents(descs, k', mem') == Contents(descs, k, mem) - {b}
    ensures b !in k.live ==> Contents(descs, k', mem') == Contents(descs, k, mem)
  {
  }

  // The blocks after data is written at the start of one of them.
  function Stored(m: map<nat, seq<byte>>, b: nat, data: seq<byte>): map<nat, seq<byte>> {
    if b in m && |data| <= |m[b]| then m[b := Splice(m[b], 0, data)] else m
  }

  lemma StoredLength(m: map<nat, seq<byte>>, b: nat, data: seq<byte>)
    requires b in m && |data| <= |m[b]|
    ensures b in Stored(m, b, data) && |Stored(m, b, data)[b]| == |m[b]|
  {
  }

  lemma Moved(d0: map<nat, seq<byte>>, d1: map<nat, seq<byte>>, b: nat, a: nat, copied: seq<byte>)
    requires d1 - {b} == d0 && b in d1 && a in d0 && |copied| <= |d1[b]|
    ensures var d := Stored(d1, b, copied) - {a};
            d - {b} == d0 - {a} && (a != b ==> b in d && d[b][..|copied|] == copied)
  {
    assert b !in d0;
    SpliceSlices(d1[b], 0, copied);
  }

  lemma StoredBlock(descs: seq<Desc>, k: Books, base: nat, used: seq<bool>, mem: seq<byte>, b: nat, data: seq<byte>)
    requires BooksOk(descs, k) && PagesOk(k, base, used) && b in k.live && |mem| == 4096 * (base + |used|)
    requires PageOf(b) in k.arenas && |data| <= Capacity(descs, k, b)
    ensures b + |data| <= |mem|
    ensures Contents(descs, k, Splice(mem, b, data)) == Stored(Contents(descs, k, mem), b, data)
  {
    hide Held, BooksOk, PagesOk, Splice, Capacity;
    LiveExtent(descs, k, base, used, b);
    forall a | a in k.live && a != b
      ensures Held(descs, k, Splice(mem, b, data), a) == Held(descs, k, mem, a)
    {
      LiveExtent(descs, k, base, used, a);
      LiveApart(descs, k, base, used, a, b);
      HeldBeside(descs, k, mem, a, b, data);
    }
    HeldStored(descs, k, mem, b, data);
  }

  // A product of at least 2^32 is more than any block.
  lemma Wrapped(n: nat, size: nat, room: nat)
    requires size == n % 0x1_0000_0000 && room < LIMIT && (room >= size <==> size <= 0xFFFF_FFF4)
    ensures room >= n <==> n <= 0xFFFF_FFF4
  {
  }

  lemma ZeroedPrefix(m: map<nat, seq<byte>>, p: nat, n: nat)
    requires p in m && n <= |m[p]|
    ensures var m' := Stored(m, p, Zeros(n)); m' - {p} == m - {p} && |m'[p]| == |m[p]| && m'[p][..n] == Zeros(n)
  {
  }

  lemma HeldWhole(descs: seq<Desc>, k: Books, mem: seq<byte>, a: nat)
    requires a in k.live && PageOf(a) in k.arenas && a + Capacity(descs, k, a) <= |mem|
    ensures a in Contents(descs, k, mem)
    ensures Contents(descs, k, mem)[a] == mem[a..a + Capacity(descs, k, a)]
  {
    hide Capacity;
  }

  lemma HeldStored(descs: seq<Desc>, k: Books, mem: seq<byte>, b: nat, data: seq<byte>)
    requires PageOf(b) in k.arenas && |data| <= Capacity(descs, k, b) && b + Capacity(descs, k, b) <= |mem|
    ensures |Held(descs, k, mem, b)| == Capacity(descs, k, b)
    ensures Held(descs, k, Splice(mem, b, data), b) == Splice(Held(descs, k, mem, b), 0, data)
  {
    hide Capacity;
  }

  // Only the arena in page p is new or changed.
  lemma StillNoIdle(descs: seq<Desc>, k: Books, k': Books, p: nat)
    requires NoIdleArena(descs, k)
    requires forall q :: q in k'.arenas && q != p ==> q in k.arenas && k'.arenas[q] == k.arenas[q]
    requires p in k'.arenas && k'.arenas[p].Small? && k'.arenas[p].desc < |descs| ==>
               k'.arenas[p].freeCnt < descs[k'.arenas[p].desc].count
    ensures NoIdleArena(descs, k')
  {
  }

  // The wrapped product of 65537 by itself is 131073: memory for that many
  // bytes is handed out for the 4295098369 asked for.
  method CallocTooSmall(h: Heap) returns (p: nat)
    requires h.Valid()
    modifies h`used, h`mem, h`freeLists, h`arenas, h`live
    ensures h.Valid() && (p == 0 <==> OutOfPages(h.descs, old(h.used), 131073))
    ensures p != 0 ==> 131073 <= h.CapacityOf(p) < 0x1_0001 * 0x1_0001
  {
    h.ValidPool();
    HalfPageTooBig(h.descs, 131073);
    hide Heap.Valid, Heap.Pool, Heap.Data, Heap.CapacityOf, Fits, OutOfPages, Spare, TooBig, AfterGet;
    var overrun;
    p, overrun := h.Calloc(0x1_0001, 0x1_0001);
    if p != 0 {
      h.ValidPool();
      h.DataLength(p);
    }
  }

  // ---- A client that keeps the pointers it was given in slots. ----

  datatype Op =
    | DoMalloc(size: nat)
    | DoCalloc(a: nat, b: nat)
    | DoFree(slot: nat)
    | DoRealloc(slot: nat, size: nat)
    | DoStore(slot: nat, data: seq<byte>)

  // The arguments are 32-bit sizes.
  predicate OpOk(op: Op) {
    match op
    case DoMalloc(size) => size < LIMIT
    case DoCalloc(a, b) => a < LIMIT && b < LIMIT
    case DoRealloc(_, size) => size < LIMIT
    case _ => true
  }

  predicate Touches(op: Op, slot: nat) {
    match op
    case DoMalloc(_) => false
    case DoCalloc(_, _) => false
    case DoFree(i) => i == slot
    case DoRealloc(i, _) => i == slot
    case DoStore(i, _) => i == slot
  }

  // What the client sees: what each slot gives access to, and the page map.
  datatype Slot = Null | Block(at: nat, bytes: seq<byte>)

  datatype State = State(slots: seq<Slot>, pages: seq<bool>)

  ghost function Seen(m: map<nat, seq<byte>>, slots: seq<nat>): (r: seq<Slot>)
    ensures |r| == |slots|
  {
    seq(|slots|, i requires 0 <= i < |slots| => if slots[i] in m then Block(slots[i], m[slots[i]]) else Null)
  }

  ghost function Abs(h: Heap, slots: seq<nat>): State
    reads h`used, h`mem, h`descs, h`freeLists, h`arenas, h`live
  {
    State(Seen(h.Data(), slots), h.used)
  }

  // Where the blocks of the slots are.
  ghost function Ats(slots: seq<Slot>): set<nat> {
    set i | 0 <= i < |slots| && slots[i].Block? :: slots[i].at
  }

  function At(x: Slot): nat {
    if x.Block? then x.at else 0
  }

  function Room(x: Slot): nat {
    if x.Block? then |x.bytes| else 0
  }

  // A page with a block of this descriptor has another that no slot has.
  ghost predicate SpareIn(d: Desc, slots: seq<Slot>) {
    exists j, a :: 0 <= j < |slots| && slots[j].Block? && |slots[j].bytes| == d.size
                   && a in Blocks(PageOf(slots[j].at), d.size, d.count) && a !in Ats(slots)
  }

  ghost predicate SpareFor(descs: seq<Desc>, slots: seq<Slot>, size: nat) {
    exists d :: 0 <= d < |descs| && FirstFit(descs, size, d) && SpareIn(descs[d], slots)
  }

  // What an operation does, as the client sees it.
  ghost predicate StepOk(descs: seq<Desc>, base: nat, s: State, op: Op, t: State) {
    match op
    case DoMalloc(size) => NewSlot(descs, base, s, t, size)
    case DoCalloc(a, b) => ClearedSlot(descs, base, s, t, a, b)
    case DoFree(i) => if i < |s.slots| then FreedSlot(base, s, t, i) else t == s
    case DoRealloc(i, size) =>
      if i >= |s.slots| then t == s
      else if size == 0 then FreedSlot(base, s, t, i)
      else MovedSlot(descs, base, s, t, i, size)
    case DoStore(i, data) => StoredSlot(s, t, i, data)
  }

  ghost predicate ClearedSlot(descs: seq<Desc>, base: nat, s: State, t: State, a: nat, b: nat) {
    var size := a * b % 0x1_0000_0000;
    if PassesTest(a, b) then
      && NewSlot(descs, base, s, t, size)
      && (t.slots[|s.slots|].Block? ==>
            size <= |t.slots[|s.slots|].bytes| && t.slots[|s.slots|].bytes[..size] == Zeros(size))
    else t == s.(slots := s.slots + [Null])
  }

  ghost predicate StoredSlot(s: State, t: State, i: nat, data: seq<byte>) {
    && t.pages == s.pages
    && t.slots == if i < |s.slots| && s.slots[i].Block? && |data| <= |s.slots[i].bytes|
                  then s.slots[i := s.slots[i].(bytes := Splice(s.slots[i].bytes, 0, data))]
                  else s.slots
  }

  // One more slot, for a block of the size the request gets or, if there is
  // neither a spare block nor a run of pages for it, for none.
  ghost predicate NewSlot(descs: seq<Desc>, base: nat, s: State, t: State, size: nat) {
    && |t.slots| == |s.slots| + 1 && t.slots[..|s.slots|] == s.slots
    && Served(descs, base, s, t.slots[|s.slots|], size)
    && t.pages == PagesAfter(descs, base, s, t.slots[|s.slots|], size)
  }

  ghost predicate Served(descs: seq<Desc>, base: nat, s: State, x: Slot, size: nat) {
    && Got(descs, base, s.pages, SpareFor(descs, s.slots, size), At(x), size)
    && (x.Block? ==> x.at != 0 && Fits(descs, size, |x.bytes|))
  }

  ghost function PagesAfter(descs: seq<Desc>, base: nat, s: State, x: Slot, size: nat): seq<bool> {
    AfterGet(descs, base, s.pages, SpareFor(descs, s.slots, size), At(x), size)
  }

  // The slot is empty; its pages go back unless another block lies on them.
  ghost predicate FreedSlot(base: nat, s: State, t: State, i: nat)
    requires i < |s.slots|
  {
    && t.slots == s.slots[i := Null]
    && t.pages == AfterFree(base, s.pages, Ats(t.slots), At(s.slots[i]), Room(s.slots[i]))
  }

  // The slot has another block, whose bytes start as those of the old one do,
  // or nothing changes for lack of memory.
  ghost predicate MovedSlot(descs: seq<Desc>, base: nat, s: State, t: State, i: nat, size: nat)
    requires i < |s.slots|
  {
    if OutOfPages(descs, s.pages, size) && !SpareFor(descs, s.slots, size) then t == s
    else
      && |t.slots| == |s.slots| && t.slots == s.slots[i := t.slots[i]]
      && Served(descs, base, s, t.slots[i], size) && MovedBlock(s.slots[i], t.slots[i], size)
      && t.pages == AfterFree(base, PagesAfter(descs, base, s, t.slots[i], size),
                              Ats(t.slots), At(s.slots[i]), Room(s.slots[i]))
  }

  ghost predicate MovedBlock(x: Slot, y: Slot, size: nat) {
    y.Block? && (x.Block? ==> StartsAs(y.bytes, x.bytes, size))
  }

  ghost predicate StartsAs(bytes: seq<byte>, past: seq<byte>, n: nat) {
    var m := if n < |past| then n else |past|;
    m <= |bytes| && bytes[..m] == past[..m]
  }

  // What writes past a block of 4084 bytes.
  ghost predicate Overruns(descs: seq<Desc>, s: State, op: Op) {
    match op
    case DoCalloc(a, b) => PassesTest(a, b) && Wraps(descs, s.pages, a * b % 0x1_0000_0000)
    case DoRealloc(i, size) => MoveOverruns(descs, s, i, size)
    case _ => false
  }

  ghost predicate MoveOverruns(descs: seq<Desc>, s: State, i: nat, size: nat) {
    i < |s.slots| && s.slots[i].Block? && |s.slots[i].bytes| > 4084 && Wraps(descs, s.pages, size)
  }

  // The slots give access to separate stretches of memory.
  ghost predicate Apart(s: State) {
    forall i, j :: 0 <= i < |s.slots| && 0 <= j < |s.slots| && i != j && s.slots[i].Block? && s.slots[j].Block? ==>
      ApartFrom(s.slots[i], s.slots[j])
  }

  ghost predicate ApartFrom(a: Slot, b: Slot)
    requires a.Block? && b.Block?
  {
    a.at + |a.bytes| <= b.at || b.at + |b.bytes| <= a.at
  }

  // A block of some descriptor in its place in the arena, or one on pages of its own.
  ghost predicate WellPlaced(descs: seq<Desc>, a: nat, room: nat) {
    || (exists d :: 0 <= d < |descs| && room == descs[d].size && a in Blocks(PageOf(a), descs[d].size, descs[d].count))
    || (a == 4096 * PageOf(a) + 12 && exists n: nat :: room == RoomOn(n))
  }

  // What pages of a block's own leave it.
  function RoomOn(n: nat): int {
    4096 * n - 12
  }

  // The slots' blocks are where an arena has blocks, on the marked pages that
  // are nobody else's, and they leave none of those out.
  ghost predicate Tidy(descs: seq<Desc>, base: nat, others: seq<bool>, s: State) {
    && (forall i :: 0 <= i < |s.slots| && s.slots[i].Block? ==> WellPlaced(descs, s.slots[i].at, |s.slots[i].bytes|))
    && |s.pages| == |others|
    && forall i :: 0 <= i < |s.pages| ==> HeldOnce(s.pages[i], others[i], Reached(s.slots, base + i))
  }

  ghost predicate Reached(slots: seq<Slot>, q: nat) {
    exists j :: 0 <= j < |slots| && slots[j].Block? && ReachesOver(slots[j].at, |slots[j].bytes|, q)
  }

  // The slots have exactly the blocks in use, each with all of its bytes.
  ghost predicate Shown(descs: seq<Desc>, k: Books, slots: seq<Slot>) {
    && Ats(slots) == k.live
    && forall i :: 0 <= i < |slots| && slots[i].Block? ==>
         PageOf(slots[i].at) in k.arenas && |slots[i].bytes| == Capacity(descs, k, slots[i].at)
  }

  // The non-null slots are distinct and are exactly the blocks in use.
  ghost predicate SlotsOk(slots: seq<nat>, live: set<nat>) {
    && (forall i :: 0 <= i < |slots| && slots[i] != 0 ==> slots[i] in live)
    && (forall i, j :: 0 <= i < j < |slots| && slots[i] != 0 ==> slots[i] != slots[j])
    && (forall a :: a in live ==> a in slots)
  }

  lemma SlotsPlus(slots: seq<nat>, live: set<nat>, b: nat)
    requires SlotsOk(slots, live) && 0 !in live && b !in live
    ensures b != 0 ==> SlotsOk(slots + [b], live + {b})
    ensures b == 0 ==> SlotsOk(slots + [b], live)
  {
    var s := slots + [b];
    assert s[|slots|] == b;
    forall a | a in live
      ensures a in s
    {
      assert a in slots;
    }
  }

  lemma SlotsMinus(slots: seq<nat>, live: set<nat>, i: nat)
    requires SlotsOk(slots, live) && 0 !in live && i < |slots|
    ensures SlotsOk(slots[i := 0], live - {slots[i]})
  {
    var s := slots[i := 0];
    forall a | a in live && a != slots[i]
      ensures a in s
    {
      var j :| 0 <= j < |slots| && slots[j] == a;
      assert s[j] == a;
    }
  }

  lemma SlotsMoved(slots: seq<nat>, live: set<nat>, i: nat, b: nat)
    requires SlotsOk(slots, live) && 0 !in live && i < |slots| && b != 0 && b !in live
    ensures SlotsOk(slots[i := b], live - {slots[i]} + {b})
  {
    var s := slots[i := b];
    forall a | a in live && a != slots[i]
      ensures a in s
    {
      var j :| 0 <= j < |slots| && slots[j] == a;
      assert s[j] == a;
    }
    assert s[i] == b;
  }

  // Blocks other than a and b hold what they held.
  lemma OthersKept(m: map<nat, seq<byte>>, m': map<nat, seq<byte>>, a: nat, b: nat)
    requires m' - {b} == m - {a}
    ensures forall x :: x != a && x != b ==> (x in m <==> x in m') && (x in m ==> m'[x] == m[x])
  {
    forall x | x != a && x != b
      ensures (x in m <==> x in m') && (x in m ==> m'[x] == m[x])
    {
      assert x in m' <==> x in m' - {b};
      assert x in m <==> x in m - {a};
    }
  }

  lemma SeenPlus(m: map<nat, seq<byte>>, m': map<nat, seq<byte>>, slots: seq<nat>, b: nat)
    requires SlotsOk(slots, m.Keys) && 0 !in m && 0 !in m' && b !in m && m' - {b} == m
    ensures var t := Seen(m', slots + [b]);
            && |t| == |slots| + 1 && t[..|slots|] == Seen(m, slots)
            && t[|slots|] == if b in m' then Block(b, m'[b]) else Null
  {
    OthersKept(m, m', b, b);
    var t := Seen(m', slots + [b]);
    forall i | 0 <= i < |slots|
      ensures t[i] == Seen(m, slots)[i]
    {
      assert slots[i] != 0 ==> slots[i] in m;
    }
  }

  lemma SeenMoved(m: map<nat, seq<byte>>, m': map<nat, seq<byte>>, slots: seq<nat>, i: nat, b: nat)
    requires SlotsOk(slots, m.Keys) && 0 !in m && 0 !in m' && i < |slots| && b !in m && m' - {b} == m - {slots[i]}
    ensures Seen(m', slots[i := b]) == Seen(m, slots)[i := if b in m' then Block(b, m'[b]) else Null]
  {
    OthersKept(m, m', slots[i], b);
    var t := Seen(m', slots[i := b]);
    forall j | 0 <= j < |slots| && j != i
      ensures t[j] == Seen(m, slots)[j]
    {
      assert slots[j] != 0 ==> slots[j] in m && slots[j] != slots[i];
    }
  }

  lemma SeenStored(m: map<nat, seq<byte>>, slots: seq<nat>, i: nat, data: seq<byte>)
    requires SlotsOk(slots, m.Keys) && i < |slots| && slots[i] != 0 && slots[i] in m && |data| <= |m[slots[i]]|
    ensures Seen(Stored(m, slots[i], data), slots)
            == Seen(m, slots)[i := Block(slots[i], Splice(m[slots[i]], 0, data))]
  {
    var t := Seen(Stored(m, slots[i], data), slots);
    forall j | 0 <= j < |slots| && j != i
      ensures t[j] == Seen(m, slots)[j]
    {
      assert slots[j] != 0 ==> slots[j] != slots[i];
    }
  }

  lemma SeenApart(h: Heap, slots: seq<nat>)
    requires h.Valid() && SlotsOk(slots, h.live)
    ensures Apart(Abs(h, slots))
  {
    h.ValidPool();
    h.DataKeys();
    hide Heap.Valid, Heap.Pool, Heap.Data, Heap.CapacityOf;
    h.Separate();
    forall i, j | 0 <= i < |slots| && 0 <= j < |slots| && i != j && Abs(h, slots).slots[i].Block? && Abs(h, slots).slots[j].Block?
      ensures ApartFrom(Abs(h, slots).slots[i], Abs(h, slots).slots[j])
    {
      h.DataLength(slots[i]);
      h.DataLength(slots[j]);
      h.LivePositive();
    }
  }

  lemma AtsSeen(m: map<nat, seq<byte>>, slots: seq<nat>)
    requires SlotsOk(slots, m.Keys) && 0 !in m
    ensures Ats(Seen(m, slots)) == m.Keys
  {
    forall a | a in m
      ensures a in Ats(Seen(m, slots))
    {
      var i :| 0 <= i < |slots| && slots[i] == a;
      assert Seen(m, slots)[i] == Block(a, m[a]);
    }
  }

  lemma ShownSlots(h: Heap, slots: seq<nat>)
    requires h.Valid() && SlotsOk(slots, h.live)
    ensures Shown(h.descs, h.K(), Abs(h, slots).slots)
  {
    h.ValidPool();
    hide Heap.Valid, Heap.Pool, Heap.Data;
    h.DataKeys();
    h.LivePositive();
    AtsSeen(h.Data(), slots);
    forall i | 0 <= i < |slots| && slots[i] in h.live
      ensures PageOf(slots[i]) in h.arenas && |h.Data()[slots[i]]| == h.CapacityOf(slots[i])
    {
      h.DataLength(slots[i]);
      h.LiveBlock(slots[i]);
    }
    hide SlotsOk, Ats, PageOf, Capacity;
  }

  // The size of a block in use tells its descriptor.
  lemma SizeTells(descs: seq<Desc>, k: Books, b: nat, d: nat)
    requires BooksOk(descs, k) && SizesApart(descs) && b in k.live && d < |descs|
    ensures PageOf(b) in k.arenas
    ensures Capacity(descs, k, b) == descs[d].size <==> k.arenas[PageOf(b)].Small? && k.arenas[PageOf(b)].desc == d
  {
    assert LiveOk(descs, k, b) && CountOk(descs, k, PageOf(b)) && DescOk(descs[d]);
    hide BooksOk, ListsOk, Blocks, FreeIn, NoIdleArena;
    match k.arenas[PageOf(b)]
    case Small(e, _) => if e != d { assert descs[e].size != descs[d].size; }
    case Big(n) => assert 2 * descs[d].size <= descs[d].count * descs[d].size;
  }

  // Whether a free block is listed shows in the slots.
  lemma SpareInShown(descs: seq<Desc>, k: Books, slots: seq<Slot>, d: nat)
    requires BooksOk(descs, k) && NoIdleArena(descs, k) && SizesApart(descs) && Shown(descs, k, slots) && d < |descs|
    ensures |k.freeLists| == |descs| && (k.freeLists[d] != [] <==> SpareIn(descs[d], slots))
  {
    SpareListed(descs, k, d);
    forall b | b in k.live
      ensures PageOf(b) in k.arenas
      ensures Capacity(descs, k, b) == descs[d].size <==> k.arenas[PageOf(b)].Small? && k.arenas[PageOf(b)].desc == d
    {
      SizeTells(descs, k, b, d);
    }
    hide BooksOk, NoIdleArena, SizesApart, Capacity, PageOf, Blocks;
    if HasSpare(descs, k, d) {
      var b, a :| b in k.live && PageOf(b) in k.arenas && k.arenas[PageOf(b)].Small? && k.arenas[PageOf(b)].desc == d
                  && a in Blocks(PageOf(b), descs[d].size, descs[d].count) && a !in k.live;
      assert b in Ats(slots);
      var j :| 0 <= j < |slots| && slots[j].Block? && slots[j].at == b;
      assert SpareIn(descs[d], slots);
    }
    if SpareIn(descs[d], slots) {
      var j, a :| 0 <= j < |slots| && slots[j].Block? && |slots[j].bytes| == descs[d].size
                  && a in Blocks(PageOf(slots[j].at), descs[d].size, descs[d].count) && a !in Ats(slots);
      assert slots[j].at in Ats(slots);
    }
  }

  lemma SpareShown(descs: seq<Desc>, k: Books, slots: seq<Slot>, size: nat)
    requires BooksOk(descs, k) && NoIdleArena(descs, k) && SizesApart(descs) && Shown(descs, k, slots)
    ensures Spare(descs, k.freeLists, size) <==> SpareFor(descs, slots, size)
  {
    hide BooksOk, NoIdleArena, SizesApart, Shown, SpareIn, FirstFit;
    forall d: nat | d < |descs|
      ensures |k.freeLists| == |descs| && (k.freeLists[d] != [] <==> SpareIn(descs[d], slots))
    {
      SpareInShown(descs, k, slots, d);
    }
  }

  lemma LivePlaced(descs: seq<Desc>, k: Books, a: nat)
    requires BooksOk(descs, k) && a in k.live
    ensures PageOf(a) in k.arenas && WellPlaced(descs, a, Capacity(descs, k, a))
  {
    assert LiveOk(descs, k, a) && CountOk(descs, k, PageOf(a));
    hide BooksOk, ListsOk, Blocks, FreeIn, PageOf, RoomOn;
    if k.arenas[PageOf(a)].Big? {
      BigRoom(descs, k, a);
      hide Capacity;
    }
  }

  lemma BigRoom(descs: seq<Desc>, k: Books, a: nat)
    requires PageOf(a) in k.arenas && k.arenas[PageOf(a)].Big? && k.arenas[PageOf(a)].pages > 0 && a == 4096 * PageOf(a) + 12
    ensures Capacity(descs, k, a) == RoomOn(k.arenas[PageOf(a)].pages)
  {
    hide PageOf;
  }

  lemma TidyShown(descs: seq<Desc>, k: Books, base: nat, used: seq<bool>, others: seq<bool>, slots: seq<Slot>)
    requires BooksOk(descs, k) && NoIdleArena(descs, k) && Shown(descs, k, slots) && OwnersOk(k.arenas, base, used, others)
    ensures Tidy(descs, base, others, State(slots, used))
  {
    forall i | 0 <= i < |slots| && slots[i].Block?
      ensures WellPlaced(descs, slots[i].at, |slots[i].bytes|)
    {
      assert slots[i].at in Ats(slots);
      LivePlaced(descs, k, slots[i].at);
    }
    hide BooksOk, NoIdleArena, Shown, Reached, Covered, WellPlaced;
    forall q: nat
      ensures Reached(slots, q) <==> Covered(k.arenas, q)
    {
      ReachedShown(descs, k, slots, q);
    }
  }

  lemma ReachedShown(descs: seq<Desc>, k: Books, slots: seq<Slot>, q: nat)
    requires BooksOk(descs, k) && NoIdleArena(descs, k) && Shown(descs, k, slots)
    ensures Reached(slots, q) <==> Covered(k.arenas, q)
  {
    CoveredByLive(descs, k, q);
    hide BooksOk, NoIdleArena, ReachesOver, Capacity, PageOf, Covered;
    if Reached(slots, q) {
      var j :| 0 <= j < |slots| && slots[j].Block? && ReachesOver(slots[j].at, |slots[j].bytes|, q);
      assert slots[j].at in Ats(slots);
    }
    if Covered(k.arenas, q) {
      var a :| a in k.live && PageOf(a) in k.arenas && ReachesOver(a, Capacity(descs, k, a), q);
      assert a in Ats(slots);
    }
  }

  // What the client knows of the pages and the free blocks.
  lemma SeenTidy(h: Heap, slots: seq<nat>)
    requires h.Valid() && SlotsOk(slots, h.live)
    ensures Tidy(h.descs, h.basePage, h.others, Abs(h, slots))
  {
    ShownSlots(h, slots);
    BooksOfValid(h);
    hide *;
    TidyShown(h.descs, h.K(), h.basePage, h.used, h.others, Abs(h, slots).slots);
    AbsOf(h, slots);
  }

  lemma SeenSpare(h: Heap, slots: seq<nat>, size: nat)
    requires h.Valid() && SlotsOk(slots, h.live)
    ensures Spare(h.descs, h.freeLists, size) <==> SpareFor(h.descs, Abs(h, slots).slots, size)
  {
    ShownSlots(h, slots);
    BooksOfValid(h);
    hide *;
    SpareShown(h.descs, h.K(), Abs(h, slots).slots, size);
  }

  lemma BooksOfValid(h: Heap)
    requires h.Valid()
    ensures BooksOk(h.descs, h.K()) && NoIdleArena(h.descs, h.K()) && SizesApart(h.descs)
    ensures h.K().arenas == h.arenas && h.K().freeLists == h.freeLists && OwnersOk(h.arenas, h.basePage, h.used, h.others)
  {
  }

  lemma AbsOf(h: Heap, slots: seq<nat>)
    ensures Abs(h, slots) == State(Seen(h.Data(), slots), h.used)
  {
  }

  // The client after a malloc or a calloc.
  lemma OneMoreSlot(h: Heap, before: State, m: map<nat, seq<byte>>, slots: seq<nat>, b: nat)
    requires h.Valid() && before.slots == Seen(m, slots) && SlotsOk(slots, m.Keys) && 0 !in m && b !in m
    requires h.Data() - {b} == m && h.live == if b == 0 then m.Keys else m.Keys + {b}
    ensures SlotsOk(slots + [b], h.live)
    ensures var t := Abs(h, slots + [b]).slots;
            && |t| == |slots| + 1 && t[..|slots|] == before.slots
            && t[|slots|] == (if b == 0 then Null else Block(b, h.Data()[b]))
            && (b != 0 ==> |h.Data()[b]| == h.CapacityOf(b))
  {
    h.ValidPool();
    hide Heap.Valid, Heap.Pool, Heap.Data, Heap.CapacityOf, SlotsOk, Seen;
    h.DataKeys();
    h.LivePositive();
    SlotsPlus(slots, m.Keys, b);
    SeenPlus(m, h.Data(), slots, b);
    if b != 0 { h.DataLength(b); }
  }

  method PerformMalloc(h: Heap, slots: seq<nat>, size: nat) returns (s: seq<nat>)
    requires h.Valid() && SlotsOk(slots, h.live) && size < LIMIT
    modifies h`used, h`mem, h`freeLists, h`arenas, h`live
    ensures h.Valid() && SlotsOk(s, h.live) && StepOk(h.descs, h.basePage, old(Abs(h, slots)), DoMalloc(size), Abs(h, s))
  {
    hide Heap.Valid, Heap.Pool, Heap.Data, Heap.CapacityOf, Fits, Got, AfterGet, SlotsOk, Seen, Spare, SpareFor;
    SeenSpare(h, slots, size);
    h.ValidPool();
    h.LivePositive();
    h.DataKeys();
    var b := h.Malloc(size);
    s := slots + [b];
    OneMoreSlot(h, old(Abs(h, slots)), old(h.Data()), slots, b);
  }

  method PerformCalloc(h: Heap, slots: seq<nat>, x: nat, y: nat) returns (s: seq<nat>, overrun: bool)
    requires h.Valid() && SlotsOk(slots, h.live) && x < LIMIT && y < LIMIT
    modifies h`used, h`mem, h`freeLists, h`arenas, h`live
    ensures h.Valid() && SlotsOk(s, h.live)
    ensures overrun <==> Overruns(h.descs, old(Abs(h, slots)), DoCalloc(x, y))
    ensures !overrun ==> StepOk(h.descs, h.basePage, old(Abs(h, slots)), DoCalloc(x, y), Abs(h, s))
  {
    hide Heap.Valid, Heap.Pool, Heap.Data, Heap.CapacityOf, Fits, Got, AfterGet, SlotsOk, Seen, Spare, SpareFor;
    SeenSpare(h, slots, x * y % 0x1_0000_0000);
    h.ValidPool();
    h.LivePositive();
    h.DataKeys();
    var b;
    b, overrun := h.Calloc(x, y);
    s := slots + [b];
    OneMoreSlot(h, old(Abs(h, slots)), old(h.Data()), slots, b);
  }

  method PerformFree(h: Heap, slots: seq<nat>, i: nat) returns (s: seq<nat>)
    requires h.Valid() && SlotsOk(slots, h.live) && i < |slots|
    modifies h`used, h`mem, h`freeLists, h`arenas, h`live
    ensures h.Valid() && SlotsOk(s, h.live) && FreedSlot(h.basePage, old(Abs(h, slots)), Abs(h, s), i)
  {
    SlotInUse(h, slots, i);
    SeenAt(h, slots, i);
    hide Heap.Valid, Heap.Pool, Heap.Data, Heap.CapacityOf, SlotsOk, Seen, Ats, AfterFree;
    h.ValidPool();
    h.LivePositive();
    h.DataKeys();
    h.Free(slots[i]);
    s := slots[i := 0];
    SlotsMinus(slots, old(h.live), i);
    h.ValidPool();
    h.LivePositive();
    SeenMoved(old(h.Data()), h.Data(), slots, i, 0);
    h.DataKeys();
    AtsSeen(h.Data(), s);
    NullHasNoRoom(h.basePage, old(h.used), h.live, slots[i]);
  }

  lemma NullHasNoRoom(base: nat, pages: seq<bool>, live: set<nat>, b: nat)
    ensures b == 0 ==> forall room, room' :: AfterFree(base, pages, live, b, room) == AfterFree(base, pages, live, b, room')
  {
  }

  lemma SlotInUse(h: Heap, slots: seq<nat>, i: nat)
    requires SlotsOk(slots, h.live) && i < |slots|
    ensures slots[i] == 0 || slots[i] in h.live
  {
  }

  lemma SeenAt(h: Heap, slots: seq<nat>, i: nat)
    requires h.Valid() && SlotsOk(slots, h.live) && i < |slots|
    ensures var x := Abs(h, slots).slots[i];
            && (slots[i] == 0 ==> x == Null)
            && (slots[i] != 0 ==> slots[i] in h.Data() && x == Block(slots[i], h.Data()[slots[i]])
                                  && |x.bytes| == h.CapacityOf(slots[i]))
  {
    h.ValidPool();
    hide Heap.Valid, Heap.Pool, Heap.Data, Heap.CapacityOf;
    h.DataKeys();
    h.LivePositive();
    if slots[i] != 0 { h.DataLength(slots[i]); }
  }

  method PerformRealloc(h: Heap, slots: seq<nat>, i: nat, size: nat) returns (s: seq<nat>, overrun: bool)
    requires h.Valid() && SlotsOk(slots, h.live) && i < |slots| && 0 < size < LIMIT
    modifies h`used, h`mem, h`freeLists, h`arenas, h`live
    ensures h.Valid() && (overrun <==> MoveOverruns(h.descs, old(Abs(h, slots)), i, size))
    ensures !overrun ==> SlotsOk(s, h.live)
    ensures !overrun ==> MovedSlot(h.descs, h.basePage, old(Abs(h, slots)), Abs(h, s), i, size)
  {
    SlotInUse(h, slots, i);
    BeforeMove(h, slots, i, size);
    hide *;
    ghost var m := h.Data();
    ghost var before := Abs(h, slots);
    var b;
    b, overrun := h.Realloc(slots[i], size);
    s := slots;
    if !overrun {
      if b == 0 {
        NotMovedTo(h, m, before, slots, i, size);
      } else {
        s := slots[i := b];
        MovedTo(h, m, before, slots, i, b, size);
      }
    }
  }

  lemma BeforeMove(h: Heap, slots: seq<nat>, i: nat, size: nat)
    requires h.Valid() && SlotsOk(slots, h.live) && i < |slots|
    ensures 0 !in h.live && h.live == h.Data().Keys && Abs(h, slots) == State(Seen(h.Data(), slots), h.used)
    ensures MoveOverruns(h.descs, Abs(h, slots), i, size) <==>
              slots[i] != 0 && h.CapacityOf(slots[i]) > 4084 && Wraps(h.descs, h.used, size)
    ensures Spare(h.descs, h.freeLists, size) <==> SpareFor(h.descs, Abs(h, slots).slots, size)
    ensures slots[i] != 0 ==> h.CapacityOf(slots[i]) == Room(Abs(h, slots).slots[i])
    ensures At(Abs(h, slots).slots[i]) == slots[i]
  {
    SlotInUse(h, slots, i);
    SeenAt(h, slots, i);
    SeenSpare(h, slots, size);
    h.ValidPool();
    hide Heap.Valid, Heap.Pool, Heap.Data, Heap.CapacityOf, SlotsOk, Seen, Wraps, Spare, SpareFor;
    h.DataKeys();
    h.LivePositive();
  }

  lemma NotMovedTo(h: Heap, m: map<nat, seq<byte>>, before: State, slots: seq<nat>, i: nat, size: nat)
    requires i < |slots| && size > 0 && SlotsOk(slots, m.Keys) && h.live == m.Keys && h.Data() == m
    requires before == State(Seen(m, slots), before.pages)
    requires Got(h.descs, h.basePage, before.pages, SpareFor(h.descs, before.slots, size), 0, size)
    requires h.used == AfterGet(h.descs, h.basePage, before.pages, SpareFor(h.descs, before.slots, size), 0, size)
    ensures SlotsOk(slots, h.live) && MovedSlot(h.descs, h.basePage, before, Abs(h, slots), i, size)
  {
    hide SlotsOk, OutOfPages, SpareFor, Seen, Heap.Data;
  }

  // The client after a realloc that moved the block.
  lemma MovedTo(h: Heap, m: map<nat, seq<byte>>, before: State, slots: seq<nat>, i: nat, b: nat, size: nat)
    requires h.Valid() && SlotsOk(slots, m.Keys) && 0 !in m && i < |slots| && b != 0 && b !in m
    requires before == State(Seen(m, slots), before.pages) && h.live == m.Keys - {slots[i]} + {b}
    requires h.Data() - {b} == m - {slots[i]} && Fits(h.descs, size, h.CapacityOf(b))
    requires slots[i] != 0 ==> CommonPrefix(h.Data(), b, m, slots[i], size)
    requires Got(h.descs, h.basePage, before.pages, SpareFor(h.descs, before.slots, size), b, size)
    requires var got := AfterGet(h.descs, h.basePage, before.pages, SpareFor(h.descs, before.slots, size), b, size);
             h.used == AfterFree(h.basePage, got, h.live, slots[i], Room(before.slots[i]))
    ensures SlotsOk(slots[i := b], h.live) && MovedSlot(h.descs, h.basePage, before, Abs(h, slots[i := b]), i, size)
  {
    SlotsMoved(slots, m.Keys, i, b);
    h.ValidPool();
    hide *;
    h.DataLength(b);
    h.LivePositive();
    h.DataKeys();
    MovedStep(h.descs, h.basePage, m, h.Data(), before, h.used, slots, i, b, size);
    AbsOf(h, slots[i := b]);
  }

  lemma MovedStep(descs: seq<Desc>, base: nat, m: map<nat, seq<byte>>, m': map<nat, seq<byte>>, before: State, pages: seq<bool>,
                  slots: seq<nat>, i: nat, b: nat, size: nat)
    requires SlotsOk(slots, m.Keys) && 0 !in m && 0 !in m' && i < |slots| && b !in m && m' - {b} == m - {slots[i]}
    requires SlotsOk(slots[i := b], m'.Keys) && before == State(Seen(m, slots), before.pages)
    requires b in m' && b != 0 && Fits(descs, size, |m'[b]|)
    requires slots[i] != 0 ==> CommonPrefix(m', b, m, slots[i], size)
    requires Got(descs, base, before.pages, SpareFor(descs, before.slots, size), b, size)
    requires var got := AfterGet(descs, base, before.pages, SpareFor(descs, before.slots, size), b, size);
             pages == AfterFree(base, got, m'.Keys, slots[i], Room(before.slots[i]))
    ensures MovedSlot(descs, base, before, State(Seen(m', slots[i := b]), pages), i, size)
  {
    AtsSeen(m', slots[i := b]);
    SlotIs(m, slots, i);
    hide SlotsOk, Fits, Ats, AfterGet, AfterFree, SpareFor, OutOfPages, FirstFree, PagesFor;
    SeenMoved(m, m', slots, i, b);
  }

  lemma SlotIs(m: map<nat, seq<byte>>, slots: seq<nat>, i: nat)
    requires SlotsOk(slots, m.Keys) && 0 !in m && i < |slots|
    ensures Seen(m, slots)[i] == if slots[i] == 0 then Null else Block(slots[i], m[slots[i]])
  {
  }

  method PerformStore(h: Heap, slots: seq<nat>, i: nat, data: seq<byte>)
    requires h.Valid() && SlotsOk(slots, h.live) && i < |slots| && slots[i] != 0
    modifies h`mem
    ensures h.Valid() && StoredSlot(old(Abs(h, slots)), Abs(h, slots), i, data)
  {
    SlotInUse(h, slots, i);
    SeenAt(h, slots, i);
    hide Heap.Valid, Heap.Pool, Heap.Data, Heap.CapacityOf, SlotsOk, Seen, StoredSlot, Stored;
    h.ValidPool();
    h.DataKeys();
    ghost var m := h.Data();
    var room := h.BlockSize(slots[i]);
    StoredStep(m, h.used, slots, i, data);
    if |data| <= room {
      h.Store(slots[i], data);
    }
  }

  lemma StoredStep(m: map<nat, seq<byte>>, pages: seq<bool>, slots: seq<nat>, i: nat, data: seq<byte>)
    requires SlotsOk(slots, m.Keys) && i < |slots| && slots[i] != 0 && slots[i] in m
    ensures StoredSlot(State(Seen(m, slots), pages), State(Seen(Stored(m, slots[i], data), slots), pages), i, data)
    ensures |data| > |m[slots[i]]| ==>
              StoredSlot(State(Seen(m, slots), pages), State(Seen(m, slots), pages), i, data)
  {
    hide SlotsOk, Splice;
    if |data| <= |m[slots[i]]| { SeenStored(m, slots, i, data); }
  }

  // One operation of the client; it stops if memory past a block is written.
  method Perform(h: Heap, slots: seq<nat>, op: Op) returns (s: seq<nat>, overrun: bool)
    requires h.Valid() && SlotsOk(slots, h.live) && OpOk(op)
    modifies h`used, h`mem, h`freeLists, h`arenas, h`live
    ensures h.Valid() && (overrun <==> Overruns(h.descs, old(Abs(h, slots)), op))
    ensures !overrun ==> SlotsOk(s, h.live) && StepOk(h.descs, h.basePage, old(Abs(h, slots)), op, Abs(h, s))
  {
    s, overrun := slots, false;
    match op {
      case DoMalloc(size) =>
        hide *;
        s := PerformMalloc(h, slots, size);
      case DoCalloc(x, y) =>
        hide *;
        s, overrun := PerformCalloc(h, slots, x, y);
      case DoFree(i) =>
        hide Heap.Valid, SlotsOk, Seen, FreedSlot;
        if i < |slots| { s := PerformFree(h, slots, i); }
      case DoRealloc(i, size) =>
        hide Heap.Valid, SlotsOk, Seen, FreedSlot, MovedSlot;
        if i < |slots| {
          if size == 0 {
            s := PerformFree(h, slots, i);
          } else {
            s, overrun := PerformRealloc(h, slots, i, size);
          }
        }
      case DoStore(i, data) =>
        if i < |slots| {
          SeenAt(h, slots, i);
          hide Heap.Valid, SlotsOk, Seen;
          if slots[i] != 0 { PerformStore(h, slots, i, data); }
        }
    }
  }

  // The states a run went through: one operation each.
  ghost predicate TraceOk(descs: seq<Desc>, base: nat, trace: seq<State>, ops: seq<Op>) {
    && 0 < |trace| <= |ops| + 1
    && forall n :: 0 <= n < |trace| - 1 ==> StepOk(descs, base, trace[n], ops[n], trace[n + 1])
  }

  // Any run of operations goes step by step as StepOk says, with separate
  // blocks throughout; only an overrun cuts it short.
  method Run(h: Heap, start: seq<nat>, ops: seq<Op>) returns (slots: seq<nat>, overrun: bool, ghost trace: seq<State>)
    requires h.Valid() && SlotsOk(start, h.live) && forall op :: op in ops ==> OpOk(op)
    modifies h`used, h`mem, h`freeLists, h`arenas, h`live
    ensures h.Valid() && TraceOk(h.descs, h.basePage, trace, ops) && trace[0] == old(Abs(h, start))
    ensures forall n :: 0 <= n < |trace| ==> Apart(trace[n]) && Tidy(h.descs, h.basePage, h.others, trace[n])
    ensures !overrun ==> |trace| == |ops| + 1 && SlotsOk(slots, h.live) && trace[|ops|] == Abs(h, slots)
    ensures overrun ==> |trace| <= |ops| && Overruns(h.descs, trace[|trace| - 1], ops[|trace| - 1])
    ensures forall n :: 0 <= n < |trace| - 1 ==> !Overruns(h.descs, trace[n], ops[n])
  {
    hide *;
    SeenApart(h, start);
    SeenTidy(h, start);
    slots, overrun, trace := start, false, [Abs(h, start)];
    FirstState(h.descs, h.basePage, h.others, Abs(h, start), ops);
    var n := 0;
    while n < |ops|
      invariant n <= |ops| && h.Valid() && SlotsOk(slots, h.live)
      invariant |trace| == n + 1 && TraceOk(h.descs, h.basePage, trace, ops)
      invariant trace[0] == old(Abs(h, start)) && trace[n] == Abs(h, slots)
      invariant GoodTrace(h.descs, h.basePage, h.others, trace, ops)
    {
      GoodStates(h.descs, h.basePage, h.others, trace, ops);
      slots, overrun := Perform(h, slots, ops[n]);
      if overrun {
        return;
      }
      SeenApart(h, slots);
      SeenTidy(h, slots);
      OneMoreState(h.descs, h.basePage, h.others, trace, ops, Abs(h, slots));
      trace := trace + [Abs(h, slots)];
      n := n + 1;
    }
    GoodStates(h.descs, h.basePage, h.others, trace, ops);
  }

  ghost predicate GoodTrace(descs: seq<Desc>, base: nat, others: seq<bool>, trace: seq<State>, ops: seq<Op>) {
    && TraceOk(descs, base, trace, ops) && (forall m :: 0 <= m < |trace| ==> Apart(trace[m]) && Tidy(descs, base, others, trace[m]))
    && forall m :: 0 <= m < |trace| - 1 ==> !Overruns(descs, trace[m], ops[m])
  }

  lemma FirstState(descs: seq<Desc>, base: nat, others: seq<bool>, s: State, ops: seq<Op>)
    requires Apart(s) && Tidy(descs, base, others, s)
    ensures TraceOk(descs, base, [s], ops) && GoodTrace(descs, base, others, [s], ops)
  {
    hide Apart, Tidy;
  }

  lemma GoodStates(descs: seq<Desc>, base: nat, others: seq<bool>, trace: seq<State>, ops: seq<Op>)
    requires GoodTrace(descs, base, others, trace, ops)
    ensures 0 < |trace| <= |ops| + 1 && forall m :: 0 <= m < |trace| ==> Apart(trace[m]) && Tidy(descs, base, others, trace[m])
    ensures forall m :: 0 <= m < |trace| - 1 ==> !Overruns(descs, trace[m], ops[m])
  {
    hide Apart, Tidy, Overruns, StepOk;
  }

  lemma OneMoreState(descs: seq<Desc>, base: nat, others: seq<bool>, trace: seq<State>, ops: seq<Op>, s: State)
    requires GoodTrace(descs, base, others, trace, ops) && |trace| <= |ops| && Apart(s) && Tidy(descs, base, others, s)
    requires StepOk(descs, base, trace[|trace| - 1], ops[|trace| - 1], s)
    requires !Overruns(descs, trace[|trace| - 1], ops[|trace| - 1])
    ensures TraceOk(descs, base, trace + [s], ops) && GoodTrace(descs, base, others, trace + [s], ops)
  {
    hide Apart, Tidy, Overruns, StepOk;
  }

  // ---- What a run keeps. ----

  // When no slot has a block, the marked pages are those of the others.
  lemma AllPagesBack(descs: seq<Desc>, base: nat, others: seq<bool>, s: State)
    requires Tidy(descs, base, others, s) && forall i :: 0 <= i < |s.slots| ==> s.slots[i] == Null
    ensures s.pages == others
  {
    forall i | 0 <= i < |others|
      ensures s.pages[i] == others[i]
    {
      assert !Reached(s.slots, base + i);
    }
  }

  // A slot no operation names has the same block, with the same bytes.
  lemma {:induction false} UntouchedKept(descs: seq<Desc>, base: nat, trace: seq<State>, ops: seq<Op>, j: nat)
    requires TraceOk(descs, base, trace, ops) && j < |trace[0].slots|
    requires forall n :: 0 <= n < |trace| - 1 ==> !Touches(ops[n], j)
    ensures forall n :: 0 <= n < |trace| ==> j < |trace[n].slots| && trace[n].slots[j] == trace[0].slots[j]
  {
    hide StepOk, Touches;
    if |trace| > 1 {
      var k := |trace| - 1;
      UntouchedKept(descs, base, trace[..k], ops, j);
      assert trace[..k][k - 1] == trace[k - 1];
      UntouchedStep(descs, base, trace[k - 1], ops[k - 1], trace[k], j);
      forall n | 0 <= n < |trace|
        ensures j < |trace[n].slots| && trace[n].slots[j] == trace[0].slots[j]
      {
        if n < k { assert trace[..k][n] == trace[n]; }
      }
    }
  }

  lemma UntouchedStep(descs: seq<Desc>, base: nat, s: State, op: Op, t: State, j: nat)
    requires StepOk(descs, base, s, op, t) && j < |s.slots| && !Touches(op, j)
    ensures j < |t.slots| && t.slots[j] == s.slots[j]
  {
    if op.DoMalloc? || op.DoCalloc? {
      assert t.slots[..|s.slots|][j] == s.slots[j];
    }
  }

  // Neither other operations nor reallocations that leave enough room lose the
  // first bytes of a block.
  ghost predicate Spares(op: Op, j: nat, n: nat) {
    Touches(op, j) ==> op.DoRealloc? && op.size >= n && op.size > 0
  }

  ghost predicate Holds(s: State, j: nat, data: seq<byte>) {
    j < |s.slots| && s.slots[j].Block? && data <= s.slots[j].bytes
  }

  lemma {:induction false} DataStays(descs: seq<Desc>, base: nat, trace: seq<State>, ops: seq<Op>, j: nat, data: seq<byte>)
    requires TraceOk(descs, base, trace, ops) && Holds(trace[0], j, data)
    requires forall n :: 0 <= n < |trace| - 1 ==> Spares(ops[n], j, |data|)
    ensures Holds(trace[|trace| - 1], j, data)
  {
    hide StepOk, Spares, Holds;
    if |trace| > 1 {
      var k := |trace| - 1;
      DataStays(descs, base, trace[..k], ops, j, data);
      assert trace[..k][k - 1] == trace[k - 1];
      SparedStep(descs, base, trace[k - 1], ops[k - 1], trace[k], j, data);
    }
  }

  lemma SparedStep(descs: seq<Desc>, base: nat, s: State, op: Op, t: State, j: nat, data: seq<byte>)
    requires StepOk(descs, base, s, op, t) && Holds(s, j, data) && Spares(op, j, |data|)
    ensures Holds(t, j, data)
  {
    if !Touches(op, j) {
      UntouchedStep(descs, base, s, op, t, j);
    } else if t.slots != s.slots {
      StillStarts(t.slots[j].bytes, s.slots[j].bytes, op.size, data);
    }
  }

  lemma StillStarts(bytes: seq<byte>, past: seq<byte>, n: nat, data: seq<byte>)
    requires StartsAs(bytes, past, n) && data <= past && |data| <= n
    ensures data <= bytes
  {
    var m := if n < |past| then n else |past|;
    assert bytes[..m][..|data|] == bytes[..|data|] && past[..m][..|data|] == past[..|data|];
  }
}
