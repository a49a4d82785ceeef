// What the sectors of the file system device mean: headers of inodes, the data
// extents they own, and directory entries inside the root directory's data.
module Layout {
  import opened Bytes
  import Bitmap

  // The device is one run of bytes; sector s occupies bytes 512 s .. 512 s + 512.
  function Sector(disk: seq<byte>, s: nat): (b: seq<byte>)
    requires 512 * s + 512 <= |disk|
    ensures |b| == 512
  {
    disk[512 * s..512 * s + 512]
  }

  // The on-disk inode.
  datatype Header = Header(start: nat, length: int)

  function SectorsFor(length: int): (n: nat)
    requires 0 <= length
    ensures 512 * n >= length && (length > 0 ==> 512 * (n - 1) < length) && (length == 0 ==> n == 0)
  {
    (length + 511) / 512
  }

  const INODE_MAGIC: word := 0x494e_4f44

  ghost predicate Encodable(h: Header) {
    h.start < 0x1_0000_0000 && 0 <= h.length < 0x8000_0000
  }

  function EncodeHeader(h: Header): (b: seq<byte>)
    requires Encodable(h)
    ensures |b| == 512
  {
    Le32(h.start) + Le32(h.length) + Le32(INODE_MAGIC) + Zeros(500)
  }

  function DecodeHeader(b: seq<byte>): Header
    requires |b| == 512
  {
    Header(FromLe32(b[..4]), Signed32(FromLe32(b[4..8])))
  }

  lemma HeaderRoundTrip(h: Header)
    requires Encodable(h)
    ensures DecodeHeader(EncodeHeader(h)) == h
  {
    var b := EncodeHeader(h);
    assert b[..4] == Le32(h.start);
    assert b[4..8] == Le32(h.length);
    Le32RoundTrip(h.start);
    Le32RoundTrip(h.length);
  }

  function HeaderAt(disk: seq<byte>, h: nat): Header
    requires 512 * h + 512 <= |disk|
  {
    DecodeHeader(Sector(disk, h))
  }

  // A header on the device whose extent lies on the device and not over it.
  ghost predicate GoodHeader(disk: seq<byte>, h: nat) {
    && 512 * h + 512 <= |disk|
    && Fits(disk, HeaderAt(disk, h))
    && !InExtent(HeaderAt(disk, h), h)
  }

  ghost predicate Fits(disk: seq<byte>, d: Header) {
    0 <= d.length && 512 * (d.start + SectorsFor(d.length)) <= |disk|
  }

  predicate InExtent(d: Header, s: nat) {
    0 <= d.length && d.start <= s < d.start + SectorsFor(d.length)
  }

  function Data(disk: seq<byte>, d: Header): (b: seq<byte>)
    requires Fits(disk, d)
    ensures |b| == d.length
  {
    disk[512 * d.start..512 * d.start + d.length]
  }

  // A byte range inside one sector of an extent is a range of the data.
  lemma ChunkOfData(disk: seq<byte>, d: Header, pos: nat, n: nat)
    requires Fits(disk, d) && pos + n <= d.length && 0 < n && pos % 512 + n <= 512
    ensures var s := d.start + pos / 512;
            512 * s + 512 <= |disk| && InExtent(d, s) &&
            Sub(Sector(disk, s), pos % 512, n) == Sub(Data(disk, d), pos, n)
  {
    var q, p := pos / 512, pos % 512;
    Positions(d, pos, q, p);
    ChunkAt(disk, d, q, p, n);
  }

  lemma ChunkAt(disk: seq<byte>, d: Header, q: nat, p: nat, n: nat)
    requires Fits(disk, d) && q < SectorsFor(d.length) && 512 * q + p + n <= d.length && 0 < n && p + n <= 512
    ensures var s := d.start + q;
            512 * s + 512 <= |disk| && Sub(Sector(disk, s), p, n) == Sub(Data(disk, d), 512 * q + p, n)
  {
    var s := d.start + q;
    SameBytes(disk, 512 * s, 512, 512 * d.start, d.length, p, 512 * q + p, n);
  }

  lemma SameBytes(disk: seq<byte>, a: nat, m: nat, b: nat, length: nat, p: nat, offset: nat, n: nat)
    requires a + m <= |disk| && b + length <= |disk| && a + p == b + offset && p + n <= m && offset + n <= length
    ensures Sub(disk[a..a + m], p, n) == Sub(disk[b..b + length], offset, n)
  {
    SliceOfSlice(disk, a, a + m, p, p + n);
    SliceOfSlice(disk, b, b + length, offset, offset + n);
  }

  lemma Positions(d: Header, pos: nat, q: nat, p: nat)
    requires pos < d.length && q == pos / 512 && p == pos % 512
    ensures pos == 512 * q + p && p < 512 && q < SectorsFor(d.length)
  {
  }

  // The sectors an inode owns: its header and its data extent.
  predicate Owns(disk: seq<byte>, h: nat, s: nat)
    requires 512 * h + 512 <= |disk|
  {
    s == h || InExtent(HeaderAt(disk, h), s)
  }

  ghost predicate Disjoint(disk: seq<byte>, h1: nat, h2: nat)
    requires 512 * h1 + 512 <= |disk| && 512 * h2 + 512 <= |disk|
  {
    forall s: nat :: !(Owns(disk, h1, s) && Owns(disk, h2, s))
  }

  // The ownership invariant: every header in owned is good, its sectors are
  // marked in the free map, and different headers own different sectors.
  ghost predicate Owned(disk: seq<byte>, used: seq<bool>, owned: set<nat>) {
    && |disk| == 512 * |used|
    && (forall h :: h in owned ==> GoodHeader(disk, h))
    && (forall h :: h in owned ==> Marked(disk, used, h))
    && (forall h1, h2 :: h1 in owned && h2 in owned && h1 != h2 ==> Disjoint(disk, h1, h2))
  }

  ghost predicate Marked(disk: seq<byte>, used: seq<bool>, h: nat)
    requires 512 * h + 512 <= |disk|
  {
    forall s: nat :: Owns(disk, h, s) ==> s < |used| && used[s]
  }

  // Two disks that differ at most in sectors lo .. hi.
  ghost predicate SameOutside(d1: seq<byte>, d2: seq<byte>, lo: nat, hi: nat) {
    && |d1| == |d2| && lo <= hi && 512 * hi <= |d1|
    && d1[..512 * lo] == d2[..512 * lo]
    && d1[512 * hi..] == d2[512 * hi..]
  }

  lemma SliceOutside(d1: seq<byte>, d2: seq<byte>, lo: nat, hi: nat, a: nat, b: nat)
    requires SameOutside(d1, d2, lo, hi)
    requires a <= b <= |d1| && (b <= 512 * lo || 512 * hi <= a)
    ensures d1[a..b] == d2[a..b]
  {
    SlicesAgree(d1, d2, 512 * lo, 512 * hi, a, b);
  }

  lemma SlicesAgree(d1: seq<byte>, d2: seq<byte>, k: nat, m: nat, a: nat, b: nat)
    requires |d1| == |d2| && k <= m <= |d1| && d1[..k] == d2[..k] && d1[m..] == d2[m..]
    requires a <= b <= |d1| && (b <= k || m <= a)
    ensures d1[a..b] == d2[a..b]
  {
    forall i | a <= i < b
      ensures d1[i] == d2[i]
    {
      if b <= k {
        assert d1[..k][i] == d2[..k][i];
      } else {
        assert d1[m..][i - m] == d2[m..][i - m];
      }
    }
  }

  // A header outside the changed sectors keeps its meaning, and so does the
  // data of an extent outside them.
  lemma HeaderOutside(d1: seq<byte>, d2: seq<byte>, lo: nat, hi: nat, h: nat)
    requires SameOutside(d1, d2, lo, hi)
    requires 512 * h + 512 <= |d1| && !(lo <= h < hi)
    ensures HeaderAt(d2, h) == HeaderAt(d1, h)
  {
    SliceOutside(d1, d2, lo, hi, 512 * h, 512 * h + 512);
  }

  lemma DataOutside(d1: seq<byte>, d2: seq<byte>, lo: nat, hi: nat, d: Header)
    requires SameOutside(d1, d2, lo, hi) && Fits(d1, d)
    requires forall s: nat :: lo <= s < hi ==> !InExtent(d, s)
    ensures Data(d2, d) == Data(d1, d)
  {
    var n := SectorsFor(d.length);
    if d.length > 0 && lo < hi {
      assert !InExtent(d, lo);
      assert !InExtent(d, hi - 1);
      if d.start < hi && lo < d.start + n {
        assert lo <= d.start < hi;
        assert InExtent(d, d.start);
        assert false;
      }
    }
    if d.length > 0 {
      if lo == hi {
        assert d1 == d2 by {
          assert d1 == d1[..512 * lo] + d1[512 * lo..];
          assert d2 == d2[..512 * lo] + d2[512 * lo..];
        }
      } else {
        SliceOutside(d1, d2, lo, hi, 512 * d.start, 512 * d.start + d.length);
      }
    }
  }

  // Changing bytes inside sectors lo .. hi, which no owner has as its header,
  // keeps every header and with it the whole invariant.
  lemma OwnedAfterWrite(d1: seq<byte>, d2: seq<byte>, used: seq<bool>, owned: set<nat>, lo: nat, hi: nat)
    requires Owned(d1, used, owned) && SameOutside(d1, d2, lo, hi)
    requires forall h :: h in owned ==> !(lo <= h < hi)
    ensures Owned(d2, used, owned)
    ensures forall h :: h in owned ==> HeaderAt(d2, h) == HeaderAt(d1, h)
  {
    forall h | h in owned
      ensures HeaderAt(d2, h) == HeaderAt(d1, h) && GoodHeader(d2, h) && Marked(d2, used, h)
    {
      HeaderOutside(d1, d2, lo, hi, h);
      assert Marked(d1, used, h);
      assert forall s: nat :: Owns(d2, h, s) ==> Owns(d1, h, s);
    }
    forall h1, h2 | h1 in owned && h2 in owned && h1 != h2
      ensures Disjoint(d2, h1, h2)
    {
      assert Disjoint(d1, h1, h2);
      assert forall s: nat :: Owns(d2, h1, s) ==> Owns(d1, h1, s);
      assert forall s: nat :: Owns(d2, h2, s) ==> Owns(d1, h2, s);
    }
  }

  // Writing inside the extent of one owner changes no header and no other
  // owner's data.
  lemma WriteInsideExtent(d1: seq<byte>, d2: seq<byte>, used: seq<bool>, owned: set<nat>, h: nat)
    requires Owned(d1, used, owned) && h in owned
    requires var d := HeaderAt(d1, h); SameOutside(d1, d2, d.start, d.start + SectorsFor(d.length))
    ensures Owned(d2, used, owned)
    ensures forall k :: k in owned ==> HeaderAt(d2, k) == HeaderAt(d1, k)
    ensures forall k :: k in owned && k != h ==> Data(d2, HeaderAt(d1, k)) == Data(d1, HeaderAt(d1, k))
  {
    var d := HeaderAt(d1, h);
    var lo, hi := d.start, d.start + SectorsFor(d.length);
    forall k | k in owned
      ensures !(lo <= k < hi)
    {
      if k != h {
        assert Disjoint(d1, h, k);
        assert Owns(d1, k, k);
        assert !Owns(d1, h, k);
      }
      assert !InExtent(d, k);
    }
    OwnedAfterWrite(d1, d2, used, owned, lo, hi);
    forall k | k in owned && k != h
      ensures Data(d2, HeaderAt(d1, k)) == Data(d1, HeaderAt(d1, k))
    {
      assert Disjoint(d1, h, k);
      forall s: nat | lo <= s < hi
        ensures !InExtent(HeaderAt(d1, k), s)
      {
        assert InExtent(d, s) && Owns(d1, h, s);
        assert !Owns(d1, k, s);
      }
      DataOutside(d1, d2, lo, hi, HeaderAt(d1, k));
    }
  }

  // ---- Every marked sector has exactly one explanation. ----

  ghost predicate OwnedBySome(disk: seq<byte>, owned: set<nat>, s: nat)
    requires forall h :: h in owned ==> 512 * h + 512 <= |disk|
  {
    exists h :: h in owned && Owns(disk, h, s)
  }

  // The marked sectors are those that some inode in owned owns together with
  // the loose ones, which are allocated but belong to no inode.
  ghost predicate Accounted(disk: seq<byte>, used: seq<bool>, owned: set<nat>, loose: set<nat>) {
    && Owned(disk, used, owned)
    && (forall s :: s in loose ==> s < |used| && used[s] && !OwnedBySome(disk, owned, s))
    && (forall s :: 0 <= s < |used| && used[s] ==> s in loose || OwnedBySome(disk, owned, s))
  }

  lemma OwnedIsGood(disk: seq<byte>, used: seq<bool>, owned: set<nat>, loose: set<nat>, h: nat)
    requires Accounted(disk, used, owned, loose) && h in owned
    ensures GoodHeader(disk, h) && |disk| == 512 * |used|
  {
  }

  function Range(lo: nat, hi: nat): (r: set<nat>)
    ensures forall s: nat :: s in r <==> lo <= s < hi
  {
    if lo >= hi then {} else Range(lo, hi - 1) + {hi - 1 as nat}
  }

  function Extent(d: Header): set<nat>
    requires 0 <= d.length
  {
    Range(d.start, d.start + SectorsFor(d.length))
  }

  lemma {:induction false} RangeSize(lo: nat, hi: nat)
    requires lo <= hi
    ensures |Range(lo, hi)| == hi - lo
    decreases hi - lo
  {
    if lo < hi { RangeSize(lo, hi - 1); }
  }

  lemma ExtentSize(d: Header)
    requires 0 <= d.length
    ensures |Extent(d)| == SectorsFor(d.length)
  {
    RangeSize(d.start, d.start + SectorsFor(d.length));
  }

  // Bits lo .. hi of the free map set to one value.
  function SetBits(used: seq<bool>, lo: nat, hi: nat, value: bool): (r: seq<bool>)
    requires lo <= hi <= |used|
    ensures |r| == |used|
    ensures forall s :: 0 <= s < |used| ==> r[s] == if lo <= s < hi then value else used[s]
  {
    seq(|used|, s requires 0 <= s < |used| => if lo <= s < hi then value else used[s])
  }

  lemma AccountAllocate(disk: seq<byte>, used: seq<bool>, owned: set<nat>, loose: set<nat>, lo: nat, hi: nat)
    requires Accounted(disk, used, owned, loose) && lo <= hi <= |used|
    requires forall s :: lo <= s < hi ==> !used[s]
    ensures Accounted(disk, SetBits(used, lo, hi, true), owned, loose + Range(lo, hi))
    ensures loose !! Range(lo, hi)
  {
    var used' := SetBits(used, lo, hi, true);
    forall h | h in owned
      ensures Marked(disk, used', h)
    {
      assert Marked(disk, used, h);
    }
    forall s: nat | lo <= s < hi
      ensures !OwnedBySome(disk, owned, s)
    {
      forall h | h in owned
        ensures !Owns(disk, h, s)
      {
        assert Marked(disk, used, h);
      }
    }
  }

  lemma AccountFree(disk: seq<byte>, used: seq<bool>, owned: set<nat>, loose: set<nat>, lo: nat, hi: nat)
    requires Accounted(disk, used, owned, loose) && lo <= hi && Range(lo, hi) <= loose
    ensures hi <= |used| || lo == hi
    ensures hi <= |used| ==> Accounted(disk, SetBits(used, lo, hi, false), owned, loose - Range(lo, hi))
  {
    if lo < hi {
      assert hi - 1 in loose;
    }
    if hi <= |used| {
      var used' := SetBits(used, lo, hi, false);
      forall h | h in owned
        ensures Marked(disk, used', h)
      {
        assert Marked(disk, used, h);
        forall s: nat | Owns(disk, h, s)
          ensures s < |used'| && used'[s]
        {
          assert OwnedBySome(disk, owned, s);
        }
      }
    }
  }

  // A freshly allocated inode joins the owners.
  lemma OwnedAdd(disk: seq<byte>, used: seq<bool>, owned: set<nat>, h: nat)
    requires Owned(disk, used, owned)
    requires GoodHeader(disk, h) && Marked(disk, used, h)
    requires forall k, s: nat :: k in owned && Owns(disk, h, s) ==> !Owns(disk, k, s)
    ensures Owned(disk, used, owned + {h})
  {
    forall h1, h2 | h1 in owned + {h} && h2 in owned + {h} && h1 != h2
      ensures Disjoint(disk, h1, h2)
    {
      if h1 in owned && h2 in owned {
        assert Disjoint(disk, h1, h2);
      }
    }
  }

  // Loose sectors become an inode: its header and its extent.
  lemma AccountAdopt(disk: seq<byte>, used: seq<bool>, owned: set<nat>, loose: set<nat>, h: nat)
    requires Accounted(disk, used, owned, loose)
    requires h in loose && GoodHeader(disk, h) && Extent(HeaderAt(disk, h)) <= loose
    ensures h !in owned
    ensures Accounted(disk, used, owned + {h}, loose - {h} - Extent(HeaderAt(disk, h)))
  {
    var loose' := loose - {h} - Extent(HeaderAt(disk, h));
    forall s: nat | Owns(disk, h, s)
      ensures s in loose
    {
    }
    forall k, s: nat | k in owned && Owns(disk, h, s)
      ensures !Owns(disk, k, s)
    {
      assert !OwnedBySome(disk, owned, s);
    }
    assert Owns(disk, h, h) && !OwnedBySome(disk, owned, h);
    OwnedAdd(disk, used, owned, h);
    forall s | s in loose'
      ensures !OwnedBySome(disk, owned + {h}, s)
    {
      assert !OwnedBySome(disk, owned, s);
    }
    forall s | 0 <= s < |used| && used[s]
      ensures s in loose' || OwnedBySome(disk, owned + {h}, s)
    {
      if s !in loose {
        var k :| k in owned && Owns(disk, k, s);
        assert k in owned + {h};
      } else if s !in loose' {
        assert h in owned + {h} && Owns(disk, h, s);
      }
    }
  }

  // An inode is given up: its sectors are loose again.
  lemma AccountDrop(disk: seq<byte>, used: seq<bool>, owned: set<nat>, loose: set<nat>, h: nat)
    requires Accounted(disk, used, owned, loose) && h in owned
    ensures Accounted(disk, used, owned - {h}, loose + {h} + Extent(HeaderAt(disk, h)))
    ensures ({h} + Extent(HeaderAt(disk, h))) !! loose
    ensures forall s :: s in {h} + Extent(HeaderAt(disk, h)) ==> s < |used|
  {
    var d := HeaderAt(disk, h);
    forall s: nat | Owns(disk, h, s)
      ensures s !in loose && s < |used| && used[s] && !OwnedBySome(disk, owned - {h}, s)
    {
      assert Marked(disk, used, h);
      assert OwnedBySome(disk, owned, s);
      forall k | k in owned - {h}
        ensures !Owns(disk, k, s)
      {
        assert Disjoint(disk, k, h);
      }
    }
    forall s | s in loose
      ensures !OwnedBySome(disk, owned - {h}, s)
    {
      assert !OwnedBySome(disk, owned, s);
    }
    OwnedLess(disk, used, owned, h);
    var loose' := loose + {h} + Extent(d);
    forall s: nat | s in loose'
      ensures s in loose || Owns(disk, h, s)
    {
    }
    hide Owned, Marked, Disjoint;
  }

  lemma OwnedLess(disk: seq<byte>, used: seq<bool>, owned: set<nat>, h: nat)
    requires Owned(disk, used, owned)
    ensures Owned(disk, used, owned - {h})
  {
  }

  // Writing into an owned extent or into loose sectors.
  lemma AccountWrite(d1: seq<byte>, d2: seq<byte>, used: seq<bool>, owned: set<nat>, loose: set<nat>)
    requires Accounted(d1, used, owned, loose)
    requires Owned(d2, used, owned) && forall h :: h in owned ==> HeaderAt(d2, h) == HeaderAt(d1, h)
    ensures Accounted(d2, used, owned, loose)
  {
    forall s: nat
      ensures OwnedBySome(d1, owned, s) <==> OwnedBySome(d2, owned, s)
    {
      assert forall h :: h in owned ==> Owns(d1, h, s) == Owns(d2, h, s);
    }
  }

  lemma WriteLoose(d1: seq<byte>, d2: seq<byte>, used: seq<bool>, owned: set<nat>, loose: set<nat>, lo: nat, hi: nat)
    requires Accounted(d1, used, owned, loose) && SameOutside(d1, d2, lo, hi)
    requires Range(lo, hi) <= loose
    ensures Accounted(d2, used, owned, loose) && Keeps(d1, d2, owned)
  {
    forall h | h in owned
      ensures !(lo <= h < hi)
    {
      assert Owns(d1, h, h) && OwnedBySome(d1, owned, h);
    }
    OwnedAfterWrite(d1, d2, used, owned, lo, hi);
    AccountWrite(d1, d2, used, owned, loose);
    forall h | h in owned
      ensures KeepsInode(d1, d2, h)
    {
      forall s: nat | lo <= s < hi
        ensures !InExtent(HeaderAt(d1, h), s)
      {
        assert s in loose;
        assert !OwnedBySome(d1, owned, s);
      }
      DataOutside(d1, d2, lo, hi, HeaderAt(d1, h));
    }
  }

  // The inodes in hs have the same header and the same data on both disks.
  ghost predicate Keeps(d1: seq<byte>, d2: seq<byte>, hs: set<nat>)
  {
    |d1| == |d2| && forall h :: h in hs ==> KeepsInode(d1, d2, h)
  }

  ghost predicate KeepsInode(d1: seq<byte>, d2: seq<byte>, h: nat)
    requires |d1| == |d2|
  {
    && GoodHeader(d1, h)
    && HeaderAt(d2, h) == HeaderAt(d1, h)
    && Data(d2, HeaderAt(d1, h)) == Data(d1, HeaderAt(d1, h))
  }

  lemma WriteOwned(d1: seq<byte>, d2: seq<byte>, used: seq<bool>, owned: set<nat>, loose: set<nat>, h: nat)
    requires Accounted(d1, used, owned, loose) && h in owned
    requires var d := HeaderAt(d1, h); SameOutside(d1, d2, d.start, d.start + SectorsFor(d.length))
    ensures Accounted(d2, used, owned, loose)
    ensures HeaderAt(d2, h) == HeaderAt(d1, h) && Keeps(d1, d2, owned - {h})
  {
    WriteInsideExtent(d1, d2, used, owned, h);
    AccountWrite(d1, d2, used, owned, loose);
  }

  // ---- Writing into an extent. ----

  // The disk after data has been written at offset into the extent of d.
  function Written(disk: seq<byte>, d: Header, offset: nat, data: seq<byte>): (r: seq<byte>)
    requires Fits(disk, d) && (data == [] || offset + |data| <= d.length)
    ensures |r| == |disk|
  {
    if data == [] then disk else Splice(disk, 512 * d.start + offset, data)
  }

  // A write replaces the bytes it covers, leaves the rest of the file alone,
  // and touches no byte outside the extent.
  lemma WrittenMeaning(disk: seq<byte>, d: Header, offset: nat, data: seq<byte>)
    requires Fits(disk, d) && data != [] && offset + |data| <= d.length
    ensures var r := Written(disk, d, offset, data);
            SameOutside(disk, r, d.start, d.start + SectorsFor(d.length)) &&
            Data(r, d) == Splice(Data(disk, d), offset, data)
  {
    var r := Written(disk, d, offset, data);
    var lo, hi := 512 * d.start, 512 * (d.start + SectorsFor(d.length));
    assert forall k :: 0 <= k < |disk| && !(lo <= k < hi) ==> r[k] == disk[k];
  }

  // The same at the level of the whole device: one owned inode is written.
  lemma WriteFile(disk: seq<byte>, used: seq<bool>, owned: set<nat>, loose: set<nat>, h: nat, offset: nat, data: seq<byte>)
    requires Accounted(disk, used, owned, loose) && h in owned
    requires data != [] && offset + |data| <= HeaderAt(disk, h).length
    ensures var d := HeaderAt(disk, h);
            var r := Written(disk, d, offset, data);
            && Accounted(r, used, owned, loose)
            && HeaderAt(r, h) == d && Keeps(disk, r, owned - {h})
            && Data(r, d) == Splice(Data(disk, d), offset, data)
  {
    var d := HeaderAt(disk, h);
    WrittenMeaning(disk, d, offset, data);
    WriteOwned(disk, Written(disk, d, offset, data), used, owned, loose, h);
  }

  // h is a good header and d is what it says.
  ghost predicate Describes(disk: seq<byte>, h: nat, d: Header) {
    GoodHeader(disk, h) && HeaderAt(disk, h) == d
  }

  lemma WrittenMore(disk: seq<byte>, d: Header, offset: nat, a: seq<byte>, b: seq<byte>)
    requires Fits(disk, d) && b != [] && offset + |a| + |b| <= d.length
    ensures Written(Written(disk, d, offset, a), d, offset + |a|, b) == Written(disk, d, offset, a + b)
  {
    if a == [] {
      assert a + b == b;
    } else {
      SpliceMore(disk, 512 * d.start + offset, a, b);
    }
  }

  // Replacing part of a sector through a copy of it is replacing that part.
  lemma SectorUpdate(disk: seq<byte>, s: nat, ofs: nat, data: seq<byte>)
    requires 512 * s + 512 <= |disk| && ofs + |data| <= 512
    ensures Splice(disk, 512 * s, Splice(Sector(disk, s), ofs, data)) == Splice(disk, 512 * s + ofs, data)
  {
    var x, y := Splice(disk, 512 * s, Splice(Sector(disk, s), ofs, data)), Splice(disk, 512 * s + ofs, data);
    forall k | 0 <= k < |disk|
      ensures x[k] == y[k]
    {
      if 512 * s <= k < 512 * s + 512 {
        assert x[k] == Splice(Sector(disk, s), ofs, data)[k - 512 * s];
        assert Sector(disk, s)[k - 512 * s] == disk[k];
      }
    }
  }

  // Everything is kept except perhaps the data of the free map file, which
  // sits at header 0 and is rewritten whenever sectors change hands.
  ghost predicate KeepsButMap(d1: seq<byte>, d2: seq<byte>, hs: set<nat>) {
    && Keeps(d1, d2, hs - {0})
    && (0 in hs ==> GoodHeader(d1, 0) && Describes(d2, 0, HeaderAt(d1, 0)))
  }

  lemma KeepsButMapTransitive(d1: seq<byte>, d2: seq<byte>, d3: seq<byte>, hs: set<nat>)
    requires KeepsButMap(d1, d2, hs) && KeepsButMap(d2, d3, hs)
    ensures KeepsButMap(d1, d3, hs)
  {
    KeepsTransitive(d1, d2, d3, hs - {0});
  }

  lemma KeepsIsKeepsButMap(d1: seq<byte>, d2: seq<byte>, hs: set<nat>)
    requires Keeps(d1, d2, hs)
    ensures KeepsButMap(d1, d2, hs)
  {
    forall h | h in hs
      ensures KeepsInode(d1, d2, h)
    {
    }
    if 0 in hs {
      assert KeepsInode(d1, d2, 0);
    }
  }

  lemma OwnedIsMarked(disk: seq<byte>, used: seq<bool>, owned: set<nat>, loose: set<nat>, h: nat)
    requires Accounted(disk, used, owned, loose) && h in owned
    ensures h < |used| && used[h] && h !in loose
  {
    assert Owns(disk, h, h) && Marked(disk, used, h);
    assert OwnedBySome(disk, owned, h);
  }

  // Everything is kept except perhaps the data of the two system files.
  ghost predicate KeepsFiles(d1: seq<byte>, d2: seq<byte>, hs: set<nat>) {
    Keeps(d1, d2, hs - {0, 1})
  }

  lemma KeptButSystem(d1: seq<byte>, d2: seq<byte>, hs: set<nat>)
    requires KeepsButMap(d1, d2, hs)
    ensures KeepsFiles(d1, d2, hs)
  {
    hide KeepsInode;
  }

  lemma KeepsRootless(d1: seq<byte>, d2: seq<byte>, hs: set<nat>)
    requires Keeps(d1, d2, hs - {1})
    ensures KeepsFiles(d1, d2, hs)
  {
    hide KeepsInode;
  }

  ghost predicate FreshFile(disk: seq<byte>, h: nat, length: int)
    requires GoodHeader(disk, h)
  {
    HeaderAt(disk, h).length == length && Data(disk, HeaderAt(disk, h)) == Zeros(length)
  }

  lemma KeptFresh(d1: seq<byte>, d2: seq<byte>, hs: set<nat>, h: nat, length: int)
    requires KeepsFiles(d1, d2, hs) && h in hs && 2 <= h
    requires GoodHeader(d1, h) && FreshFile(d1, h, length)
    ensures GoodHeader(d2, h) && FreshFile(d2, h, length) && HeaderAt(d2, h) == HeaderAt(d1, h)
  {
    assert KeepsInode(d1, d2, h);
  }

  lemma KeepsFilesTransitive(d1: seq<byte>, d2: seq<byte>, d3: seq<byte>, h1: set<nat>, h2: set<nat>, hs: set<nat>)
    requires KeepsFiles(d1, d2, h1) && KeepsFiles(d2, d3, h2) && hs <= h1 && hs <= h2
    ensures KeepsFiles(d1, d3, hs)
  {
    KeepsTransitive(d1, d2, d3, hs - {0, 1});
  }

  lemma KeepsRefl(disk: seq<byte>, used: seq<bool>, owned: set<nat>, loose: set<nat>)
    requires Accounted(disk, used, owned, loose)
    ensures Keeps(disk, disk, owned) && KeepsButMap(disk, disk, owned)
  {
  }

  lemma KeepsTransitive(d1: seq<byte>, d2: seq<byte>, d3: seq<byte>, hs: set<nat>)
    requires Keeps(d1, d2, hs) && Keeps(d2, d3, hs)
    ensures Keeps(d1, d3, hs)
  {
    forall h | h in hs
      ensures KeepsInode(d1, d3, h)
    {
      assert KeepsInode(d1, d2, h) && KeepsInode(d2, d3, h);
    }
  }

  // Writing one whole loose sector.
  lemma WriteLooseSector(disk: seq<byte>, used: seq<bool>, owned: set<nat>, loose: set<nat>, s: nat, b: seq<byte>)
    requires Accounted(disk, used, owned, loose) && s in loose && |b| == 512
    ensures 512 * s + 512 <= |disk|
    ensures var r := Splice(disk, 512 * s, b);
            Accounted(r, used, owned, loose) && Keeps(disk, r, owned) && Sector(r, s) == b
  {
    var r := Splice(disk, 512 * s, b);
    SpliceSlices(disk, 512 * s, b);
    assert r[512 * (s + 1)..] == disk[512 * (s + 1)..];
    assert Range(s, s + 1) <= loose;
    WriteLoose(disk, r, used, owned, loose, s, s + 1);
  }

  // A disk with a fresh header at h and zeros in the extent it describes.
  lemma FreshInode(d0: seq<byte>, h: nat, d: Header, r: seq<byte>)
    requires Encodable(d) && 512 * h + 512 <= |d0| && 512 * (d.start + SectorsFor(d.length)) <= |d0|
    requires !InExtent(d, h)
    requires Sector(d0, h) == EncodeHeader(d)
    requires r == Splice(d0, 512 * d.start, Zeros(512 * SectorsFor(d.length)))
    ensures Describes(r, h, d) && Data(r, d) == Zeros(d.length)
  {
    assert Sector(r, h) == Sector(d0, h) by {
      assert forall k :: 512 * h <= k < 512 * h + 512 ==> r[k] == d0[k];
    }
    HeaderRoundTrip(d);
  }

  // Where a new file goes: its header to the first free sector, its data to
  // the first run that is long enough after that.
  ghost predicate Placed(used: seq<bool>, h: nat, d: Header) {
    && 0 <= d.length && Bitmap.FirstRun(used, h, 1, false)
    && Bitmap.FirstRun(SetBits(used, h, h + 1, true), d.start, SectorsFor(d.length), false)
  }

  ghost predicate HasRun(used: seq<bool>, cnt: nat) {
    exists j: nat :: Bitmap.Run(used, j, cnt, false)
  }

  ghost predicate Room(used: seq<bool>, length: int)
    requires 0 <= length
  {
    exists h: nat :: Bitmap.FirstRun(used, h, 1, false) && HasRun(SetBits(used, h, h + 1, true), SectorsFor(length))
  }

  // A run is marked that was the first free one of its size.
  ghost predicate RunTaken(before: seq<bool>, after: seq<bool>, start: nat, cnt: nat) {
    && start + cnt <= |before| && Bitmap.FirstRun(before, start, cnt, false)
    && after == SetBits(before, start, start + cnt, true)
  }

  ghost predicate ExtentTaken(before: seq<bool>, after: seq<bool>, d: Header) {
    0 <= d.length && RunTaken(before, after, d.start, SectorsFor(d.length))
  }

  // A header that is given back leaves the map as it was, but for an extent.
  lemma HeaderGivenBack(used: seq<bool>, h: nat, d: Header)
    requires Bitmap.FirstRun(used, h, 1, false)
    ensures SetBits(SetBits(used, h, h + 1, true), h, h + 1, false) == used
    ensures Placed(used, h, d) ==>
              var hi := d.start + SectorsFor(d.length);
              && hi <= |used|
              && SetBits(SetBits(SetBits(used, h, h + 1, true), d.start, hi, true), h, h + 1, false)
                 == SetBits(used, d.start, hi, true)
  {
    var marked := SetBits(used, h, h + 1, true);
    assert marked[h];
  }

  // The first free sector decides whether there is room.
  lemma RoomAfter(used: seq<bool>, h: nat, length: int)
    requires 0 <= length && Bitmap.FirstRun(used, h, 1, false)
    ensures Room(used, length) <==> HasRun(SetBits(used, h, h + 1, true), SectorsFor(length))
  {
    hide Bitmap.Run, SetBits, HasRun;
    forall k: nat | Bitmap.FirstRun(used, k, 1, false)
      ensures k == h
    {
      assert Bitmap.Run(used, k, 1, false) && Bitmap.Run(used, h, 1, false);
    }
  }

  // The sectors of the inode at h were marked and now are free; no other bit
  // of the free map changed.
  ghost predicate Freed(before: seq<bool>, after: seq<bool>, h: nat, d: Header) {
    && 0 <= d.length && |after| == |before|
    && (forall s: nat :: s == h || InExtent(d, s) ==> s < |before| && before[s])
    && (forall s: nat :: s < |after| ==> after[s] == (before[s] && s != h && !InExtent(d, s)))
  }

  lemma FreedBits(before: seq<bool>, h: nat, d: Header)
    requires 0 <= d.length && Bitmap.Run(before, h, 1, true)
    requires Bitmap.Run(SetBits(before, h, h + 1, false), d.start, SectorsFor(d.length), true)
    ensures Freed(before, SetBits(SetBits(before, h, h + 1, false), d.start, d.start + SectorsFor(d.length), false), h, d)
  {
    assert before[h];
  }

  lemma TakeBack<T>(s: set<T>, x: T, e: set<T>, r: set<T>)
    requires r == s + {x} + e && {x} + e !! s
    ensures r - {x} - e == s
  {
  }

  // ---- Directory entries. ----

  datatype Entry = Entry(sector: word, name: seq<byte>, inUse: bool)

  const ENTRY_SIZE := 20
  const NAME_MAX := 14

  function DecodeEntry(b: seq<byte>): (e: Entry)
    requires |b| == 20
    ensures |e.name| == 15
  {
    Entry(FromLe32(b[..4]), b[4..19], b[19] != 0)
  }

  function EncodeEntry(e: Entry): (b: seq<byte>)
    requires |e.name| == 15
    ensures |b| == 20
  {
    Le32(e.sector) + e.name + [if e.inUse then 1 else 0]
  }

  lemma EntryRoundTrip(e: Entry)
    requires |e.name| == 15
    ensures DecodeEntry(EncodeEntry(e)) == e
  {
    var b := EncodeEntry(e);
    assert b[..4] == Le32(e.sector);
    assert b[4..19] == e.name;
    Le32RoundTrip(e.sector);
  }

  function EntryAt(data: seq<byte>, k: nat): Entry
    requires 20 * k + 20 <= |data|
  {
    DecodeEntry(data[20 * k..20 * k + 20])
  }

  lemma EntrySplice(data: seq<byte>, k: nat, b: seq<byte>, j: nat)
    requires |b| == 20 && 20 * k + 20 <= |data| && 20 * j + 20 <= |data|
    ensures EntryAt(Splice(data, 20 * k, b), j) == if j == k then DecodeEntry(b) else EntryAt(data, j)
  {
    var r := Splice(data, 20 * k, b);
    SpliceSlices(data, 20 * k, b);
    if j != k {
      assert r[20 * j..20 * j + 20] == data[20 * j..20 * j + 20] by {
        assert forall i :: 20 * j <= i < 20 * j + 20 ==> r[i] == data[i];
      }
    }
  }

  // An entry in slot k names the inode in sector s.
  predicate Names(data: seq<byte>, k: nat, s: nat) {
    20 * k + 20 <= |data| && EntryAt(data, k).inUse && EntryAt(data, k).sector == s
  }

  predicate Matches(data: seq<byte>, k: nat, name: seq<byte>) {
    20 * k + 20 <= |data| && EntryAt(data, k).inUse && CString(EntryAt(data, k).name) == name
  }

  // Entries in use are terminated, name inodes other than the two system
  // files, and no two of them name the same one.
  ghost predicate ValidDir(data: seq<byte>) {
    && |data| % 20 == 0
    && (forall k: nat :: 20 * k + 20 <= |data| && EntryAt(data, k).inUse ==>
          0 in EntryAt(data, k).name && EntryAt(data, k).sector >= 2)
    && (forall j: nat, k: nat, s: nat :: Names(data, j, s) && Names(data, k, s) ==> j == k)
  }

  // What remains of a directory at a slot boundary is empty or has the slot.
  lemma SlotsLeft(data: seq<byte>, k: nat)
    requires ValidDir(data) && 20 * k <= |data|
    ensures 20 * k == |data| || 20 * k + 20 <= |data|
  {
  }

  ghost predicate Named(data: seq<byte>, s: nat) {
    exists k: nat :: Names(data, k, s)
  }

  lemma ZeroDirIsEmpty(n: nat, k: nat)
    requires n % 20 == 0 && 20 * k + 20 <= n
    ensures !EntryAt(Zeros(n), k).inUse
  {
  }

  // The root directory's bytes.
  function RootData(disk: seq<byte>): seq<byte> {
    if 1024 <= |disk| && Inside(disk, HeaderAt(disk, 1)) then
      disk[512 * HeaderAt(disk, 1).start..512 * HeaderAt(disk, 1).start + HeaderAt(disk, 1).length]
    else []
  }

  predicate Inside(disk: seq<byte>, d: Header) {
    0 <= d.length && 512 * (d.start + SectorsFor(d.length)) <= |disk|
  }

  lemma RootDataIs(disk: seq<byte>)
    requires GoodHeader(disk, 1)
    ensures RootData(disk) == Data(disk, HeaderAt(disk, 1))
  {
  }

  lemma RootKept(d1: seq<byte>, d2: seq<byte>, hs: set<nat>)
    requires 1 in hs && KeepsButMap(d1, d2, hs)
    ensures RootData(d2) == RootData(d1)
  {
    assert KeepsInode(d1, d2, 1);
  }

  lemma RootKeptToo(d1: seq<byte>, d2: seq<byte>, hs: set<nat>)
    requires 1 in hs && Keeps(d1, d2, hs)
    ensures RootData(d2) == RootData(d1)
  {
    assert KeepsInode(d1, d2, 1);
  }

  // The bytes of the free map's file.
  function MapData(disk: seq<byte>): seq<byte> {
    if 512 <= |disk| && Inside(disk, HeaderAt(disk, 0)) then
      disk[512 * HeaderAt(disk, 0).start..512 * HeaderAt(disk, 0).start + HeaderAt(disk, 0).length]
    else []
  }

  // The file holds the map, bit for bit.
  ghost predicate MapOnDisk(disk: seq<byte>, used: seq<bool>) {
    MapData(disk) == Bitmap.Image(used)
  }

  // Unless memory was refused on the way, a map that has changed is in the file,
  // and one that was there still is.
  ghost predicate SyncStep(disk: seq<byte>, used: seq<bool>, disk': seq<byte>, used': seq<bool>, refused: int) {
    refused == 0 && (MapOnDisk(disk, used) || used' != used) ==> MapOnDisk(disk', used')
  }

  lemma MapDataIs(disk: seq<byte>)
    requires GoodHeader(disk, 0)
    ensures MapData(disk) == Data(disk, HeaderAt(disk, 0))
  {
  }

  lemma MapKept(d1: seq<byte>, d2: seq<byte>, hs: set<nat>, used: seq<bool>, refused: int)
    requires 0 in hs && Keeps(d1, d2, hs)
    ensures MapData(d2) == MapData(d1) && SyncStep(d1, used, d2, used, refused)
  {
    assert KeepsInode(d1, d2, 0);
  }

  lemma MapStays(d1: seq<byte>, d2: seq<byte>, hs: set<nat>, used: seq<bool>)
    requires 0 in hs && Keeps(d1, d2, hs) && MapOnDisk(d1, used)
    ensures MapOnDisk(d2, used)
  {
    MapKept(d1, d2, hs, used, 0);
    hide MapData;
  }

  lemma SyncTwice(d1: seq<byte>, m1: seq<bool>, d2: seq<byte>, m2: seq<bool>, d3: seq<byte>, m3: seq<bool>, r1: int, r2: int)
    requires SyncStep(d1, m1, d2, m2, r1) && SyncStep(d2, m2, d3, m3, r2) && r1 >= 0 && r2 >= 0
    ensures SyncStep(d1, m1, d3, m3, r1 + r2)
  {
    hide MapOnDisk;
  }

  lemma SyncThrough(d1: seq<byte>, m1: seq<bool>, d2: seq<byte>, m2: seq<bool>, d3: seq<byte>, hs: set<nat>, refused: int)
    requires SyncStep(d1, m1, d2, m2, refused) && 0 in hs && Keeps(d2, d3, hs)
    ensures SyncStep(d1, m1, d3, m2, refused)
  {
    MapKept(d2, d3, hs, m2, 0);
    hide MapData;
  }

  lemma SyncSame(disk: seq<byte>, used: seq<bool>, refused: int)
    ensures SyncStep(disk, used, disk, used, refused)
  {
  }

  lemma SyncRefused(d1: seq<byte>, m1: seq<bool>, d2: seq<byte>, m2: seq<bool>, refused: int)
    requires refused != 0
    ensures SyncStep(d1, m1, d2, m2, refused)
  {
  }

  // Slot k of the directory now holds a file called name in sector s, and the
  // other slots are as before.
  ghost predicate Entered(before: seq<byte>, after: seq<byte>, k: nat, name: seq<byte>, s: nat) {
    && |after| == |before| && 20 * k + 20 <= |before|
    && (forall j: nat :: j != k && 20 * j + 20 <= |before| ==> EntryAt(after, j) == EntryAt(before, j))
    && Names(after, k, s) && Matches(after, k, name) && 0 in EntryAt(after, k).name
  }

  ghost predicate Erased(before: seq<byte>, after: seq<byte>, k: nat) {
    && |after| == |before| && 20 * k + 20 <= |before|
    && (forall j: nat :: j != k && 20 * j + 20 <= |before| ==> EntryAt(after, j) == EntryAt(before, j))
    && !EntryAt(after, k).inUse
  }

  lemma EnterEntry(data: seq<byte>, k: nat, b: seq<byte>, name: seq<byte>, s: nat)
    requires |b| == 20 && 20 * k + 20 <= |data|
    requires var e := DecodeEntry(b); e.inUse && e.sector == s && CString(e.name) == name && 0 in e.name
    ensures Entered(data, Splice(data, 20 * k, b), k, name, s)
  {
    forall j: nat | 20 * j + 20 <= |data|
      ensures EntryAt(Splice(data, 20 * k, b), j) == if j == k then DecodeEntry(b) else EntryAt(data, j)
    {
      EntrySplice(data, k, b, j);
    }
  }

  lemma EraseEntry(data: seq<byte>, k: nat, b: seq<byte>)
    requires |b| == 20 && 20 * k + 20 <= |data| && !DecodeEntry(b).inUse
    ensures Erased(data, Splice(data, 20 * k, b), k)
  {
    forall j: nat | 20 * j + 20 <= |data|
      ensures EntryAt(Splice(data, 20 * k, b), j) == if j == k then DecodeEntry(b) else EntryAt(data, j)
    {
      EntrySplice(data, k, b, j);
    }
  }

  // Entering a file that no slot names keeps the directory valid; only an
  // entry that was in use in the same slot is lost.
  lemma EnteredValid(before: seq<byte>, after: seq<byte>, k: nat, name: seq<byte>, s: nat)
    requires ValidDir(before) && Entered(before, after, k, name, s) && s >= 2 && !Named(before, s)
    ensures ValidDir(after) && Named(after, s)
    ensures forall x: nat :: Named(after, x) ==> x == s || Named(before, x)
    ensures !EntryAt(before, k).inUse ==> forall x: nat :: Named(before, x) ==> Named(after, x)
  {
    forall j: nat, x: nat | Names(after, j, x)
      ensures (j == k && x == s) || Names(before, j, x)
    {
    }
    forall x: nat | Named(before, x) && !EntryAt(before, k).inUse
      ensures Named(after, x)
    {
      var j: nat :| Names(before, j, x);
      assert Names(after, j, x);
    }
  }

  lemma ErasedValid(before: seq<byte>, after: seq<byte>, k: nat, s: nat)
    requires ValidDir(before) && Erased(before, after, k) && Names(before, k, s)
    ensures ValidDir(after)
    ensures forall x: nat :: Named(after, x) <==> x != s && Named(before, x)
  {
    forall j: nat, x: nat | Names(after, j, x)
      ensures Names(before, j, x) && j != k && x != s
    {
      assert x == s ==> Names(before, j, s);
    }
    forall x: nat | x != s && Named(before, x)
      ensures Named(after, x)
    {
      var j: nat :| Names(before, j, x);
      assert Names(after, j, x);
    }
  }

  // Slot was free and no entry had the name.
  ghost predicate NewName(data: seq<byte>, slot: nat, name: seq<byte>) {
    && (20 * slot + 20 <= |data| ==> !EntryAt(data, slot).inUse)
    && forall j: nat :: !Matches(data, j, name)
  }

  ghost predicate FirstMatch(data: seq<byte>, k: nat, name: seq<byte>) {
    Matches(data, k, name) && forall j: nat :: j < k ==> !Matches(data, j, name)
  }

  ghost predicate UniqueNames(data: seq<byte>) {
    forall j: nat, k: nat, name: seq<byte> :: Matches(data, j, name) && Matches(data, k, name) ==> j == k
  }

  // Entering a new name makes it the one that is found, and changes nothing
  // about any other name.
  lemma EnteredIsFound(before: seq<byte>, after: seq<byte>, k: nat, name: seq<byte>, s: nat)
    requires Entered(before, after, k, name, s) && NewName(before, k, name)
    ensures FirstMatch(after, k, name) && EntryAt(after, k).sector == s
    ensures forall j: nat, other: seq<byte> :: other != name ==> Matches(after, j, other) == Matches(before, j, other)
    ensures UniqueNames(before) ==> UniqueNames(after)
  {
    forall j: nat, other: seq<byte> | j != k || other != name
      ensures Matches(after, j, other) == Matches(before, j, other)
    {
      if j == k && 20 * j + 20 <= |before| {
        assert !EntryAt(before, k).inUse && CString(EntryAt(after, k).name) == name;
      }
    }
  }

  // Names stay unique exactly if no other slot had the new one.
  lemma EnteredUnique(before: seq<byte>, after: seq<byte>, k: nat, name: seq<byte>, s: nat)
    requires Entered(before, after, k, name, s) && UniqueNames(before)
    ensures UniqueNames(after) <==> forall j: nat :: j != k ==> !Matches(before, j, name)
  {
    forall j: nat, other: seq<byte> | j != k
      ensures Matches(after, j, other) == Matches(before, j, other)
    {
    }
    if j: nat :| j != k && Matches(before, j, name) {
      assert Matches(after, j, name) && Matches(after, k, name);
    }
  }

  // Erasing the entry of a unique name leaves no file of that name, and every
  // other name as it was.
  lemma ErasedIsGone(before: seq<byte>, after: seq<byte>, k: nat, name: seq<byte>)
    requires Erased(before, after, k) && Matches(before, k, name) && UniqueNames(before)
    ensures forall j: nat :: !Matches(after, j, name)
    ensures forall j: nat, other: seq<byte> :: other != name ==> Matches(after, j, other) == Matches(before, j, other)
    ensures UniqueNames(after)
  {
    forall j: nat, other: seq<byte>
      ensures Matches(after, j, other) <==> j != k && Matches(before, j, other)
    {
    }
  }
}
