// The file system: files are contiguous extents of sectors, in-memory inodes
// are shared by everyone who has the file open, a removed file lives until its
// last close, and the root directory is itself a flat file of entries.
module FileSystem {
  import opened Bytes
  import opened Layout
  import opened KernelMemory
  import Bitmap

  const FREE_MAP_SECTOR: nat := 0
  const ROOT_DIR_SECTOR: nat := 1
  const DEVICE_LIMIT := 0x1_0000_0000   // sectors are numbered in 32 bits

  // An in-memory inode, shared by all openers of its file.
  class Inode {
    const sector: nat
    const data: Header
    var openCnt: int
    var removed: bool
    var denyWriteCnt: int
    ghost var holders: set<File>   // the file handles on this inode
    ghost var refs: nat            // references not owned by a handle

    constructor (sector: nat, data: Header)
      ensures this.sector == sector && this.data == data
      ensures openCnt == 1 && !removed && denyWriteCnt == 0 && holders == {} && refs == 1
    {
      this.sector, this.data := sector, data;
      openCnt, removed, denyWriteCnt := 1, false, 0;
      holders, refs := {}, 1;
    }
  }

  class File {
    const inode: Inode
    var pos: int
    var denyWrite: bool

    constructor (inode: Inode)
      ensures this.inode == inode && pos == 0 && !denyWrite
    {
      this.inode := inode;
      pos, denyWrite := 0, false;
    }
  }

  ghost function Deniers(n: Inode): set<File>
    reads n`holders, n.holders`denyWrite
  {
    set f | f in n.holders && f.denyWrite
  }

  // Every opener is counted once, and so is every handle that denies writes.
  ghost predicate CountsOk(n: Inode)
    reads n, n.holders`denyWrite
  {
    && (forall f :: f in n.holders ==> f.inode == n)
    && n.openCnt == |n.holders| + n.refs
    && n.openCnt >= 1
    && n.denyWriteCnt == |Deniers(n)|
  }

  predicate DistinctSectors(s: seq<Inode>) {
    forall i, j :: 0 <= i < j < |s| ==> s[i].sector != s[j].sector
  }

  // list_remove.
  function Without(s: seq<Inode>, n: Inode): (r: seq<Inode>)
    ensures forall x :: x in r ==> x in s && x != n
    ensures forall x :: x in s && x != n ==> x in r
    ensures DistinctSectors(s) ==> DistinctSectors(r)
  {
    if s == [] then []
    else if s[0] == n then Without(s[1..], n)
    else
      var t := Without(s[1..], n);
      assert DistinctSectors(s) ==> DistinctSectors(s[1..]) && forall x :: x in s[1..] ==> x.sector != s[0].sector;
      [s[0]] + t
  }

  // How many of size bytes at offset lie inside a file of the given length.
  function Available(size: int, offset: nat, length: int): nat {
    var left := if offset < length then length - offset else 0;
    if size <= 0 then 0 else if size < left then size else left
  }

  // A transfer of avail bytes from offset on needs a buffer of its own for
  // sectors that are not moved whole.
  predicate NeedsBounce(avail: nat, offset: nat) {
    avail > 0 && !(offset % 512 == 0 && avail % 512 == 0)
  }

  // What it moves: everything, or the whole sectors before the first that
  // needs the buffer if the request for it was not granted.
  function Moved(avail: nat, offset: nat, granted: bool): (n: nat)
    ensures n <= avail
  {
    if granted || !NeedsBounce(avail, offset) then avail
    else if offset % 512 == 0 then avail - avail % 512
    else 0
  }

  // The bytes one pass of a transfer loop moves: what is left of the request,
  // of the file and of the current sector, whichever is least.
  function ChunkSize(left: int, pos: nat, length: int): (n: int)
    requires left > 0
    ensures n > 0 <==> pos < length
    ensures n > 0 ==> n <= left && pos + n <= length && pos % 512 + n <= 512
    ensures n > 0 ==> n == left || pos + n == length || (pos + n) % 512 == 0
  {
    var inodeLeft := length - pos;
    var sectorLeft := 512 - pos % 512;
    var minLeft := if inodeLeft < sectorLeft then inodeLeft else sectorLeft;
    if left < minLeft then left else minLeft
  }

  lemma ExtendWrite(before: seq<byte>, d: Header, offset: nat, buffer: seq<byte>, done: nat, n: nat)
    requires Fits(before, d) && 0 < n && offset + done + n <= d.length && done + n <= |buffer|
    ensures Written(Written(before, d, offset, buffer[..done]), d, offset + done, buffer[done..done + n])
         == Written(before, d, offset, buffer[..done + n])
  {
    hide Written, Fits;
    WrittenMore(before, d, offset, buffer[..done], buffer[done..done + n]);
    assert buffer[..done + n] == buffer[..done] + buffer[done..done + n];
  }

  lemma PutBack<T>(s: set<T>, x: T, e: set<T>)
    requires x in s
    ensures s - {x} + {x} + e == s + e
  {
  }

  // The free map after a file has been made, or an extent been lost.
  ghost predicate MarkedBy(before: seq<bool>, after: seq<bool>, h: nat, d: Header) {
    && |after| == |before| && h < |before| && !before[h] && !InExtent(d, h)
    && (forall s: nat :: InExtent(d, s) ==> s < |before| && !before[s])
    && (forall s: nat :: s < |after| ==> after[s] == (before[s] || s == h || InExtent(d, s)))
  }

  ghost predicate LeakedBy(before: seq<bool>, after: seq<bool>, d: Header) {
    && |after| == |before|
    && (forall s: nat :: InExtent(d, s) ==> s < |before| && !before[s])
    && (forall s: nat :: s < |after| ==> after[s] == (before[s] || InExtent(d, s)))
  }

  lemma FreeSector(disk: seq<byte>, used: seq<bool>, after: seq<bool>, owned: set<nat>, loose: set<nat>, s: nat)
    requires Accounted(disk, used, owned, loose) && {0, 1} <= owned && RunTaken(used, after, s, 1)
    ensures 2 <= s < |used| && s !in owned && s !in loose && Range(s, s + 1) == {s}
  {
    forall h | h in owned
      ensures h != s
    {
      OwnedIsMarked(disk, used, owned, loose, h);
    }
  }

  ghost predicate DirIn(data: seq<byte>, owned: set<nat>) {
    forall s: nat :: Named(data, s) ==> s in owned
  }

  lemma NoRunIs(used: seq<bool>, cnt: nat)
    ensures (forall j: nat :: !Bitmap.Run(used, j, cnt, false)) ==> !HasRun(used, cnt)
  {
  }

  lemma NoHeader(used: seq<bool>, length: int)
    requires 0 <= length
    ensures (forall j: nat :: !Bitmap.Run(used, j, 1, false)) ==> !Room(used, length)
  {
  }

  lemma TakenRun(before: seq<bool>, after: seq<bool>, s: nat)
    requires RunTaken(before, after, s, 1)
    ensures HasRun(before, 1)
  {
    hide Bitmap.Run;
    assert Bitmap.Run(before, s, 1, false);
  }

  lemma TakenHasRun(before: seq<bool>, after: seq<bool>, d: Header)
    requires ExtentTaken(before, after, d)
    ensures HasRun(before, SectorsFor(d.length))
  {
    hide Bitmap.Run;
    assert Bitmap.Run(before, d.start, SectorsFor(d.length), false);
  }

  // The map that Populate leaves, and the one after the header is given back.
  lemma MapAfter(used: seq<bool>, after: seq<bool>, h: nat, d: Header, success: bool, leaked: bool)
    requires Bitmap.FirstRun(used, h, 1, false) && h < |used|
    requires if success || leaked then ExtentTaken(SetBits(used, h, h + 1, true), after, d)
             else after == SetBits(used, h, h + 1, true)
    ensures h < |after|
    ensures success || leaked ==> Placed(used, h, d)
    ensures success ==> MarkedBy(used, after, h, d)
    ensures leaked ==> LeakedBy(used, SetBits(after, h, h + 1, false), d)
    ensures !success && !leaked ==> SetBits(after, h, h + 1, false) == used
  {
    var marked := SetBits(used, h, h + 1, true);
    assert marked[h];
    HeaderGivenBack(used, h, d);
    if success || leaked {
      assert forall s: nat :: InExtent(d, s) ==> s < |marked| && !marked[s];
    }
  }

  lemma RunStarts(used: seq<bool>, start: nat, cnt: nat)
    requires Bitmap.FirstRun(used, start, cnt, false) && 0 < |used| <= DEVICE_LIMIT
    ensures start < 0x1_0000_0000
  {
    assert cnt == 0 ==> Bitmap.Run(used, 0, cnt, false);
  }

  // Why an entry cannot be added.
  ghost predicate Refused(data: seq<byte>, name: seq<byte>) {
    || !NameOk(name)
    || HasName(data, name)
    || DirFull(data)
  }

  // No slot is free.
  ghost predicate DirFull(data: seq<byte>) {
    forall j: nat :: 20 * j + 20 <= |data| ==> EntryAt(data, j).inUse
  }

  // ---- What the operations on the directory see of it. Request number a + j
  // to the supply of memory is the one for reading slot j. ----

  ghost predicate NoMatchBefore(data: seq<byte>, name: seq<byte>, answers: seq<bool>, a: nat, k: nat) {
    forall j: nat :: j < k ==> !Matches(data, j, name) && Granted(answers, a + j)
  }

  ghost predicate InUseBefore(data: seq<byte>, answers: seq<bool>, a: nat, k: nat) {
    forall j: nat :: j < k ==> 20 * j + 20 <= |data| && EntryAt(data, j).inUse && Granted(answers, a + j)
  }

  // The search for a name ends at slot k: the first that has it, the end, or
  // the first that cannot be read.
  ghost predicate NameStops(data: seq<byte>, name: seq<byte>, answers: seq<bool>, a: nat, k: nat) {
    && 20 * k <= |data| && NoMatchBefore(data, name, answers, a, k)
    && (20 * k + 20 <= |data| && Granted(answers, a + k) ==> Matches(data, k, name))
  }

  // So does the search for a free slot.
  ghost predicate FreeStops(data: seq<byte>, answers: seq<bool>, a: nat, k: nat) {
    && 20 * k <= |data| && InUseBefore(data, answers, a, k)
    && (20 * k + 20 <= |data| && Granted(answers, a + k) ==> !EntryAt(data, k).inUse)
  }

  // The first entry with the name, and what it says.
  ghost predicate FoundAt(data: seq<byte>, k: nat, name: seq<byte>, s: nat, e: seq<byte>) {
    && FirstMatch(data, k, name) && Names(data, k, s) && s >= 2
    && 20 * k + 20 <= |data| && e == data[20 * k..20 * k + 20]
  }

  ghost predicate HasName(data: seq<byte>, name: seq<byte>) {
    exists j: nat :: Matches(data, j, name)
  }

  // What a request, if one is made, does to the counts.
  ghost predicate Requested(answers: seq<bool>, a: nat, requests: int, refusals: int, made: bool) {
    && requests == (if made then 1 else 0)
    && refusals == if made && !Granted(answers, a) then 1 else 0
  }

  // How many requests a search makes that ends at slot k.
  function Requests(data: seq<byte>, k: nat): nat {
    k + if 20 * k + 20 <= |data| then 1 else 0
  }

  // How many slots a search from slot k on reads that nothing cuts short: for
  // a name, and for a free slot.
  ghost function NameAsks(data: seq<byte>, name: seq<byte>, k: nat): (n: nat)
    ensures 20 * k <= |data| ==> 20 * (k + n) <= |data|
    decreases |data| - 20 * k
  {
    if 20 * k + 20 > |data| then 0 else if Matches(data, k, name) then 1 else 1 + NameAsks(data, name, k + 1)
  }

  ghost function FreeAsks(data: seq<byte>, k: nat): (n: nat)
    ensures 20 * k <= |data| ==> 20 * (k + n) <= |data|
    decreases |data| - 20 * k
  {
    if 20 * k + 20 > |data| then 0 else if !EntryAt(data, k).inUse then 1 else 1 + FreeAsks(data, k + 1)
  }

  // How many requests for memory dir_add makes that are all granted.
  ghost function AddAsks(data: seq<byte>, name: seq<byte>): nat {
    if !NameOk(name) then 0
    else if HasName(data, name) then NameAsks(data, name, 0)
    else NameAsks(data, name, 0) + FreeAsks(data, 0) + if DirFull(data) then 0 else 1
  }

  // How many requests one write of a map of n sectors to its file makes.
  function MapAsks(n: nat): (asks: nat)
    ensures asks <= 1
  {
    if NeedsBounce(Bitmap.FileSize(n), 0) then 1 else 0
  }

  function SlotCount(data: seq<byte>): nat {
    |data| / 20
  }

  lemma {:induction false} NameAsked(data: seq<byte>, name: seq<byte>, answers: seq<bool>, a: nat, j: nat, k: nat)
    requires NameStops(data, name, answers, a, k) && (20 * k + 20 > |data| || Granted(answers, a + k)) && j <= k
    ensures j + NameAsks(data, name, j) == Requests(data, k)
    decreases k - j
  {
    hide Matches;
    if j < k { NameAsked(data, name, answers, a, j + 1, k); }
  }

  lemma {:induction false} FreeAsked(data: seq<byte>, answers: seq<bool>, a: nat, j: nat, k: nat)
    requires FreeStops(data, answers, a, k) && (20 * k + 20 > |data| || Granted(answers, a + k)) && j <= k
    ensures j + FreeAsks(data, j) == Requests(data, k)
    decreases k - j
  {
    hide DecodeEntry;
    if j < k { FreeAsked(data, answers, a, j + 1, k); }
  }

  lemma SlotsRead(data: seq<byte>, k: nat)
    requires 20 * k <= |data|
    ensures Requests(data, k) <= SlotCount(data)
  {
  }

  lemma NameCount(data: seq<byte>, name: seq<byte>, answers: seq<bool>, a: nat, k: nat)
    requires NameStops(data, name, answers, a, k)
    ensures Requests(data, k) <= SlotCount(data)
    ensures 20 * k + 20 > |data| || Granted(answers, a + k) ==> Requests(data, k) == NameAsks(data, name, 0)
  {
    SlotsRead(data, k);
    if 20 * k + 20 > |data| || Granted(answers, a + k) { NameAsked(data, name, answers, a, 0, k); }
  }

  lemma AddedCount(data: seq<byte>, name: seq<byte>, answers: seq<bool>, a: nat, seen: nat, slot: nat, f1: int, f2: int, f3: int)
    requires f1 >= 0 && f2 >= 0 && f3 >= 0
    requires NameOk(name) && NameStops(data, name, answers, a, seen)
    requires !(20 * seen + 20 <= |data| && Granted(answers, a + seen))
    requires f1 == 0 ==> 20 * seen + 20 > |data| || Granted(answers, a + seen)
    requires FreeStops(data, answers, a + Requests(data, seen), slot)
    requires f2 == 0 ==> 20 * slot + 20 > |data| || Granted(answers, a + Requests(data, seen) + slot)
    ensures var n := Requests(data, seen) + Requests(data, slot) + if 20 * slot + 20 <= |data| then 1 else 0;
            Asks(a, a + n, f1 + f2 + f3, AddAsks(data, name), 2 * SlotCount(data) + 1)
  {
    SlotsRead(data, seen);
    SlotsRead(data, slot);
    NameFound(data, name, answers, a, seen);
    hide Requests, SlotCount, NameAsks, FreeAsks, DecodeEntry, HasName, Matches;
    if f1 == 0 == f2 {
      NameAsked(data, name, answers, a, 0, seen);
      FreeAsked(data, answers, a + Requests(data, seen), 0, slot);
    }
  }

  lemma TakenCount(data: seq<byte>, name: seq<byte>, answers: seq<bool>, a: nat, seen: nat, f: int)
    requires NameOk(name) && NameStops(data, name, answers, a, seen) && 20 * seen + 20 <= |data| && Granted(answers, a + seen)
    ensures Asks(a, a + Requests(data, seen), f, AddAsks(data, name), 2 * SlotCount(data) + 1)
  {
    SlotsRead(data, seen);
    NameFound(data, name, answers, a, seen);
    NameAsked(data, name, answers, a, 0, seen);
  }

  lemma NoneAsked(data: seq<byte>, name: seq<byte>, a: nat)
    requires !NameOk(name)
    ensures Asks(a, a, 0, AddAsks(data, name), 2 * SlotCount(data) + 1)
  {
  }

  // How many requests filesys_create makes after it has opened the directory
  // that are all granted, w of them for each write of the free map.
  ghost function CreateAsks(used: seq<bool>, data: seq<byte>, name: seq<byte>, length: int, w: nat): nat
    requires 0 <= length
  {
    if !HasRun(used, 1) then 0
    else w + 1 + (if Room(used, length) then w + AddAsks(data, name) else 0)
           + if Room(used, length) && !Refused(data, name) then 0 else w
  }

  // How dir_add ends, after the name has been looked for up to slot seen.
  ghost predicate AddOutcome(data: seq<byte>, name: seq<byte>, answers: seq<bool>, a: nat, seen: nat, slot: nat,
                             success: bool) {
    if !NameOk(name) then !success
    else
      && NameStops(data, name, answers, a, seen)
      && if 20 * seen + 20 <= |data| && Granted(answers, a + seen) then !success
         else
           var b := a + Requests(data, seen);
           && FreeStops(data, answers, b, slot)
           && (success <==> 20 * slot + 20 <= |data| && Granted(answers, b + Requests(data, slot)))
  }

  lemma SlotTransfer(length: nat, k: nat, granted: bool)
    requires 20 * k == length || 20 * k + 20 <= length
    ensures var avail := Available(20, 20 * k, length);
            && avail == (if 20 * k + 20 <= length then 20 else 0) && NeedsBounce(avail, 20 * k) == (avail == 20)
            && Moved(avail, 20 * k, granted) == if granted then avail else 0
  {
  }

  lemma SplicedWhole<T>(s: seq<T>, data: seq<T>)
    requires |s| == |data|
    ensures Splice(s, 0, data) == data
  {
  }

  lemma NothingSeen(data: seq<byte>, name: seq<byte>, answers: seq<bool>, a: nat)
    ensures NoMatchBefore(data, name, answers, a, 0)
  {
  }

  lemma OneMoreSeen(data: seq<byte>, name: seq<byte>, answers: seq<bool>, a: nat, k: nat)
    requires NoMatchBefore(data, name, answers, a, k) && Granted(answers, a + k) && !Matches(data, k, name)
    ensures NoMatchBefore(data, name, answers, a, k + 1)
  {
    hide Matches;
    forall j: nat | j < k + 1
      ensures !Matches(data, j, name) && Granted(answers, a + j)
    {
    }
  }

  lemma NoneInUse(data: seq<byte>, answers: seq<bool>, a: nat)
    ensures InUseBefore(data, answers, a, 0)
  {
  }

  lemma OneMoreInUse(data: seq<byte>, answers: seq<bool>, a: nat, k: nat)
    requires InUseBefore(data, answers, a, k) && Granted(answers, a + k)
    requires 20 * k + 20 <= |data| && EntryAt(data, k).inUse
    ensures InUseBefore(data, answers, a, k + 1)
  {
    hide DecodeEntry;
  }

  lemma BadName(data: seq<byte>, name: seq<byte>, answers: seq<bool>, a: nat, seen: nat, slot: nat)
    requires !NameOk(name)
    ensures Refused(data, name) && AddOutcome(data, name, answers, a, seen, slot, false)
  {
  }

  // A search that was refused no memory saw everything.
  lemma Asked(data: seq<byte>, answers: seq<bool>, a: nat, asked: int, refusals: int, k: nat)
    requires Requested(answers, a + k, asked - a - k, refusals, 20 * k + 20 <= |data|)
    ensures asked == a + Requests(data, k) && refusals >= 0
    ensures refusals == 0 ==> 20 * k + 20 > |data| || Granted(answers, a + k)
  {
  }

  lemma RequestCount(answers: seq<bool>, a: nat, requests: int, refusals: int, made: bool)
    requires Requested(answers, a, requests, refusals, made)
    ensures refusals >= 0 && requests == if made then 1 else 0
  {
  }

  lemma WroteSlot(answers: seq<bool>, a: nat, requests: int, refusals: int)
    requires Requested(answers, a, requests, refusals, true)
    ensures refusals >= 0 && (refusals == 0 ==> Granted(answers, a))
  {
  }

  // A search that nothing cut short is right either way.
  lemma NameFound(data: seq<byte>, name: seq<byte>, answers: seq<bool>, a: nat, k: nat)
    requires NameStops(data, name, answers, a, k)
    ensures 20 * k + 20 <= |data| && Granted(answers, a + k) ==> FirstMatch(data, k, name) && HasName(data, name)
    ensures 20 * k + 20 > |data| ==> !HasName(data, name)
  {
    hide CString, EntryAt;
    if j: nat :| Matches(data, j, name) {
      assert j < k ==> !Matches(data, j, name);
    }
  }

  // An entry with its last byte cleared is not in use.
  lemma ErasedEntry(before: seq<byte>, after: seq<byte>)
    requires |before| == 20 && after == before[19 := 0]
    ensures !DecodeEntry(after).inUse
  {
  }

  lemma SlotPlace(data: seq<byte>, answers: seq<bool>, a: nat, k: nat)
    requires FreeStops(data, answers, a, k)
    ensures 20 * k <= |data|
  {
  }

  lemma TakenName(data: seq<byte>, name: seq<byte>, answers: seq<bool>, a: nat, seen: nat, slot: nat)
    requires NameOk(name) && NameStops(data, name, answers, a, seen) && 20 * seen + 20 <= |data| && Granted(answers, a + seen)
    ensures Refused(data, name) && AddOutcome(data, name, answers, a, seen, slot, false)
  {
  }

  // Without a refused request the searches are right.
  lemma AddedExactly(data: seq<byte>, name: seq<byte>, answers: seq<bool>, a: nat, seen: nat, slot: nat,
                     success: bool, f1: int, f2: int, f3: int, r3: int)
    requires NameOk(name) && NameStops(data, name, answers, a, seen)
    requires !(20 * seen + 20 <= |data| && Granted(answers, a + seen))
    requires f1 >= 0 && (f1 == 0 ==> 20 * seen + 20 > |data| || Granted(answers, a + seen))
    requires FreeStops(data, answers, a + Requests(data, seen), slot)
    requires f2 >= 0 && (f2 == 0 ==> 20 * slot + 20 > |data| || Granted(answers, a + Requests(data, seen) + slot))
    requires var c := a + Requests(data, seen) + Requests(data, slot);
             && (success <==> 20 * slot + 20 <= |data| && Granted(answers, c))
             && Requested(answers, c, r3, f3, 20 * slot + 20 <= |data|)
    ensures AddOutcome(data, name, answers, a, seen, slot, success) && f3 >= 0
    ensures f1 + f2 + f3 == 0 ==> (success <==> !Refused(data, name)) && (success ==> NewName(data, slot, name))
  {
    hide CString, EntryAt;
    if f1 + f2 + f3 == 0 {
      forall j: nat
        ensures !Matches(data, j, name)
      {
        assert j < seen ==> !Matches(data, j, name);
      }
    }
  }

  predicate NameOk(name: seq<byte>) {
    1 <= |name| <= NAME_MAX
  }

  // How a transfer ends: how much has been moved, for at most one request.
  predicate Transferred(size: int, offset: nat, length: int, granted: bool, n: nat, requests: int, refusals: int) {
    var avail := Available(size, offset, length);
    && n == Moved(avail, offset, granted)
    && requests == (if NeedsBounce(avail, offset) then 1 else 0)
    && refusals == if NeedsBounce(avail, offset) && !granted then 1 else 0
  }

  // What file_read gives of a file with these bytes, for at most one request.
  ghost predicate ReadGives(content: seq<byte>, pos: int, size: int, granted: bool, data: seq<byte>, requests: int,
                            refusals: int) {
    && pos >= 0 && Transferred(size, pos, |content|, granted, |data|, requests, refusals)
    && data == Sub(content, pos, |data|)
  }

  lemma BufferGives(content: seq<byte>, pos: nat, size: int, granted: bool, n: nat, requests: int, refusals: int,
                    was: seq<byte>, now: seq<byte>)
    requires Transferred(size, pos, |content|, granted, n, requests, refusals) && size <= |was|
    requires now == Splice(was, 0, Sub(content, pos, n))
    ensures n <= |now| && ReadGives(content, pos, size, granted, now[..n], requests, refusals)
  {
    if n > 0 { SpliceSlices(was, 0, Sub(content, pos, n)); }
  }

  // A transfer on its way: n bytes have been moved, with the buffer or in
  // whole sectors.
  predicate Transferring(avail: nat, offset: nat, n: nat, bounce: bool, granted: bool, requests: int, refusals: int) {
    && n <= avail && refusals == 0
    && (bounce ==> NeedsBounce(avail, offset) && granted && requests == 1)
    && (!bounce ==> requests == 0 && n % 512 == 0 && (n > 0 ==> offset % 512 == 0))
  }

  lemma ChunkFits(size: int, offset: nat, length: int, n: nat)
    requires n < size && n <= Available(size, offset, length)
    ensures var chunk := ChunkSize(size - n, offset + n, length);
            && (chunk <= 0 ==> n == Available(size, offset, length))
            && (chunk > 0 ==> n + chunk <= Available(size, offset, length) && offset + n + chunk <= length
                              && (offset + n) % 512 + chunk <= 512)
            && (0 < chunk < 512 && (offset + n) % 512 == 0 ==> n + chunk == Available(size, offset, length))
  {
  }

  // A part of a sector is where the buffer is needed.
  lemma PartOfSector(size: int, offset: nat, length: int, n: nat, granted: bool)
    requires n < size && n <= Available(size, offset, length)
    requires var chunk := ChunkSize(size - n, offset + n, length);
             chunk > 0 && !((offset + n) % 512 == 0 && chunk == 512)
    requires Transferring(Available(size, offset, length), offset, n, false, granted, 0, 0)
    ensures NeedsBounce(Available(size, offset, length), offset)
    ensures Moved(Available(size, offset, length), offset, false) == n
  {
    ChunkFits(size, offset, length, n);
    hide ChunkSize, Available;
    if offset % 512 == 0 {
      assert (offset + n) % 512 == 0;
    }
  }

  lemma AllMoved(size: int, offset: nat, length: int, n: nat, bounce: bool, granted: bool, requests: int, refusals: int)
    requires n == Available(size, offset, length)
    requires Transferring(n, offset, n, bounce, granted, requests, refusals)
    ensures Transferred(size, offset, length, granted, n, requests, refusals)
  {
  }

  lemma NothingMoved(size: int, offset: nat, length: int, granted: bool)
    ensures var avail := Available(size, offset, length);
            && Transferring(avail, offset, 0, false, granted, 0, 0)
            && (avail == 0 || offset + avail <= length) && avail <= if size <= 0 then 0 else size
  {
  }

  lemma WholeSector(avail: nat, offset: nat, n: nat, granted: bool)
    requires Transferring(avail, offset, n, false, granted, 0, 0) && (offset + n) % 512 == 0 && n + 512 <= avail
    ensures Transferring(avail, offset, n + 512, false, granted, 0, 0)
  {
  }

  // The header of a file and its data.
  ghost function SectorsOf(disk: seq<byte>, h: nat): set<nat>
    requires GoodHeader(disk, h)
  {
    {h} + Extent(HeaderAt(disk, h))
  }

  class FileSys {
    const sectorCount: nat
    const supply: Supply
    var disk: seq<byte>
    var freeMap: seq<bool>
    var openInodes: seq<Inode>
    var freeMapFile: File?
    ghost var owned: set<nat>        // headers whose sectors are accounted for
    ghost var loose: set<nat>        // marked sectors that belong to no inode
    ghost var handles: set<File>     // all open file handles

    ghost predicate Core()
      reads this, openInodes, handles
    {
      DiskOk() && HeapOk()
    }

    // Every marked sector is accounted for, and every open inode is a true copy
    // of its header.
    ghost predicate DiskOk()
      reads this`disk, this`freeMap, this`owned, this`loose, this`openInodes
    {
      && |freeMap| == sectorCount <= DEVICE_LIMIT
      && Accounted(disk, freeMap, owned, loose)
      && (forall n :: n in openInodes ==> n.sector in owned && Describes(disk, n.sector, n.data))
    }

    // No inode is listed twice, and counts agree with the handles.
    ghost predicate HeapOk()
      reads this`openInodes, this`handles, this`freeMapFile, openInodes, handles
    {
      && DistinctSectors(openInodes)
      && (forall n :: n in openInodes ==> n.holders <= handles && CountsOk(n))
      && (forall f :: f in handles ==> f.inode in openInodes && f in f.inode.holders && f.pos >= 0)
      && (freeMapFile != null ==> freeMapFile in handles && freeMapFile.inode.sector == FREE_MAP_SECTOR
                                  && !freeMapFile.inode.removed)
    }

    ghost function Inodes(): set<Inode>
      reads this`openInodes
    {
      set n | n in openInodes
    }

    // The bytes of an open file.
    ghost function Content(n: Inode): seq<byte>
      reads this
      requires Fits(disk, n.data)
    {
      Data(disk, n.data)
    }

    // free_map_init: the two system sectors are marked, nothing else is.
    constructor (sectorCount: nat, disk: seq<byte>, supply: Supply)
      requires 2 <= sectorCount <= DEVICE_LIMIT && |disk| == 512 * sectorCount
      ensures this.sectorCount == sectorCount && this.supply == supply && Core()
      ensures openInodes == [] && handles == {} && owned == {} && loose == {0, 1} && freeMapFile == null
      ensures |freeMap| == sectorCount && forall s :: 0 <= s < sectorCount ==> freeMap[s] == (s < 2)
    {
      this.sectorCount, this.supply, this.disk := sectorCount, supply, disk;
      freeMap := seq(sectorCount, s => s < 2);
      openInodes, freeMapFile := [], null;
      owned, loose, handles := {}, {0, 1}, {};
    }

    // ---- Sector transfers. ----

    // Reads size bytes at offset, sector by sector; a part of a sector goes
    // through a bounce buffer that may fail to be allocated.
    method ReadAt(inode: Inode, buffer: array<byte>, size: int, offset: nat) returns (bytesRead: nat)
      requires Fits(disk, inode.data)
      requires size <= buffer.Length
      modifies buffer, supply
      ensures Transferred(size, offset, inode.data.length, Granted(supply.answers, old(supply.asked)), bytesRead,
                          supply.asked - old(supply.asked), supply.Failures() - old(supply.Failures()))
      ensures buffer[..] == Splice(old(buffer[..]), 0, Sub(Content(inode), offset, bytesRead))
    {
      hide Splice, Data, ChunkSize, Available, Moved, NeedsBounce, Transferred, Transferring, Sub, Fits, Granted,
        Refusals;
      var left, pos := size, offset;
      var bounce := false;
      bytesRead := 0;
      ghost var before, content := buffer[..], Data(disk, inode.data);
      ghost var avail, granted := Available(size, offset, inode.data.length), Granted(supply.answers, supply.asked);
      SpliceNothing(before, 0);
      NothingMoved(size, offset, inode.data.length, granted);
      while left > 0
        invariant left == size - bytesRead && pos == offset + bytesRead && bytesRead <= avail
        invariant avail <= if size <= 0 then 0 else size
        invariant avail == 0 || offset + avail <= inode.data.length
        invariant buffer[..] == Splice(before, 0, Sub(content, offset, bytesRead))
        invariant Transferring(avail, offset, bytesRead, bounce, granted,
                               supply.asked - old(supply.asked), supply.Failures() - old(supply.Failures()))
      {
        var chunkSize;
        chunkSize, bounce := NextChunk(left, pos, inode.data.length, bounce, size, offset, bytesRead,
                                       old(supply.asked), old(supply.Failures()));
        if chunkSize <= 0 {
          return;
        }
        ghost var mid := buffer[..];
        ReadChunk(inode, buffer, bytesRead, pos, chunkSize);
        assert buffer[..] == Splice(mid, bytesRead, Sub(content, pos, chunkSize));
        SubMore(content, offset, bytesRead, chunkSize);
        SpliceMore(before, 0, Sub(content, offset, bytesRead), Sub(content, pos, chunkSize));
        left := left - chunkSize;
        pos := pos + chunkSize;
        bytesRead := bytesRead + chunkSize;
      }
      AllMoved(size, offset, inode.data.length, bytesRead, bounce, granted,
               supply.asked - old(supply.asked), supply.Failures() - old(supply.Failures()));
    }

    // How the loops of inode_read_at and inode_write_at begin: the size of the
    // next chunk, and a buffer if it is the first that needs one. 0 ends them.
    method NextChunk(left: int, pos: nat, length: int, bounce: bool, ghost size: int, ghost offset: nat, ghost n: nat,
                     ghost asked: nat, ghost failures: nat)
      returns (chunkSize: int, bounce': bool)
      requires left == size - n > 0 && pos == offset + n && n <= Available(size, offset, length)
      requires Transferring(Available(size, offset, length), offset, n, bounce, Granted(supply.answers, asked),
                            supply.asked - asked, supply.Failures() - failures)
      modifies supply
      ensures var avail := Available(size, offset, length);
              chunkSize > 0 ==>
                && n + chunkSize <= avail && pos + chunkSize <= length && pos % 512 + chunkSize <= 512
                && Transferring(avail, offset, n + chunkSize, bounce', Granted(supply.answers, asked),
                                supply.asked - asked, supply.Failures() - failures)
      ensures chunkSize <= 0 ==>
                Transferred(size, offset, length, Granted(supply.answers, asked), n,
                            supply.asked - asked, supply.Failures() - failures)
    {
      ChunkFits(size, offset, length, n);
      var sectorOfs := pos % 512;
      chunkSize, bounce' := ChunkSize(left, pos, length), bounce;
      ghost var granted := Granted(supply.answers, asked);
      if chunkSize <= 0 {
        hide Available, ChunkSize;
        AllMoved(size, offset, length, n, bounce, granted, supply.asked - asked, supply.Failures() - failures);
      } else if !(sectorOfs == 0 && chunkSize == 512) && !bounce {
        PartOfSector(size, offset, length, n, granted);
        hide Available, ChunkSize;
        bounce' := supply.Allocate();
        if !bounce' {
          chunkSize := 0;
        }
      } else if !bounce {
        hide Available, ChunkSize;
        WholeSector(Available(size, offset, length), offset, n, granted);
      }
    }

    // One sector, or the part of it that is wanted.
    method ReadChunk(inode: Inode, buffer: array<byte>, at: nat, pos: nat, n: nat)
      requires Fits(disk, inode.data) && at + n <= buffer.Length
      requires 0 < n && pos + n <= inode.data.length && pos % 512 + n <= 512
      modifies buffer
      ensures buffer[..] == Splice(old(buffer[..]), at, Sub(Data(disk, inode.data), pos, n))
    {
      var sectorIdx, sectorOfs := inode.data.start + pos / 512, pos % 512;
      ChunkOfData(disk, inode.data, pos, n);
      var sector := Sector(disk, sectorIdx);
      CopyOut(buffer, at, sector[sectorOfs..sectorOfs + n]);
    }

    // Writes bytes that already belong to the file: a file never grows.
    method WriteAt(inode: Inode, buffer: seq<byte>, size: int, offset: nat) returns (bytesWritten: nat)
      requires Core() && inode in openInodes && size <= |buffer|
      modifies this`disk, supply
      ensures Core() && Fits(disk, inode.data)
      ensures inode.denyWriteCnt != 0 ==>
                bytesWritten == 0 && supply.asked == old(supply.asked) && supply.Failures() == old(supply.Failures())
      ensures inode.denyWriteCnt == 0 ==>
                Transferred(size, offset, inode.data.length, Granted(supply.answers, old(supply.asked)), bytesWritten,
                            supply.asked - old(supply.asked), supply.Failures() - old(supply.Failures()))
      ensures bytesWritten == 0 ==> disk == old(disk)
      ensures bytesWritten > 0 ==> bytesWritten <= |buffer| && offset + bytesWritten <= inode.data.length
                                   && Fits(old(disk), inode.data)
                                   && Content(inode) == Splice(old(Content(inode)), offset, buffer[..bytesWritten])
      ensures Keeps(old(disk), disk, owned - {inode.sector})
      ensures HeaderAt(disk, inode.sector) == inode.data
    {
      hide Accounted, Transferred, Available, Moved, NeedsBounce;
      KeepsRefl(disk, freeMap, owned, loose);
      if inode.denyWriteCnt != 0 {
        return 0;
      }
      bytesWritten := WriteLoop(inode.data, buffer, size, offset);
      if bytesWritten > 0 {
        WriteFile(old(disk), freeMap, owned, loose, inode.sector, offset, buffer[..bytesWritten]);
        assert forall h :: h in owned ==> h == inode.sector || h in owned - {inode.sector};
      }
    }

    method WriteLoop(d: Header, buffer: seq<byte>, size: int, offset: nat) returns (bytesWritten: nat)
      requires Fits(disk, d) && size <= |buffer|
      modifies this`disk, supply
      ensures Transferred(size, offset, d.length, Granted(supply.answers, old(supply.asked)), bytesWritten,
                          supply.asked - old(supply.asked), supply.Failures() - old(supply.Failures()))
      ensures bytesWritten <= |buffer| && (bytesWritten > 0 ==> offset + bytesWritten <= d.length)
      ensures disk == Written(old(disk), d, offset, buffer[..bytesWritten])
    {
      hide ChunkSize, Available, Moved, NeedsBounce, Transferred, Transferring;
      bytesWritten := 0;
      var left, pos := size, offset;
      var bounce := false;
      ghost var before := disk;
      ghost var avail, granted := Available(size, offset, d.length), Granted(supply.answers, supply.asked);
      NothingMoved(size, offset, d.length, granted);
      while left > 0
        invariant left == size - bytesWritten && pos == offset + bytesWritten && bytesWritten <= avail
        invariant avail <= if size <= 0 then 0 else size
        invariant bytesWritten <= |buffer| && (avail == 0 || offset + avail <= d.length)
        invariant disk == Written(before, d, offset, buffer[..bytesWritten])
        invariant Transferring(avail, offset, bytesWritten, bounce, granted,
                               supply.asked - old(supply.asked), supply.Failures() - old(supply.Failures()))
      {
        var chunkSize;
        chunkSize, bounce := NextChunk(left, pos, d.length, bounce, size, offset, bytesWritten,
                                       old(supply.asked), old(supply.Failures()));
        if chunkSize <= 0 {
          return;
        }
        WriteChunk(d, buffer[bytesWritten..bytesWritten + chunkSize], pos);
        ExtendWrite(before, d, offset, buffer, bytesWritten, chunkSize);
        left := left - chunkSize;
        pos := pos + chunkSize;
        bytesWritten := bytesWritten + chunkSize;
      }
      AllMoved(size, offset, d.length, bytesWritten, bounce, granted,
               supply.asked - old(supply.asked), supply.Failures() - old(supply.Failures()));
    }

    // One sector, either whole or through a bounce buffer that starts out as
    // the sector's old bytes when some of them must survive.
    method WriteChunk(d: Header, chunk: seq<byte>, pos: nat)
      requires Fits(disk, d)
      requires chunk != [] && pos + |chunk| <= d.length && pos % 512 + |chunk| <= 512
      modifies this`disk
      ensures disk == Written(old(disk), d, pos, chunk)
    {
      var sectorIdx, sectorOfs := d.start + pos / 512, pos % 512;
      var sectorLeft := 512 - sectorOfs;
      ChunkOfData(disk, d, pos, |chunk|);
      if sectorOfs == 0 && |chunk| == 512 {
        disk := Splice(disk, 512 * sectorIdx, chunk);
      } else {
        var bounce := Zeros(512);
        if sectorOfs > 0 || |chunk| < sectorLeft {
          bounce := Sector(disk, sectorIdx);
        }
        bounce := Splice(bounce, sectorOfs, chunk);
        SectorUpdate(disk, sectorIdx, sectorOfs, chunk);
        disk := Splice(disk, 512 * sectorIdx, bounce);
      }
    }

    // ---- The free map. ----

    // The free map file has room for the map, and nobody denies writes to it.
    ghost predicate MapFile()
      reads this`freeMapFile, if freeMapFile != null then {freeMapFile.inode} else {}
    {
      freeMapFile != null ==>
        freeMapFile.inode.denyWriteCnt == 0 && freeMapFile.inode.data.length == Bitmap.FileSize(sectorCount)
    }

    // Writes the bitmap to the free map file.
    method BitmapWrite() returns (ok: bool)
      requires Core() && freeMapFile != null
      modifies this`disk, supply
      ensures Core() && supply.Failures() >= old(supply.Failures())
      ensures old(supply.asked) <= supply.asked <= old(supply.asked) + 1
      ensures MapFile() ==> supply.asked == old(supply.asked) + MapAsks(sectorCount)
      ensures KeepsButMap(old(disk), disk, owned)
      ensures MapFile() ==> (ok <==> supply.Failures() == old(supply.Failures()))
      ensures ok && MapFile() ==> MapOnDisk(disk, freeMap)
    {
      hide *;
      MapIsFile();
      var image := Bitmap.Image(freeMap);
      var n := WriteAt(freeMapFile.inode, image, |image|, 0);
      ok := n == |image|;
      MapIsFile();
      MapKeeps(old(disk), disk, owned, freeMapFile.inode.data);
      if freeMapFile.inode.denyWriteCnt == 0 {
        MapMoved(sectorCount, freeMapFile.inode.data.length, Granted(supply.answers, old(supply.asked)), n,
                 supply.asked - old(supply.asked), supply.Failures() - old(supply.Failures()));
      }
      if n > 0 { assert image[..|image|] == image; }
      if ok && MapFile() { OnDisk(old(Content(freeMapFile.inode)), image, n); }
    }

    lemma OnDisk(content: seq<byte>, image: seq<byte>, n: nat)
      requires Core() && freeMapFile != null && MapFile() && image == Bitmap.Image(freeMap) && n == |image|
      requires Fits(disk, freeMapFile.inode.data) && |content| == freeMapFile.inode.data.length
      requires Content(freeMapFile.inode) == if n > 0 then Splice(content, 0, image) else content
      ensures MapOnDisk(disk, freeMap)
    {
      MapIsFile();
      MapDataIs(disk);
    }

    lemma MapIsFile()
      requires Core() && freeMapFile != null
      ensures freeMapFile.inode in openInodes && freeMapFile.inode.sector == FREE_MAP_SECTOR == 0
      ensures |freeMap| == sectorCount && Describes(disk, 0, freeMapFile.inode.data) && Fits(disk, freeMapFile.inode.data)
      ensures |Content(freeMapFile.inode)| == freeMapFile.inode.data.length
      ensures MapFile() ==> freeMapFile.inode.denyWriteCnt == 0 && freeMapFile.inode.data.length == Bitmap.FileSize(sectorCount)
    {
    }

    static lemma MapKeeps(d1: seq<byte>, d2: seq<byte>, hs: set<nat>, d: Header)
      requires Keeps(d1, d2, hs - {0}) && Describes(d1, 0, d) && Describes(d2, 0, d)
      ensures KeepsButMap(d1, d2, hs)
    {
      hide Keeps;
    }

    // All of the map goes out exactly if the request for memory that it takes, if
    // any, is granted.
    static lemma MapMoved(m: nat, length: int, granted: bool, n: nat, requests: int, refusals: int)
      requires Transferred(Bitmap.FileSize(m), 0, length, granted, n, requests, refusals)
      ensures 0 <= requests <= 1 && refusals >= 0
      ensures length == Bitmap.FileSize(m) ==> requests == MapAsks(m) && (n == length <==> refusals == 0)
    {
    }

    // Allocates the first run of cnt free sectors.  When the new map cannot be
    // written to its file the allocation is undone.
    method FreeMapAllocate(cnt: nat) returns (ok: bool, sector: nat)
      requires Core()
      modifies this`disk, this`freeMap, this`loose, supply
      ensures Core() && supply.Failures() >= old(supply.Failures())
      ensures ok && MapFile() && freeMapFile != null ==> MapOnDisk(disk, freeMap)
      ensures old(MapFile()) && freeMapFile != null ==>
                SyncStep(old(disk), old(freeMap), disk, freeMap, supply.Failures() - old(supply.Failures()))
      ensures old(supply.asked) <= supply.asked <= old(supply.asked) + 1
      ensures MapFile() && freeMapFile != null ==>
                supply.asked == old(supply.asked) + if HasRun(old(freeMap), cnt) then MapAsks(sectorCount) else 0
      ensures KeepsButMap(old(disk), disk, owned)
      ensures ok ==> RunTaken(old(freeMap), freeMap, sector, cnt)
      ensures ok ==> loose == old(loose) + Range(sector, sector + cnt) && old(loose) !! Range(sector, sector + cnt)
      ensures !ok ==> freeMap == old(freeMap) && loose == old(loose)
      ensures !ok && MapFile() && supply.Failures() == old(supply.Failures()) ==>
                forall j: nat :: !Bitmap.Run(old(freeMap), j, cnt, false)
    {
      hide Accounted, HeapOk, KeepsButMap;
      KeepsNow();
      ok, sector := Bitmap.Scan(freeMap, 0, cnt, false);
      if ok {
        MarkRun(sector, cnt);
        if freeMapFile != null {
          ok := BitmapWrite();
          if !ok {
            UnmarkRun(sector, cnt);
          }
        }
      }
    }

    lemma KeepsNow()
      requires Core()
      ensures KeepsButMap(disk, disk, owned) && Keeps(disk, disk, owned)
    {
      KeepsRefl(disk, freeMap, owned, loose);
    }

    // bitmap_set_multiple, on sectors that change hands.
    method MarkRun(sector: nat, cnt: nat)
      requires Core() && Bitmap.Run(freeMap, sector, cnt, false)
      modifies this`freeMap, this`loose
      ensures Core()
      ensures freeMap == SetBits(old(freeMap), sector, sector + cnt, true)
      ensures loose == old(loose) + Range(sector, sector + cnt) && old(loose) !! Range(sector, sector + cnt)
    {
      hide Accounted, HeapOk;
      AccountAllocate(disk, freeMap, owned, loose, sector, sector + cnt);
      freeMap := SetBits(freeMap, sector, sector + cnt, true);
      loose := loose + Range(sector, sector + cnt);
    }

    method UnmarkRun(sector: nat, cnt: nat)
      requires Core() && sector + cnt <= sectorCount && Range(sector, sector + cnt) <= loose
      modifies this`freeMap, this`loose
      ensures Core()
      ensures Bitmap.Run(old(freeMap), sector, cnt, true)
      ensures freeMap == SetBits(old(freeMap), sector, sector + cnt, false)
      ensures loose == old(loose) - Range(sector, sector + cnt)
    {
      AccountFree(disk, freeMap, owned, loose, sector, sector + cnt);
      freeMap := SetBits(freeMap, sector, sector + cnt, false);
      loose := loose - Range(sector, sector + cnt);
    }

    // Frees cnt sectors, all of which must be marked.
    method FreeMapRelease(sector: nat, cnt: nat)
      requires Core() && freeMapFile != null
      requires sector + cnt <= sectorCount && Range(sector, sector + cnt) <= loose
      modifies this`disk, this`freeMap, this`loose, supply
      ensures Core() && supply.Failures() >= old(supply.Failures())
      ensures MapFile() && supply.Failures() == old(supply.Failures()) ==> MapOnDisk(disk, freeMap)
      ensures old(supply.asked) <= supply.asked <= old(supply.asked) + 1
      ensures MapFile() ==> supply.asked == old(supply.asked) + MapAsks(sectorCount)
      ensures KeepsButMap(old(disk), disk, owned)
      ensures Bitmap.Run(old(freeMap), sector, cnt, true)
      ensures freeMap == SetBits(old(freeMap), sector, sector + cnt, false)
      ensures loose == old(loose) - Range(sector, sector + cnt)
    {
      UnmarkRun(sector, cnt);
      var _ := BitmapWrite();
    }

    // ---- Inodes. ----

    method BlockWrite(s: nat, b: seq<byte>)
      requires Core() && s in loose && |b| == 512
      modifies this`disk
      ensures Core() && Keeps(old(disk), disk, owned)
      ensures 512 * s + 512 <= |disk| && disk == Splice(old(disk), 512 * s, b) && Sector(disk, s) == b
    {
      WriteLooseSector(disk, freeMap, owned, loose, s, b);
      disk := Splice(disk, 512 * s, b);
    }

    lemma InRange(start: nat, n: nat)
      requires Core() && Range(start, start + n) <= loose
      ensures |disk| == 512 * sectorCount && forall s: nat :: start <= s < start + n ==> s in loose
    {
      forall s: nat | start <= s < start + n
        ensures s in loose
      {
        assert s in Range(start, start + n);
      }
    }

    // Zero-fills the sectors start .. start + n.
    method BlockClear(start: nat, n: nat)
      requires Core() && Range(start, start + n) <= loose && start + n <= sectorCount
      modifies this`disk
      ensures Core() && Keeps(old(disk), disk, owned)
      ensures disk == Splice(old(disk), 512 * start, Zeros(512 * n))
    {
      hide Core, Keeps, Range;
      var i := 0;
      ghost var before := disk;
      KeepsNow();
      InRange(start, n);
      assert Splice(before, 512 * start, Zeros(0)) == before;
      while i < n
        invariant i <= n && Core() && Keeps(before, disk, owned)
        invariant disk == Splice(before, 512 * start, Zeros(512 * i))
      {
        ghost var mid := disk;
        BlockWrite(start + i, Zeros(512));
        KeepsTransitive(before, mid, disk, owned);
        SpliceMore(before, 512 * start, Zeros(512 * i), Zeros(512));
        assert Zeros(512 * i) + Zeros(512) == Zeros(512 * (i + 1));
        i := i + 1;
      }
    }

    // Turns an allocated sector into the header of a zero-filled file.
    method InodeCreate(sector: nat, length: int) returns (ok: bool)
      requires Core() && sector in loose && 0 <= length < 0x8000_0000
      modifies this`disk, this`freeMap, this`loose, this`owned, supply
      ensures Core() && supply.Failures() >= old(supply.Failures())
      ensures ok && old(MapFile()) && freeMapFile != null ==> MapOnDisk(disk, freeMap)
      ensures old(MapFile()) && freeMapFile != null ==>
                SyncStep(old(disk), old(freeMap), disk, freeMap, supply.Failures() - old(supply.Failures()))
      ensures old(supply.asked) <= supply.asked <= old(supply.asked) + 2
      ensures MapFile() && freeMapFile != null ==>
                Asks(old(supply.asked), supply.asked, supply.Failures() - old(supply.Failures()),
                     1 + if HasRun(old(freeMap), SectorsFor(length)) then MapAsks(sectorCount) else 0, 2)
      ensures KeepsButMap(old(disk), disk, old(owned))
      ensures !ok ==> freeMap == old(freeMap) && loose == old(loose) && owned == old(owned)
      ensures !ok && MapFile() && supply.Failures() == old(supply.Failures()) ==>
                forall j: nat :: !Bitmap.Run(old(freeMap), j, SectorsFor(length), false)
      ensures ok ==> sector !in old(owned) && owned == old(owned) + {sector} && loose == old(loose) - {sector}
      ensures ok ==> GoodHeader(disk, sector) && FreshFile(disk, sector, length)
      ensures ok ==> var d := HeaderAt(disk, sector);
                     d.length == length && ExtentTaken(old(freeMap), freeMap, d) && Extent(d) !! old(loose)
      ensures ok ==> forall n :: n in openInodes ==> n.sector != sector
    {
      hide Accounted, HeapOk, KeepsButMap, Bitmap.FirstRun, Bitmap.Run, SetBits, SyncStep, MapOnDisk, MapFile,
        HasRun, MapAsks, FreshFile, GoodHeader, HeaderAt, Keeps;
      KeepsNow();
      NotOpen(sector);
      ghost var there, f := freeMapFile != null && MapFile(), supply.Failures();
      ZeroOwned();
      var memory := supply.Allocate();
      if !memory {
        SyncRefused(old(disk), old(freeMap), disk, freeMap, supply.Failures() - f);
        return false;
      }
      var sectors := SectorsFor(length);
      var start: nat;
      ok, start := FreeMapAllocate(sectors);
      if ok {
        ghost var mid := disk;
        RunStarts(old(freeMap), start, sectors);
        WriteInode(sector, Header(start, length));
        KeepsIsKeepsButMap(mid, disk, old(owned));
        KeepsButMapTransitive(old(disk), mid, disk, old(owned));
        if there {
          SyncThrough(old(disk), old(freeMap), mid, freeMap, disk, old(owned), supply.Failures() - f);
          MapStays(mid, disk, old(owned), freeMap);
        }
      }
    }

    lemma ZeroOwned()
      requires Core()
      ensures freeMapFile != null ==> 0 in owned
    {
      if freeMapFile != null { MapIsFile(); }
    }

    lemma NotOpen(sector: nat)
      requires Core() && sector in loose
      ensures forall n :: n in openInodes ==> n.sector != sector
      ensures sector < |freeMap| <= DEVICE_LIMIT
    {
      forall n | n in openInodes
        ensures n.sector != sector
      {
        OwnedIsMarked(disk, freeMap, owned, loose, n.sector);
      }
    }

    // The header, then the zeros.
    method WriteInode(sector: nat, d: Header)
      requires Core() && sector in loose && 0 <= d.length < 0x8000_0000
      requires d.start + SectorsFor(d.length) <= sectorCount && d.start < 0x1_0000_0000
      requires Extent(d) <= loose - {sector}
      modifies this`disk, this`loose, this`owned
      ensures Core() && Keeps(old(disk), disk, old(owned))
      ensures sector !in old(owned) && owned == old(owned) + {sector} && loose == old(loose) - {sector} - Extent(d)
      ensures GoodHeader(disk, sector) && HeaderAt(disk, sector) == d && FreshFile(disk, sector, d.length)
    {
      BlockWrite(sector, EncodeHeader(d));
      ghost var mid := disk;
      BlockClear(d.start, SectorsFor(d.length));
      KeepsTransitive(old(disk), mid, disk, owned);
      FreshInode(mid, sector, d, disk);
      Adopt(sector);
    }

    ghost method Adopt(h: nat)
      requires Core() && h in loose && GoodHeader(disk, h) && Extent(HeaderAt(disk, h)) <= loose
      modifies this`loose, this`owned
      ensures Core() && h !in old(owned) && owned == old(owned) + {h}
      ensures loose == old(loose) - {h} - Extent(HeaderAt(disk, h))
    {
      AccountAdopt(disk, freeMap, owned, loose, h);
      owned, loose := owned + {h}, loose - {h} - Extent(HeaderAt(disk, h));
    }

    method FindOpen(sector: nat) returns (inode: Inode?)
      ensures inode != null ==> inode in openInodes && inode.sector == sector
      ensures inode == null ==> forall n :: n in openInodes ==> n.sector != sector
    {
      var i := 0;
      while i < |openInodes|
        invariant i <= |openInodes| && forall j :: 0 <= j < i ==> openInodes[j].sector != sector
      {
        if openInodes[i].sector == sector {
          return openInodes[i];
        }
        i := i + 1;
      }
      return null;
    }

    // Opens the inode whose header is in sector; an inode that is already open
    // is shared, never read twice.
    method InodeOpen(sector: nat) returns (inode: Inode?)
      requires Core() && sector in owned
      modifies this`openInodes, Inodes(), supply
      ensures Core() && supply.Failures() == old(supply.Failures()) + if inode == null then 1 else 0
      ensures supply.asked == old(supply.asked) + if inode != null && inode in old(openInodes) then 0 else 1
      ensures inode == null ==> openInodes == old(openInodes) && forall n :: n in openInodes ==> n.sector != sector
      ensures inode != null ==> inode in openInodes && inode.sector == sector && inode.refs > 0
      ensures inode != null && inode in old(openInodes) ==>
                openInodes == old(openInodes) && OneMoreRef(inode) && inode.openCnt > 1
      ensures inode != null && inode !in old(openInodes) ==> forall n :: n in old(openInodes) ==> n.sector != sector
      ensures inode != null && inode !in old(openInodes) ==>
                fresh(inode) && openInodes == [inode] + old(openInodes)
                && inode.refs == 1 && inode.openCnt == 1 && inode.holders == {} && !inode.removed
      ensures forall n :: n in old(openInodes) && n != inode ==> unchanged(n)
    {
      inode := FindOpen(sector);
      if inode != null {
        inode := InodeReopen(inode);
      } else {
        var memory := supply.Allocate();
        if memory {
          inode := EnlistInode(sector);
        }
      }
    }

    // Reads a header that is not open yet.
    method EnlistInode(sector: nat) returns (inode: Inode)
      requires Core() && sector in owned && forall n :: n in openInodes ==> n.sector != sector
      modifies this`openInodes
      ensures Core()
      ensures fresh(inode) && inode.sector == sector && openInodes == [inode] + old(openInodes)
      ensures inode.refs == 1 && inode.openCnt == 1 && inode.holders == {} && !inode.removed
    {
      hide Accounted, GoodHeader;
      OwnedIsGood(disk, freeMap, owned, loose, sector);
      inode := new Inode(sector, HeaderAt(disk, sector));
      openInodes := [inode] + openInodes;
    }

    twostate predicate OneMoreRef(n: Inode)
      reads n
    {
      n.refs == old(n.refs) + 1 && n.openCnt == old(n.openCnt) + 1 && n.holders == old(n.holders) && n.removed == old(n.removed)
      && n.denyWriteCnt == old(n.denyWriteCnt)
    }

    method InodeReopen(n: Inode) returns (inode: Inode)
      requires Core() && n in openInodes
      modifies n
      ensures Core() && inode == n && OneMoreRef(n) && n.openCnt > 1
    {
      hide Core, DiskOk, HeapOk, CountsOk;
      CoreParts();
      inode := n;
      inode.openCnt := inode.openCnt + 1;
      inode.refs := inode.refs + 1;
      OnlyCounts(n);
      PartsCore();
    }

    lemma CoreParts()
      requires Core()
      ensures DiskOk() && HeapOk()
      ensures forall n :: n in openInodes ==> n.openCnt == |n.holders| + n.refs && n.openCnt >= 1
    {
      hide DiskOk;
      assert forall n :: n in openInodes ==> CountsOk(n);
    }

    lemma PartsCore()
      requires DiskOk() && HeapOk()
      ensures Core()
    {
    }

    // Only how often n is open, and whether it is removed, may be different.
    twostate predicate CountChanged(n: Inode)
      reads this, openInodes, handles
    {
      && n in openInodes && openInodes == old(openInodes) && handles == old(handles) && freeMapFile == old(freeMapFile)
      && (forall m :: m in openInodes && m != n ==> unchanged(m)) && (forall f :: f in handles ==> unchanged(f))
      && n.holders == old(n.holders) && n.denyWriteCnt == old(n.denyWriteCnt)
      && n.openCnt - n.refs == old(n.openCnt) - old(n.refs) && (n.sector == FREE_MAP_SECTOR ==> n.removed == old(n.removed))
    }

    twostate lemma OnlyCounts(n: Inode)
      requires old(HeapOk()) && CountChanged(n) && n.openCnt >= 1
      ensures HeapOk()
    {
      forall m | m in openInodes
        ensures m.holders <= handles && CountsOk(m)
      {
        assert old(m.holders) <= old(handles) && old(CountsOk(m));
        assert Deniers(m) == old(Deniers(m));
      }
    }

    method InodeRemove(inode: Inode)
      requires Core() && inode in openInodes && inode.sector != FREE_MAP_SECTOR
      modifies inode`removed
      ensures Core() && inode.removed
    {
      hide Core, DiskOk, HeapOk, CountsOk;
      CoreParts();
      inode.removed := true;
      OnlyCounts(inode);
      PartsCore();
    }

    // Drops one reference.  The last one takes the inode off the list and, if
    // its file was removed, gives its header and its extent back.
    method InodeClose(inode: Inode?)
      requires Core() && freeMapFile != null
      requires inode != null ==> inode in openInodes && inode.refs > 0
      modifies this`disk, this`freeMap, this`loose, this`owned, this`openInodes, inode, supply
      ensures Core() && supply.Failures() >= old(supply.Failures())
      ensures old(MapFile()) ==>
                SyncStep(old(disk), old(freeMap), disk, freeMap, supply.Failures() - old(supply.Failures()))
      ensures old(supply.asked) <= supply.asked <= old(supply.asked) + 2
      ensures old(MapFile()) ==>
                supply.asked == old(supply.asked) + if inode != null && old(inode.openCnt <= 1 && inode.removed)
                                                    then 2 * MapAsks(sectorCount) else 0
      ensures inode == null ==> unchanged(this)
      ensures inode != null && old(inode.openCnt) > 1 ==>
                unchanged(this) && inode.refs == old(inode.refs) - 1 && inode.openCnt == old(inode.openCnt) - 1
                && inode.holders == old(inode.holders) && inode.removed == old(inode.removed)
                && inode.denyWriteCnt == old(inode.denyWriteCnt)
      ensures inode != null && old(inode.openCnt) <= 1 ==>
                openInodes == Without(old(openInodes), inode)
      ensures inode != null && old(inode.openCnt) <= 1 && !old(inode.removed) ==>
                unchanged(this`disk, this`freeMap, this`loose, this`owned)
      ensures inode != null && old(inode.openCnt) <= 1 && old(inode.removed) ==>
                owned == old(owned) - {inode.sector} && loose == old(loose)
                && KeepsButMap(old(disk), disk, owned)
                && Freed(old(freeMap), freeMap, inode.sector, inode.data)
    {
      hide Core, DiskOk, HeapOk, CountsOk, KeepsButMap, Freed, Leaving;
      if inode == null {
        return;
      }
      CoreParts();
      inode.openCnt := inode.openCnt - 1;
      inode.refs := inode.refs - 1;
      if inode.openCnt == 0 {
        LastReference(inode);
        OpenHere(inode);
        Unlist(inode);
        if inode.removed {
          ReleaseInode(inode);
        }
      } else {
        OnlyCounts(inode);
        PartsCore();
      }
    }

    lemma OpenHere(inode: Inode)
      requires DiskOk() && inode in openInodes
      ensures inode.sector in owned && Describes(disk, inode.sector, inode.data)
    {
    }

    // The inode has no references left and is about to leave the list.
    ghost predicate Leaving(inode: Inode)
      reads this, openInodes, handles
    {
      && DiskOk() && inode in openInodes && DistinctSectors(openInodes) && inode.holders == {}
      && (forall n :: n in openInodes ==> n.holders <= handles && (n == inode || CountsOk(n)))
      && (forall f :: f in handles ==> f.inode in openInodes && f in f.inode.holders && f.pos >= 0)
      && (freeMapFile != null ==> freeMapFile in handles && freeMapFile.inode.sector == FREE_MAP_SECTOR
                                  && !freeMapFile.inode.removed)
    }

    twostate lemma LastReference(n: Inode)
      requires old(HeapOk()) && CountChanged(n) && DiskOk() && old(n.openCnt) == |n.holders| + old(n.refs)
      requires n.openCnt == 0 && old(n.refs) == 1
      ensures Leaving(n)
    {
      hide DiskOk;
      forall m | m in openInodes
        ensures m.holders <= handles && (m == n || CountsOk(m))
      {
        assert old(m.holders) <= old(handles) && old(CountsOk(m));
        assert Deniers(m) == old(Deniers(m));
      }
    }

    method Unlist(inode: Inode)
      requires Leaving(inode)
      modifies this`openInodes
      ensures Core() && openInodes == Without(old(openInodes), inode)
      ensures forall n :: n in openInodes ==> n.sector != inode.sector
    {
      openInodes := Without(openInodes, inode);
    }

    method ReleaseInode(inode: Inode)
      requires Core() && freeMapFile != null && forall n :: n in openInodes ==> n.sector != inode.sector
      requires inode.sector in owned && Describes(disk, inode.sector, inode.data)
      modifies this`disk, this`freeMap, this`loose, this`owned, supply
      ensures Core() && owned == old(owned) - {inode.sector} && loose == old(loose)
      ensures supply.Failures() >= old(supply.Failures())
      ensures MapFile() && supply.Failures() == old(supply.Failures()) ==> MapOnDisk(disk, freeMap)
      ensures old(supply.asked) <= supply.asked <= old(supply.asked) + 2
      ensures MapFile() ==> supply.asked == old(supply.asked) + 2 * MapAsks(sectorCount)
      ensures KeepsButMap(old(disk), disk, owned)
      ensures Freed(old(freeMap), freeMap, inode.sector, inode.data)
    {
      hide Accounted, HeapOk, Freed;
      OwnedIsGood(disk, freeMap, owned, loose, inode.sector);
      Drop(inode.sector);
      TakeBack(old(loose), inode.sector, Extent(inode.data), loose);
      ReleaseSectors(inode.sector, inode.data);
    }

    // The two releases at the end of inode_close.
    method ReleaseSectors(h: nat, d: Header)
      requires Core() && freeMapFile != null
      requires 0 <= d.length && h < sectorCount && d.start + SectorsFor(d.length) <= sectorCount
      requires {h} + Extent(d) <= loose && h !in Extent(d)
      modifies this`disk, this`freeMap, this`loose, supply
      ensures Core() && loose == old(loose) - {h} - Extent(d) && supply.Failures() >= old(supply.Failures())
      ensures MapFile() && supply.Failures() == old(supply.Failures()) ==> MapOnDisk(disk, freeMap)
      ensures old(supply.asked) <= supply.asked <= old(supply.asked) + 2
      ensures MapFile() ==> supply.asked == old(supply.asked) + 2 * MapAsks(sectorCount)
      ensures KeepsButMap(old(disk), disk, owned) && Freed(old(freeMap), freeMap, h, d)
    {
      hide Core, KeepsButMap, SetBits, Freed, Bitmap.Run;
      assert Range(h, h + 1) == {h};
      FreeMapRelease(h, 1);
      ghost var mid := disk;
      FreeMapRelease(d.start, SectorsFor(d.length));
      KeepsButMapTransitive(old(disk), mid, disk, owned);
      FreedBits(old(freeMap), h, d);
    }

    ghost method Drop(h: nat)
      requires Core() && h in owned && forall n :: n in openInodes ==> n.sector != h
      modifies this`loose, this`owned
      ensures Core() && owned == old(owned) - {h} && GoodHeader(disk, h)
      ensures var lost := {h} + Extent(HeaderAt(disk, h));
              loose == old(loose) + lost && old(loose) !! lost && forall s :: s in lost ==> s < sectorCount
    {
      hide Accounted, HeapOk;
      OwnedIsGood(disk, freeMap, owned, loose, h);
      AccountDrop(disk, freeMap, owned, loose, h);
      owned, loose := owned - {h}, loose + {h} + Extent(HeaderAt(disk, h));
    }

    // ---- The root directory. ----

    // dir is the open root directory, its entries are in order, and nobody
    // denies writes to it.
    ghost predicate DirOpen(dir: Inode)
      reads this, openInodes, handles
    {
      && Core() && dir in openInodes && dir.sector == ROOT_DIR_SECTOR && dir.denyWriteCnt == 0
      && ValidDir(RootData(disk)) && Content(dir) == RootData(disk)
    }

    // Finds the first entry in use that has the given name.  A read cut short by
    // lack of memory looks like the end of the directory.
    method Lookup(dir: Inode, name: seq<byte>, e: array<byte>) returns (found: bool, k: nat)
      requires DirOpen(dir) && e.Length == 20
      modifies e, supply
      ensures NameStops(RootData(disk), name, supply.answers, old(supply.asked), k)
      ensures found <==> 20 * k + 20 <= |RootData(disk)| && Granted(supply.answers, old(supply.asked) + k)
      ensures found ==> e[..] == RootData(disk)[20 * k..20 * k + 20]
      ensures Requested(supply.answers, old(supply.asked) + k, supply.asked - old(supply.asked) - k,
                        supply.Failures() - old(supply.Failures()), 20 * k + 20 <= |RootData(disk)|)
    {
      hide Core, ValidDir, CString, NoMatchBefore, RootData;
      ghost var data := RootData(disk);
      k := 0;
      NothingSeen(data, name, supply.answers, supply.asked);
      while true
        invariant 20 * k <= |data| && NoMatchBefore(data, name, supply.answers, old(supply.asked), k)
        invariant supply.asked == old(supply.asked) + k && supply.Failures() == old(supply.Failures())
        decreases |data| - 20 * k
      {
        var n := ReadSlot(dir, e, k);
        if n != 20 {
          return false, k;
        }
        var entry := DecodeEntry(e[..]);
        if entry.inUse && CString(entry.name) == name {
          return true, k;
        }
        OneMoreSeen(data, name, supply.answers, old(supply.asked), k);
        k := k + 1;
      }
    }

    // One entry, or a short count at the end of the directory.
    method ReadSlot(dir: Inode, e: array<byte>, k: nat) returns (n: nat)
      requires DirOpen(dir) && e.Length == 20 && 20 * k <= |RootData(disk)|
      modifies e, supply
      ensures n == 20 <==> 20 * k + 20 <= |RootData(disk)| && Granted(supply.answers, old(supply.asked))
      ensures n == 20 ==> e[..] == RootData(disk)[20 * k..20 * k + 20] && DecodeEntry(e[..]) == EntryAt(RootData(disk), k)
      ensures Requested(supply.answers, old(supply.asked), supply.asked - old(supply.asked),
                        supply.Failures() - old(supply.Failures()), 20 * k + 20 <= |RootData(disk)|)
    {
      hide Accounted, HeapOk, CString, Splice;
      SlotsLeft(RootData(disk), k);
      hide ValidDir;
      SlotTransfer(|RootData(disk)|, k, Granted(supply.answers, supply.asked));
      ghost var before := e[..];
      n := ReadAt(dir, e, 20, 20 * k);
      if n == 20 {
        assert e[..] == Splice(before, 0, Sub(RootData(disk), 20 * k, 20));
        SplicedWhole(before, RootData(disk)[20 * k..20 * k + 20]);
      }
    }

    // The slot a new entry goes to: the first free one, or the end.
    method FindFreeSlot(dir: Inode, e: array<byte>) returns (k: nat)
      requires DirOpen(dir) && e.Length == 20
      modifies e, supply
      ensures FreeStops(RootData(disk), supply.answers, old(supply.asked), k)
      ensures Requested(supply.answers, old(supply.asked) + k, supply.asked - old(supply.asked) - k,
                        supply.Failures() - old(supply.Failures()), 20 * k + 20 <= |RootData(disk)|)
    {
      hide Core, ValidDir, CString, InUseBefore, RootData;
      ghost var data := RootData(disk);
      k := 0;
      NoneInUse(data, supply.answers, supply.asked);
      while true
        invariant 20 * k <= |data| && InUseBefore(data, supply.answers, old(supply.asked), k)
        invariant supply.asked == old(supply.asked) + k && supply.Failures() == old(supply.Failures())
        decreases |data| - 20 * k
      {
        var n := ReadSlot(dir, e, k);
        if n != 20 {
          return;
        }
        if !DecodeEntry(e[..]).inUse {
          return;
        }
        OneMoreInUse(data, supply.answers, old(supply.asked), k);
        k := k + 1;
      }
    }

    // Writes one entry in place: all of it or, at the end of the directory or
    // without memory, none of it.
    method WriteSlot(dir: Inode, b: seq<byte>, k: nat) returns (ok: bool)
      requires DirOpen(dir) && |b| == 20 && 20 * k <= |RootData(disk)|
      modifies this`disk, supply
      ensures Core() && Keeps(old(disk), disk, owned - {ROOT_DIR_SECTOR})
      ensures Describes(disk, ROOT_DIR_SECTOR, dir.data) && Content(dir) == RootData(disk)
      ensures ok <==> 20 * k + 20 <= |old(RootData(disk))| && Granted(supply.answers, old(supply.asked))
      ensures ok ==> RootData(disk) == Splice(old(RootData(disk)), 20 * k, b)
      ensures !ok ==> disk == old(disk)
      ensures Requested(supply.answers, old(supply.asked), supply.asked - old(supply.asked),
                        supply.Failures() - old(supply.Failures()), 20 * k + 20 <= |old(RootData(disk))|)
    {
      hide Accounted, HeapOk, Splice;
      SlotsLeft(RootData(disk), k);
      hide ValidDir;
      SlotTransfer(|RootData(disk)|, k, Granted(supply.answers, supply.asked));
      var n := WriteAt(dir, b, 20, 20 * k);
      ok := n == 20;
      assert b[..20] == b;
    }

    // Adds an entry for a file whose header is in inodeSector.
    method DirAdd(dir: Inode, name: seq<byte>, inodeSector: nat)
      returns (success: bool, ghost seen: nat, ghost slot: nat)
      requires DirOpen(dir) && 0 !in name
      requires 2 <= inodeSector < sectorCount && !Named(RootData(disk), inodeSector)
      modifies this`disk, supply
      ensures DirOpen(dir) && Keeps(old(disk), disk, owned - {ROOT_DIR_SECTOR})
      ensures !success ==> disk == old(disk)
      ensures success ==> NameOk(name) && Entered(old(RootData(disk)), RootData(disk), slot, name, inodeSector)
      ensures AddOutcome(old(RootData(disk)), name, supply.answers, old(supply.asked), seen, slot, success)
      ensures supply.Failures() >= old(supply.Failures())
      ensures supply.Failures() == old(supply.Failures()) ==> (success <==> !Refused(old(RootData(disk)), name))
      ensures Asks(old(supply.asked), supply.asked, supply.Failures() - old(supply.Failures()),
                   AddAsks(old(RootData(disk)), name), 2 * SlotCount(old(RootData(disk))) + 1)
      ensures supply.Failures() == old(supply.Failures()) && success ==> NewName(old(RootData(disk)), slot, name)
    {
      hide Accounted, HeapOk, CString, Entered, ValidDir, Describes, Requested, NameStops, FreeStops, Refused, NewName,
        AddOutcome, RootData, HasName, Asks, AddAsks, SlotCount, Requests;
      KeepsRefl(disk, freeMap, owned, loose);
      seen, slot := 0, 0;
      if name == [] || |name| > NAME_MAX {
        BadName(RootData(disk), name, supply.answers, supply.asked, seen, slot);
        NoneAsked(RootData(disk), name, supply.asked);
        return false, seen, slot;
      }
      ghost var data, a, f0 := RootData(disk), supply.asked, supply.Failures();
      var e := new byte[20];
      var found, at := Lookup(dir, name, e);
      seen := at;
      Asked(data, supply.answers, a, supply.asked, supply.Failures() - f0, seen);
      if found {
        TakenName(data, name, supply.answers, a, seen, slot);
        TakenCount(data, name, supply.answers, a, seen, supply.Failures() - f0);
        return false, seen, slot;
      }
      ghost var f1 := supply.Failures();
      var k := FindFreeSlot(dir, e);
      slot := k;
      Asked(data, supply.answers, a + Requests(data, seen), supply.asked, supply.Failures() - f1, slot);
      SlotPlace(data, supply.answers, a + Requests(data, seen), slot);
      ghost var f2 := supply.Failures();
      success := EnterAt(dir, e, k, name, inodeSector);
      RequestCount(supply.answers, a + Requests(data, seen) + Requests(data, slot),
                   supply.asked - (a + Requests(data, seen) + Requests(data, slot)), supply.Failures() - f2,
                   20 * slot + 20 <= |data|);
      AddedExactly(data, name, supply.answers, a, seen, slot, success, f1 - f0, f2 - f1,
                   supply.Failures() - f2, supply.asked - (a + Requests(data, seen) + Requests(data, slot)));
      AddedCount(data, name, supply.answers, a, seen, slot, f1 - f0, f2 - f1, supply.Failures() - f2);
    }

    // "Write slot."
    method EnterAt(dir: Inode, e: array<byte>, k: nat, name: seq<byte>, inodeSector: nat) returns (success: bool)
      requires DirOpen(dir) && 0 !in name && |name| <= NAME_MAX && e.Length == 20 && 20 * k <= |RootData(disk)|
      requires 2 <= inodeSector < sectorCount && !Named(RootData(disk), inodeSector)
      modifies this`disk, e, supply
      ensures DirOpen(dir) && Keeps(old(disk), disk, owned - {ROOT_DIR_SECTOR})
      ensures !success ==> disk == old(disk)
      ensures success ==> Entered(old(RootData(disk)), RootData(disk), k, name, inodeSector)
      ensures success <==> 20 * k + 20 <= |old(RootData(disk))| && Granted(supply.answers, old(supply.asked))
      ensures Requested(supply.answers, old(supply.asked), supply.asked - old(supply.asked),
                        supply.Failures() - old(supply.Failures()), 20 * k + 20 <= |old(RootData(disk))|)
    {
      hide Accounted, HeapOk, CString, Keeps, Requested, RootData, EntryAt, DecodeEntry;
      FillEntry(e, name, inodeSector);
      success := WriteSlot(dir, e[..], k);
      if success {
        EnterEntry(old(RootData(disk)), k, e[..], name, inodeSector);
        hide Entered;
        EnteredValid(old(RootData(disk)), RootData(disk), k, name, inodeSector);
      }
    }

    // ---- Whole file system. ----

    // The mounted file system: every file that the directory names is accounted
    // for, and a removed file that is still open is named nowhere.
    ghost predicate Valid()
      reads this, openInodes, handles
    {
      && Core() && freeMapFile != null && ROOT_DIR_SECTOR in owned && UserHandles()
      && ValidDir(RootData(disk)) && DirOwned() && RemovedUnnamed()
    }

    // Only the kernel has a handle on a system file: one on the free map file,
    // which is as long as the map and never denies writes.
    ghost predicate UserHandles()
      reads this`handles, this`freeMapFile, (if freeMapFile != null then {freeMapFile} else {})`denyWrite
    {
      && freeMapFile != null && !freeMapFile.denyWrite && freeMapFile.inode.data.length == Bitmap.FileSize(sectorCount)
      && forall f :: f in handles && f != freeMapFile ==> f.inode.sector >= 2
    }

    // So nobody denies writes to one.
    lemma SystemInodes(n: Inode)
      requires Core() && UserHandles() && n in openInodes && n.sector < 2
      ensures n.denyWriteCnt == 0
    {
      assert CountsOk(n) && n.holders <= handles;
      assert Deniers(n) == {};
    }

    lemma OwnMapFile()
      requires Core() && UserHandles() && freeMapFile != null
      ensures MapFile()
    {
      MapIsFile();
      SystemInodes(freeMapFile.inode);
    }

    lemma ValidMapFile()
      requires Valid()
      ensures Core() && MapFile()
    {
      OwnMapFile();
    }

    ghost function RemovedInodes(): set<Inode>
      reads this`openInodes, openInodes`removed
    {
      set n | n in openInodes && n.removed
    }

    ghost predicate DirOwned()
      reads this`disk, this`owned
    {
      forall s: nat :: Named(RootData(disk), s) ==> s in owned
    }

    ghost predicate RemovedUnnamed()
      reads this`disk, this`openInodes, openInodes`removed
    {
      forall n :: n in openInodes && n.removed ==> n.sector >= 2 && !Named(RootData(disk), n.sector)
    }

    // The files there are: named in the directory or still open.
    ghost predicate Live(h: nat)
      reads this, openInodes
    {
      Named(RootData(disk), h) || exists n :: n in openInodes && n.sector == h
    }

    // A live file's header and data are marked, and no other live file has any
    // of them.
    lemma LiveFilesApart(h: nat, k: nat)
      requires Valid() && Live(h) && Live(k)
      ensures GoodHeader(disk, h) && GoodHeader(disk, k)
      ensures forall s :: s in SectorsOf(disk, h) ==> s < |freeMap| && freeMap[s] && s !in loose
      ensures h != k ==> SectorsOf(disk, h) !! SectorsOf(disk, k)
    {
      hide ValidDir, HeapOk, RootData;
      assert h in owned && k in owned;
      assert Marked(disk, freeMap, h);
      forall s: nat
        ensures s in SectorsOf(disk, h) <==> Owns(disk, h, s)
        ensures s in SectorsOf(disk, k) <==> Owns(disk, k, s)
      {
      }
      if h != k {
        assert Disjoint(disk, h, k);
      }
    }

    ghost predicate DirValid(dir: Inode)
      reads this, openInodes, handles
    {
      Valid() && dir in openInodes && dir.sector == ROOT_DIR_SECTOR
    }

    lemma DirValidIsOpen(dir: Inode)
      requires DirValid(dir)
      ensures DirOpen(dir) && Valid() && dir in openInodes && dir.sector == 1 && Core()
    {
      SystemInodes(dir);
    }

    lemma NothingChanged()
      requires Core()
      ensures KeepsFiles(disk, disk, owned)
    {
      KeepsRefl(disk, freeMap, owned, loose);
    }

    // free_map_allocate for one header.
    method AllocateHeader() returns (ok: bool, sector: nat)
      requires Valid()
      modifies this`disk, this`freeMap, this`loose, supply
      ensures Valid() && RootData(disk) == old(RootData(disk)) && KeepsFiles(old(disk), disk, owned)
      ensures supply.Failures() >= old(supply.Failures())
      ensures SyncStep(old(disk), old(freeMap), disk, freeMap, supply.Failures() - old(supply.Failures()))
      ensures supply.asked == old(supply.asked) + if HasRun(old(freeMap), 1) then MapAsks(sectorCount) else 0
      ensures ok ==> 2 <= sector < sectorCount && sector !in owned
      ensures ok ==> sector !in old(loose) && loose == old(loose) + {sector}
      ensures ok ==> RunTaken(old(freeMap), freeMap, sector, 1)
      ensures !ok ==> loose == old(loose) && freeMap == old(freeMap)
      ensures !ok && supply.Failures() == old(supply.Failures()) ==> forall j: nat :: !Bitmap.Run(old(freeMap), j, 1, false)
    {
      hide *;
      ValidMapFile();
      SystemOwned();
      NamesNow();
      ghost var data, d0, used, l := RootData(disk), disk, freeMap, loose;
      ok, sector := FreeMapAllocate(1);
      RootKept(d0, disk, owned);
      KeptButSystem(d0, disk, owned);
      if ok { FreeSector(d0, used, freeMap, owned, l, sector); }
      StillValid(data);
    }

    lemma SystemOwned()
      requires Valid()
      ensures 0 in owned && |freeMap| == sectorCount && Accounted(disk, freeMap, owned, loose)
    {
      MapIsFile();
    }

    method MakeInode(sector: nat, length: int) returns (ok: bool)
      requires Valid() && sector in loose && 0 <= length < 0x8000_0000
      modifies this`disk, this`freeMap, this`loose, this`owned, supply
      ensures Valid() && RootData(disk) == old(RootData(disk)) && KeepsFiles(old(disk), disk, old(owned))
      ensures supply.Failures() >= old(supply.Failures())
      ensures ok ==> MapOnDisk(disk, freeMap)
      ensures SyncStep(old(disk), old(freeMap), disk, freeMap, supply.Failures() - old(supply.Failures()))
      ensures Asks(old(supply.asked), supply.asked, supply.Failures() - old(supply.Failures()),
                   1 + if HasRun(old(freeMap), SectorsFor(length)) then MapAsks(sectorCount) else 0, 2)
      ensures !ok ==> loose == old(loose) && owned == old(owned) && freeMap == old(freeMap)
      ensures !ok && supply.Failures() == old(supply.Failures()) ==> !HasRun(old(freeMap), SectorsFor(length))
      ensures ok ==> sector !in old(owned) && owned == old(owned) + {sector} && loose == old(loose) - {sector}
      ensures ok ==> GoodHeader(disk, sector) && FreshFile(disk, sector, length)
      ensures ok ==> ExtentTaken(old(freeMap), freeMap, HeaderAt(disk, sector))
      ensures ok ==> HeaderAt(disk, sector).length == length && Extent(HeaderAt(disk, sector)) !! old(loose)
      ensures ok ==> !Named(RootData(disk), sector) && forall n :: n in openInodes ==> n.sector != sector
    {
      hide *;
      ValidMapFile();
      NamesNow();
      ghost var data, hs := RootData(disk), owned;
      NotOwned(sector, data);
      ok := InodeCreate(sector, length);
      RootKept(old(disk), disk, hs);
      KeptButSystem(old(disk), disk, hs);
      if !ok { NoRunIs(freeMap, SectorsFor(length)); }
      NamedInMore(data, hs);
      StillValid(data);
    }

    lemma NotOwned(sector: nat, data: seq<byte>)
      requires Valid() && sector in loose && data == RootData(disk)
      ensures sector !in owned && !Named(data, sector) && DirIn(data, owned) && RemovedApart(data)
    {
      if sector in owned { OwnedIsMarked(disk, freeMap, owned, loose, sector); }
    }

    // One more owner does not concern the names.
    lemma NamedInMore(data: seq<byte>, hs: set<nat>)
      requires DirIn(data, hs) && hs <= owned && RemovedApart(data)
      ensures NamedIn(data)
    {
      hide Named;
    }

    // dir_add for a header that has just been made.
    method AddName(dir: Inode, name: seq<byte>, sector: nat) returns (success: bool, ghost slot: nat)
      requires DirValid(dir) && 0 !in name
      requires 2 <= sector && sector in owned && !Named(RootData(disk), sector)
      requires forall n :: n in openInodes ==> n.sector != sector
      modifies this`disk, supply
      ensures DirValid(dir) && KeepsFiles(old(disk), disk, owned) && supply.Failures() >= old(supply.Failures())
      ensures old(MapOnDisk(disk, freeMap)) ==> MapOnDisk(disk, freeMap)
      ensures SyncStep(old(disk), old(freeMap), disk, freeMap, supply.Failures() - old(supply.Failures()))
      ensures Asks(old(supply.asked), supply.asked, supply.Failures() - old(supply.Failures()),
                   AddAsks(old(RootData(disk)), name), 2 * SlotCount(old(RootData(disk))) + 1)
      ensures !success ==> disk == old(disk)
      ensures success ==> NameOk(name) && Entered(old(RootData(disk)), RootData(disk), slot, name, sector)
      ensures supply.Failures() == old(supply.Failures()) ==>
                && (success <==> !Refused(old(RootData(disk)), name))
                && (success ==> NewName(old(RootData(disk)), slot, name))
    {
      hide *;
      DirValidIsOpen(dir);
      SystemOwned();
      NamesNow();
      OwnedOnDevice(sector);
      ghost var seen, data := 0, RootData(disk);
      success, seen, slot := DirAdd(dir, name, sector);
      KeepsRootless(old(disk), disk, owned);
      MapKept(old(disk), disk, owned - {ROOT_DIR_SECTOR}, freeMap, supply.Failures() - old(supply.Failures()));
      if MapOnDisk(old(disk), freeMap) { MapStays(old(disk), disk, owned - {ROOT_DIR_SECTOR}, freeMap); }
      StillNamed(dir, data, name, sector, slot, success);
    }

    // What Valid says of the names in a directory with these bytes.
    ghost predicate NamedIn(data: seq<byte>)
      reads this`owned, this`openInodes, openInodes`removed
    {
      DirIn(data, owned) && RemovedApart(data)
    }

    ghost predicate RemovedApart(data: seq<byte>)
      reads this`openInodes, openInodes`removed
    {
      forall n :: n in openInodes && n.removed ==> n.sector >= 2 && !Named(data, n.sector)
    }

    lemma StillNamed(dir: Inode, data: seq<byte>, name: seq<byte>, sector: nat, slot: nat, success: bool)
      requires DirOpen(dir) && NamedIn(data) && freeMapFile != null && UserHandles() && ROOT_DIR_SECTOR in owned && ValidDir(data)
      requires 2 <= sector && sector in owned && !Named(data, sector)
      requires forall n :: n in openInodes ==> n.sector != sector
      requires if success then Entered(data, RootData(disk), slot, name, sector) else RootData(disk) == data
      ensures DirValid(dir)
    {
      hide Core, UserHandles, Entered, Content, RootData, ValidDir, Named;
      if success {
        EnteredValid(data, RootData(disk), slot, name, sector);
      }
    }

    lemma OwnedOnDevice(sector: nat)
      requires Core() && sector in owned
      ensures sector < sectorCount
    {
      OwnedIsMarked(disk, freeMap, owned, loose, sector);
    }

    // Gives up an inode that has no name: its sectors are loose again.
    ghost method Forget(sector: nat)
      requires Valid() && 2 <= sector && sector in owned && !Named(RootData(disk), sector)
      requires forall n :: n in openInodes ==> n.sector != sector
      modifies this`loose, this`owned
      ensures Valid() && owned == old(owned) - {sector} && GoodHeader(disk, sector)
      ensures loose == old(loose) + {sector} + Extent(HeaderAt(disk, sector))
      ensures sector !in old(loose) && sector !in Extent(HeaderAt(disk, sector))
      ensures sector < sectorCount
    {
      hide HeapOk, ValidDir;
      Drop(sector);
    }

    method ReleaseHeader(sector: nat)
      requires Valid() && sector in loose && sector < sectorCount
      modifies this`disk, this`freeMap, this`loose, supply
      ensures Valid() && RootData(disk) == old(RootData(disk)) && KeepsFiles(old(disk), disk, owned)
      ensures supply.Failures() >= old(supply.Failures())
      ensures SyncStep(old(disk), old(freeMap), disk, freeMap, supply.Failures() - old(supply.Failures()))
      ensures supply.asked == old(supply.asked) + MapAsks(sectorCount)
      ensures loose == old(loose) - {sector}
      ensures sector < |old(freeMap)| && freeMap == SetBits(old(freeMap), sector, sector + 1, false)
    {
      ValidMapFile();
      hide Accounted, HeapOk, ValidDir;
      assert Range(sector, sector + 1) == {sector};
      FreeMapRelease(sector, 1);
      RootKept(old(disk), disk, owned);
    }

    // inode_create and dir_add; on failure the header sector is loose again,
    // and so is the extent d that inode_create has allocated, if leaked.
    method Populate(dir: Inode, name: seq<byte>, initialSize: int, sector: nat)
      returns (success: bool, ghost slot: nat, ghost d: Header, ghost leaked: bool)
      requires DirValid(dir) && 0 !in name && 0 <= initialSize < 0x8000_0000
      requires sector in loose && 2 <= sector < sectorCount && sector !in owned
      modifies this`disk, this`freeMap, this`loose, this`owned, supply
      ensures Valid() && KeepsFiles(old(disk), disk, old(owned)) && supply.Failures() >= old(supply.Failures())
      ensures success ==> MapOnDisk(disk, freeMap)
      ensures SyncStep(old(disk), old(freeMap), disk, freeMap, supply.Failures() - old(supply.Failures()))
      ensures Asks(old(supply.asked), supply.asked, supply.Failures() - old(supply.Failures()),
                   1 + if HasRun(old(freeMap), SectorsFor(initialSize))
                       then MapAsks(sectorCount) + AddAsks(old(RootData(disk)), name) else 0,
                   2 * SlotCount(old(RootData(disk))) + 3)
      ensures success || leaked ==> d.length == initialSize && ExtentTaken(old(freeMap), freeMap, d)
      ensures success ==> !leaked && owned == old(owned) + {sector} && loose == old(loose) - {sector}
      ensures success ==> Entered(old(RootData(disk)), RootData(disk), slot, name, sector) && NameOk(name)
      ensures success ==> GoodHeader(disk, sector) && FreshFile(disk, sector, initialSize) && HeaderAt(disk, sector) == d
      ensures !success ==> owned == old(owned) && RootData(disk) == old(RootData(disk))
      ensures !success && !leaked ==> loose == old(loose) && freeMap == old(freeMap)
      ensures !success && leaked ==> loose == old(loose) + Extent(d) && old(loose) !! Extent(d)
      ensures supply.Failures() == old(supply.Failures()) ==>
                && (success <==> HasRun(old(freeMap), SectorsFor(initialSize)) && !Refused(old(RootData(disk)), name))
                && (leaked <==> HasRun(old(freeMap), SectorsFor(initialSize)) && Refused(old(RootData(disk)), name))
                && (success ==> NewName(old(RootData(disk)), slot, name))
    {
      hide Core, ValidDir, DirOwned, RemovedUnnamed, Named, Entered, NewName, FreshFile, KeepsFiles, Refused, HasRun,
        UserHandles, AddAsks, MapAsks, SlotCount, MapOnDisk, RootData, NameOk;
      slot, d, leaked := 0, Header(0, 0), false;
      success := MakeInode(sector, initialSize);
      if success {
        ghost var mid := disk;
        d := HeaderAt(disk, sector);
        TakenHasRun(old(freeMap), freeMap, d);
        success, slot := AddName(dir, name, sector);
        if success {
          KeepsFilesTransitive(old(disk), mid, disk, old(owned), owned, old(owned));
          KeptFresh(mid, disk, owned, sector, initialSize);
        } else {
          leaked := true;
          Forget(sector);
          PutBack(old(loose), sector, Extent(d));
        }
      }
    }

    // The part of filesys_create between opening and closing the directory.
    // When the entry is refused only the header is given back: the extent of
    // the file stays marked although no inode owns it.
    method CreateIn(dir: Inode?, name: seq<byte>, initialSize: int)
      returns (success: bool, ghost made: nat, ghost slot: nat, ghost d: Header, ghost leaked: bool)
      requires Valid() && 0 !in name && 0 <= initialSize < 0x8000_0000
      requires dir != null ==> DirValid(dir)
      modifies this`disk, this`freeMap, this`loose, this`owned, supply
      ensures Valid() && KeepsFiles(old(disk), disk, old(owned)) && supply.Failures() >= old(supply.Failures())
      ensures success ==> MapOnDisk(disk, freeMap)
      ensures SyncStep(old(disk), old(freeMap), disk, freeMap, supply.Failures() - old(supply.Failures()))
      ensures dir != null ==> Asks(old(supply.asked), supply.asked, supply.Failures() - old(supply.Failures()),
                                   CreateAsks(old(freeMap), old(RootData(disk)), name, initialSize, MapAsks(sectorCount)),
                   2 * SlotCount(old(RootData(disk))) + 5)
      ensures dir == null ==> supply.asked == old(supply.asked)
      ensures success || leaked ==> d.length == initialSize && Placed(old(freeMap), made, d)
      ensures success ==> !leaked && made !in old(owned) && owned == old(owned) + {made} && loose == old(loose)
      ensures success ==> MarkedBy(old(freeMap), freeMap, made, d)
      ensures success ==> Entered(old(RootData(disk)), RootData(disk), slot, name, made) && NameOk(name)
      ensures success ==> GoodHeader(disk, made) && FreshFile(disk, made, initialSize) && HeaderAt(disk, made) == d
      ensures !success ==> owned == old(owned) && RootData(disk) == old(RootData(disk))
      ensures !success && !leaked ==> loose == old(loose) && freeMap == old(freeMap)
      ensures leaked ==> loose == old(loose) + Extent(d) && old(loose) !! Extent(d)
      ensures leaked ==> LeakedBy(old(freeMap), freeMap, d)
      ensures dir != null && supply.Failures() == old(supply.Failures()) ==>
                && (success <==> Room(old(freeMap), initialSize) && !Refused(old(RootData(disk)), name))
                && (leaked <==> Room(old(freeMap), initialSize) && Refused(old(RootData(disk)), name))
                && (success ==> NewName(old(RootData(disk)), slot, name))
      ensures dir == null ==> !success && !leaked
    {
      hide Core, ValidDir, DirOwned, RemovedUnnamed, Named, Entered, NewName, FreshFile, KeepsFiles, Refused, HasRun,
        UserHandles, Room, Placed, ExtentTaken, SetBits, Bitmap.FirstRun, Bitmap.Run, MarkedBy, LeakedBy, AddAsks,
        SlotCount, MapAsks, NameOk, GoodHeader, Extent;
      success, made, slot, d, leaked := dir != null, 0, 0, Header(0, 0), false;
      NothingChanged();
      var inodeSector := 0;
      if success {
        var sector: nat;
        success, sector := AllocateHeader();
        if success {
          inodeSector := sector;
          TakenRun(old(freeMap), freeMap, sector);
        } else {
          NoRunIs(old(freeMap), 1);
          NoHeader(old(freeMap), initialSize);
        }
      }
      if success {
        RoomAfter(old(freeMap), inodeSector, initialSize);
        ghost var mid := disk;
        success, slot, d, leaked := Populate(dir, name, initialSize, inodeSector);
        KeepsFilesTransitive(old(disk), mid, disk, old(owned), old(owned), old(owned));
        made := inodeSector;
        MapAfter(old(freeMap), freeMap, made, d, success, leaked);
      }
      if !success && inodeSector != 0 {
        ghost var mid := disk;
        ReleaseHeader(inodeSector);
        KeepsFilesTransitive(old(disk), mid, disk, owned, owned, owned);
      }
    }

    // Apart from what handles hold, exactly dir and inode are referenced, once
    // each; either may be absent.
    ghost predicate Refs(dir: Inode?, inode: Inode?)
      reads this`openInodes, openInodes`refs
    {
      && (dir != null ==> dir in openInodes && dir != inode)
      && (inode != null ==> inode in openInodes)
      && (forall n :: n in openInodes ==> n.refs == if n == dir || n == inode then 1 else 0)
    }

    lemma RefsSymmetric(a: Inode?, b: Inode?)
      requires Refs(a, b)
      ensures Refs(b, a)
    {
    }

    // The inode has no reference but the one just taken exactly if it was not
    // among those that were open, and then no other one was for its sector.
    ghost predicate Newcomer(inode: Inode, before: seq<Inode>)
      reads inode`openCnt
    {
      && (inode.openCnt <= 1 <==> inode !in before)
      && (inode !in before ==> forall n :: n in before ==> n.sector != inode.sector)
    }

    // inode_open inside an operation that already holds dir, if anything.
    method Acquire(sector: nat, ghost dir: Inode?) returns (inode: Inode?)
      requires Valid() && Refs(dir, null) && sector in owned
      requires dir != null ==> dir.sector != sector
      requires forall n :: n in openInodes && n.sector == sector ==> !n.removed
      modifies this`openInodes, Inodes(), supply
      ensures Valid() && Refs(dir, inode) && RemovedInodes() == old(RemovedInodes())
      ensures supply.Failures() == old(supply.Failures()) + if inode == null then 1 else 0
      ensures supply.asked == old(supply.asked) + if inode != null && inode in old(openInodes) then 0 else 1
      ensures inode == null ==> openInodes == old(openInodes)
      ensures inode != null ==> inode in openInodes && inode.sector == sector && !inode.removed
      ensures inode != null ==> Newcomer(inode, old(openInodes))
      ensures inode != null ==> inode in old(openInodes) || fresh(inode)
      ensures forall n :: n in old(openInodes) ==> n in openInodes
      ensures forall n :: n in openInodes ==> n in old(openInodes) || (n == inode && fresh(n))
    {
      hide Core, ValidDir, DirOwned, Named, UserHandles;
      inode := InodeOpen(sector);
    }

    // inode_close inside an operation; the last reference to a removed inode
    // frees its sectors.
    method Relinquish(inode: Inode, ghost dir: Inode?)
      requires Valid() && Refs(dir, inode)
      modifies this`disk, this`freeMap, this`loose, this`owned, this`openInodes, inode, supply
      ensures Valid() && Refs(dir, null) && RootData(disk) == old(RootData(disk)) && loose == old(loose)
      ensures KeepsFiles(old(disk), disk, owned) && supply.Failures() >= old(supply.Failures())
      ensures SyncStep(old(disk), old(freeMap), disk, freeMap, supply.Failures() - old(supply.Failures()))
      ensures supply.asked == old(supply.asked) + if old(inode.openCnt <= 1 && inode.removed) then 2 * MapAsks(sectorCount)
                                                  else 0
      ensures forall n :: n in old(openInodes) && n != inode ==> n in openInodes
      ensures forall n :: n in openInodes ==> n in old(openInodes)
      ensures old(inode.openCnt) > 1 ==> inode in openInodes && inode.removed == old(inode.removed)
      ensures old(inode.openCnt) <= 1 ==> inode !in openInodes
      ensures RemovedInodes() == old(RemovedInodes()) - if old(inode.openCnt) <= 1 then {inode} else {}
      ensures old(inode.openCnt) > 1 || !old(inode.removed) ==> unchanged(this`disk, this`freeMap, this`owned)
      ensures old(inode.openCnt) <= 1 && old(inode.removed) ==>
                owned == old(owned) - {inode.sector} && Freed(old(freeMap), freeMap, inode.sector, inode.data)
    {
      hide Core, ValidDir, Freed, KeepsFiles, KeepsButMap, UserHandles, Named, RootData, MapOnDisk, MapAsks, MapData,
        Keeps;
      NothingChanged();
      ValidMapFile();
      ghost var frees := inode.openCnt <= 1 && inode.removed;
      InodeClose(inode);
      if frees {
        RootKept(old(disk), disk, owned);
        KeptButSystem(old(disk), disk, owned);
      }
    }

    // Between calls no handle and so no inode is open on the root directory.
    lemma RootClosed()
      requires Valid() && Refs(null, null)
      ensures forall n :: n in openInodes ==> n.sector != ROOT_DIR_SECTOR
    {
      hide DiskOk, ValidDir, DirOwned, RemovedUnnamed, RootData;
      forall n | n in openInodes
        ensures n.sector != ROOT_DIR_SECTOR
      {
        assert CountsOk(n) && n.holders <= handles;
        var f :| f in n.holders;
      }
    }

    // dir_open_root and dir_close.
    method DirOpenRoot() returns (dir: Inode?)
      requires Valid() && Refs(null, null)
      modifies this`disk, this`freeMap, this`loose, this`owned, this`openInodes, Inodes(), supply
      ensures Valid() && Refs(dir, null) && unchanged(this`disk, this`freeMap, this`loose, this`owned)
      ensures RemovedInodes() == old(RemovedInodes())
      ensures if dir == null then supply.Failures() > old(supply.Failures()) else supply.Failures() == old(supply.Failures())
      ensures supply.asked == old(supply.asked) + 2
      ensures dir != null ==> DirValid(dir) && (dir in old(openInodes) || fresh(dir))
      ensures forall n :: n in old(openInodes) ==> n in openInodes
      ensures forall n :: n in openInodes ==> n in old(openInodes) || (n == dir && fresh(n))
    {
      hide Core, ValidDir, DirOwned, Named, UserHandles;
      RootClosed();
      dir := Acquire(ROOT_DIR_SECTOR, null);
      var memory := supply.Allocate();
      if dir != null && !memory {
        Relinquish(dir, null);
        dir := null;
      }
    }

    // Every handle that was open and still is reads the same bytes, whether or
    // not its file has been removed meanwhile.
    twostate predicate HandlesKeepData()
      reads this
    {
      forall f :: f in handles && f in old(handles) && f.inode.sector >= 2 ==>
        Fits(disk, f.inode.data) && Fits(old(disk), f.inode.data)
        && Content(f.inode) == old(Content(f.inode))
    }

    twostate lemma DataKept(hs: set<nat>)
      requires old(Core()) && Core() && KeepsFiles(old(disk), disk, hs)
      requires hs == old(owned) || hs == owned
      ensures HandlesKeepData()
    {
      forall f | f in handles && f in old(handles) && f.inode.sector >= 2
        ensures Fits(disk, f.inode.data) && Fits(old(disk), f.inode.data)
        ensures Content(f.inode) == old(Content(f.inode))
      {
        assert f.inode in openInodes && f.inode in old(openInodes);
        assert KeepsInode(old(disk), disk, f.inode.sector);
      }
    }

    // filesys_create.
    method Create(name: seq<byte>, initialSize: int)
      returns (success: bool, ghost made: nat, ghost slot: nat, ghost d: Header, ghost leaked: bool)
      requires Valid() && Refs(null, null) && 0 !in name && 0 <= initialSize < 0x8000_0000
      modifies this`disk, this`freeMap, this`loose, this`owned, this`openInodes, Inodes(), supply
      ensures Valid() && Refs(null, null) && KeepsFiles(old(disk), disk, old(owned))
      ensures RemovedInodes() == old(RemovedInodes()) && supply.Failures() >= old(supply.Failures())
      ensures success ==> MapOnDisk(disk, freeMap)
      ensures SyncStep(old(disk), old(freeMap), disk, freeMap, supply.Failures() - old(supply.Failures()))
      ensures Asks(old(supply.asked), supply.asked, supply.Failures() - old(supply.Failures()),
                   2 + CreateAsks(old(freeMap), old(RootData(disk)), name, initialSize, MapAsks(sectorCount)),
                   2 * SlotCount(old(RootData(disk))) + 7)
      ensures forall n :: n in Inodes() ==> n in old(Inodes()) || fresh(n)
      ensures HandlesKeepData()
      ensures success || leaked ==> d.length == initialSize && Placed(old(freeMap), made, d)
      ensures success ==> !leaked && made !in old(owned) && owned == old(owned) + {made} && loose == old(loose)
      ensures success ==> MarkedBy(old(freeMap), freeMap, made, d)
      ensures success ==> Entered(old(RootData(disk)), RootData(disk), slot, name, made) && NameOk(name)
      ensures success ==> GoodHeader(disk, made) && FreshFile(disk, made, initialSize) && HeaderAt(disk, made) == d
      ensures !success ==> owned == old(owned) && RootData(disk) == old(RootData(disk))
      ensures !success && !leaked ==> loose == old(loose) && freeMap == old(freeMap)
      ensures leaked ==> loose == old(loose) + Extent(d) && old(loose) !! Extent(d)
      ensures leaked ==> LeakedBy(old(freeMap), freeMap, d)
      ensures supply.Failures() == old(supply.Failures()) ==>
                && (success <==> Room(old(freeMap), initialSize) && !Refused(old(RootData(disk)), name))
                && (leaked <==> Room(old(freeMap), initialSize) && Refused(old(RootData(disk)), name))
                && (success ==> NewName(old(RootData(disk)), slot, name))
    {
      hide Core, ValidDir, DirOwned, Named, Entered, NewName, FreshFile, UserHandles, Placed, MarkedBy, LeakedBy, Room,
        Refused, GoodHeader, Extent, RootData;
      var dir := DirOpenRoot();
      success, made, slot, d, leaked := CreateIn(dir, name, initialSize);
      RootNotRemoved(dir);
      if dir != null {
        Relinquish(dir, null);
      }
      DataKept(old(owned));
    }

    lemma RootNotRemoved(dir: Inode?)
      requires Valid() && (dir != null ==> DirValid(dir))
      ensures dir != null ==> !dir.removed && dir !in RemovedInodes()
    {
    }

    // dir_remove: the entry is erased at once, the file when nobody has it open.
    method RemoveIn(dir: Inode, name: seq<byte>) returns (success: bool, ghost slot: nat, ghost inode: Inode?)
      requires DirValid(dir) && Refs(dir, null)
      modifies this`disk, this`freeMap, this`loose, this`owned, this`openInodes, Inodes(), supply
      ensures DirValid(dir) && Refs(dir, null) && loose == old(loose) && inode != dir
      ensures KeepsFiles(old(disk), disk, owned) && supply.Failures() >= old(supply.Failures())
      ensures !success ==> disk == old(disk)
      ensures success && inode in old(openInodes) ==> MapData(disk) == old(MapData(disk))
      ensures SyncStep(old(disk), old(freeMap), disk, freeMap, supply.Failures() - old(supply.Failures()))
      ensures Asks(old(supply.asked), supply.asked, supply.Failures() - old(supply.Failures()),
                   NameAsks(old(RootData(disk)), name, 0)
                     + if success then (if inode in old(openInodes) then 1 else 2 + 2 * MapAsks(sectorCount)) else 0,
                   SlotCount(old(RootData(disk))) + 4)
      ensures !success ==> owned == old(owned) && freeMap == old(freeMap) && RootData(disk) == old(RootData(disk))
      ensures !success ==> RemovedInodes() == old(RemovedInodes())
      ensures supply.Failures() == old(supply.Failures()) ==> (success <==> HasName(old(RootData(disk)), name))
      ensures success ==> FirstMatch(old(RootData(disk)), slot, name)
      ensures success ==> Erased(old(RootData(disk)), RootData(disk), slot)
      ensures success ==> inode != null && Names(old(RootData(disk)), slot, inode.sector)
      ensures success && inode in old(openInodes) ==>
                inode in openInodes && owned == old(owned) && freeMap == old(freeMap)
                && RemovedInodes() == old(RemovedInodes()) + {inode}
      ensures success && inode !in old(openInodes) ==>
                owned == old(owned) - {inode.sector} && Freed(old(freeMap), freeMap, inode.sector, inode.data)
                && Describes(old(disk), inode.sector, inode.data) && RemovedInodes() == old(RemovedInodes())
      ensures success && inode !in old(openInodes) ==> forall n :: n in old(openInodes) ==> n.sector != inode.sector
      ensures forall n :: n in old(openInodes) ==> n in openInodes
      ensures forall n :: n in openInodes ==> n in old(openInodes) || fresh(n)
    {
      hide Core, HeapOk, ValidDir, DirOwned, RemovedUnnamed, Refs, Freed, Erased, Matches, RootData, KeepsFiles, HasName,
        UserHandles, Names, GoodHeader, HeaderAt, Asks, NameAsks, SlotCount, SyncStep, MapOnDisk, MapAsks, MapData, Named,
        FirstMatch, Describes;
      slot, inode := 0, null;
      NothingChanged();
      var e := new byte[20];
      ghost var data, a, f := RootData(disk), supply.asked, supply.Failures();
      var node, k := OpenNamed(dir, name, e);
      ghost var b, g, first := supply.asked, supply.Failures(),
        NameAsks(data, name, 0) + if node != null && node !in old(openInodes) then 1 else 0;
      SyncSame(disk, freeMap, g - f);
      if node == null {
        AsksFurther(a, b, b, g - f, 0, first, first, SlotCount(data) + 1, SlotCount(data) + 4);
        return false, slot, inode;
      }
      slot, inode := k, node;
      success := RemoveFound(dir, name, e, k, node);
      SyncTwice(old(disk), old(freeMap), old(disk), old(freeMap), disk, freeMap, g - f, supply.Failures() - g);
      AsksFurther(a, b, supply.asked, g - f, supply.Failures() - g, first,
                  NameAsks(data, name, 0)
                    + if success then (if inode in old(openInodes) then 1 else 2 + 2 * MapAsks(sectorCount)) else 0,
                  SlotCount(data) + 1, SlotCount(data) + 4);
    }

    // The rest of dir_remove, when the inode is open.
    method RemoveFound(dir: Inode, ghost name: seq<byte>, e: array<byte>, k: nat, inode: Inode) returns (success: bool)
      requires DirValid(dir) && Refs(dir, inode) && inode in openInodes && e.Length == 20
      requires IsEntry(inode, k, name, e[..])
      modifies this`disk, this`freeMap, this`loose, this`owned, this`openInodes, inode, e, supply
      ensures DirValid(dir) && Refs(dir, null) && loose == old(loose)
      ensures KeepsFiles(old(disk), disk, owned) && supply.Failures() >= old(supply.Failures())
      ensures !success ==> disk == old(disk)
      ensures old(inode.openCnt) > 1 ==> MapData(disk) == old(MapData(disk))
      ensures SyncStep(old(disk), old(freeMap), disk, freeMap, supply.Failures() - old(supply.Failures()))
      ensures supply.asked == old(supply.asked) + 1 + if success && old(inode.openCnt) <= 1 then 2 * MapAsks(sectorCount) else 0
      ensures !success ==> supply.Failures() > old(supply.Failures()) && RootData(disk) == old(RootData(disk))
      ensures !success ==> owned == old(owned) && freeMap == old(freeMap) && RemovedInodes() == old(RemovedInodes())
      ensures success ==> Erased(old(RootData(disk)), RootData(disk), k)
      ensures success && old(inode.openCnt) > 1 ==>
                owned == old(owned) && freeMap == old(freeMap) && RemovedInodes() == old(RemovedInodes()) + {inode}
      ensures success && old(inode.openCnt) <= 1 ==>
                owned == old(owned) - {inode.sector} && Freed(old(freeMap), freeMap, inode.sector, inode.data)
                && RemovedInodes() == old(RemovedInodes())
      ensures forall n :: n in old(openInodes) && (n != inode || old(inode.openCnt) > 1) ==> n in openInodes
      ensures forall n :: n in openInodes ==> n in old(openInodes)
    {
      hide Core, HeapOk, ValidDir, DirOwned, RemovedUnnamed, Refs, Freed, Erased, Matches, RootData, KeepsFiles,
        UserHandles, Names, GoodHeader, HeaderAt, SyncStep, MapOnDisk;
      NothingChanged();
      ghost var f := supply.Failures();
      success := EraseAndRemove(dir, e, k, inode);
      ghost var mid, g := disk, supply.Failures();
      Relinquish(inode, dir);
      SyncTwice(old(disk), old(freeMap), mid, old(freeMap), disk, freeMap, g - f, supply.Failures() - g);
      KeepsFilesTransitive(old(disk), mid, disk, old(owned), owned, owned);
    }

    // dir_lookup: the inode of the first entry with the name.
    method OpenNamed(dir: Inode, name: seq<byte>, e: array<byte>) returns (inode: Inode?, k: nat)
      requires DirValid(dir) && Refs(dir, null) && e.Length == 20
      modifies this`openInodes, Inodes(), e, supply
      ensures DirValid(dir) && Refs(dir, inode) && RemovedInodes() == old(RemovedInodes())
      ensures supply.Failures() >= old(supply.Failures())
      ensures Asks(old(supply.asked), supply.asked, supply.Failures() - old(supply.Failures()),
                   NameAsks(RootData(disk), name, 0) + if inode != null && inode !in old(openInodes) then 1 else 0,
                   SlotCount(RootData(disk)) + 1)
      ensures supply.Failures() == old(supply.Failures()) ==> (inode != null <==> HasName(RootData(disk), name))
      ensures inode == null ==> openInodes == old(openInodes)
      ensures inode != null ==> inode in openInodes && IsEntry(inode, k, name, e[..]) && Newcomer(inode, old(openInodes))
      ensures forall n :: n in old(openInodes) ==> n in openInodes
      ensures forall n :: n in openInodes ==> n in old(openInodes) || (n == inode && fresh(n))
    {
      hide *;
      DirValidIsOpen(dir);
      inode := null;
      var found;
      ghost var a, f := supply.asked, supply.Failures();
      found, k := LookupExact(dir, name, e);
      ghost var b, g, n := supply.asked, supply.Failures(), NameAsks(RootData(disk), name, 0);
      if found {
        inode := OpenEntry(dir, name, e[..], k);
      }
      AsksFurther(a, b, supply.asked, g - f, supply.Failures() - g, n,
                  n + if inode != null && inode !in old(openInodes) then 1 else 0,
                  SlotCount(RootData(disk)), SlotCount(RootData(disk)) + 1);
    }

    // inode_open for an entry that has been found.
    method OpenEntry(dir: Inode, name: seq<byte>, e: seq<byte>, k: nat) returns (inode: Inode?)
      requires DirValid(dir) && Refs(dir, null) && FirstMatch(RootData(disk), k, name)
      requires 20 * k + 20 <= |RootData(disk)| && e == RootData(disk)[20 * k..20 * k + 20]
      modifies this`openInodes, Inodes(), supply
      ensures DirValid(dir) && Refs(dir, inode) && RemovedInodes() == old(RemovedInodes())
      ensures supply.Failures() == old(supply.Failures()) + if inode == null then 1 else 0
      ensures supply.asked == old(supply.asked) + if inode != null && inode in old(openInodes) then 0 else 1
      ensures inode == null ==> openInodes == old(openInodes)
      ensures inode != null ==> inode in openInodes && IsEntry(inode, k, name, e) && Newcomer(inode, old(openInodes))
      ensures forall n :: n in old(openInodes) ==> n in openInodes
      ensures forall n :: n in openInodes ==> n in old(openInodes) || (n == inode && fresh(n))
    {
      hide *;
      DirValidIsOpen(dir);
      MatchFacts(k, name, e);
      var entry := DecodeEntry(e);
      inode := Acquire(entry.sector, dir);
      if inode != null { EntryOpened(inode, k, name, e); }
      RootIsDir(dir);
    }

    // The inode that the first entry with the name points to.
    ghost predicate IsEntry(inode: Inode, k: nat, name: seq<byte>, e: seq<byte>)
      reads this`disk, inode`removed
    {
      !inode.removed && Describes(disk, inode.sector, inode.data) && FoundAt(RootData(disk), k, name, inode.sector, e)
    }

    lemma RootIsDir(dir: Inode)
      requires Valid() && dir in openInodes && dir.sector == 1
      ensures DirValid(dir)
    {
    }

    // What lookup tells a caller that is only interested in the name.
    method LookupExact(dir: Inode, name: seq<byte>, e: array<byte>) returns (found: bool, k: nat)
      requires DirOpen(dir) && e.Length == 20
      modifies e, supply
      ensures supply.Failures() >= old(supply.Failures())
      ensures Asks(old(supply.asked), supply.asked, supply.Failures() - old(supply.Failures()),
                   NameAsks(RootData(disk), name, 0), SlotCount(RootData(disk)))
      ensures supply.Failures() == old(supply.Failures()) ==> (found <==> HasName(RootData(disk), name))
      ensures found ==> FirstMatch(RootData(disk), k, name)
      ensures found ==> 20 * k + 20 <= |RootData(disk)| && e[..] == RootData(disk)[20 * k..20 * k + 20]
    {
      hide DirOpen, Matches, RootData, HasName, DecodeEntry, NameStops, Requested;
      found, k := Lookup(dir, name, e);
      Asked(RootData(disk), supply.answers, old(supply.asked), supply.asked, supply.Failures() - old(supply.Failures()), k);
      NameFound(RootData(disk), name, supply.answers, old(supply.asked), k);
      NameCount(RootData(disk), name, supply.answers, old(supply.asked), k);
    }

    lemma EntryOpened(inode: Inode, k: nat, name: seq<byte>, e: seq<byte>)
      requires Valid() && inode in openInodes && !inode.removed && FoundAt(RootData(disk), k, name, inode.sector, e)
      ensures IsEntry(inode, k, name, e)
    {
      hide FoundAt, RootData;
    }

    // What a matching entry of a valid file system points to.
    lemma MatchFacts(k: nat, name: seq<byte>, e: seq<byte>)
      requires Valid() && FirstMatch(RootData(disk), k, name)
      requires 20 * k + 20 <= |RootData(disk)| && e == RootData(disk)[20 * k..20 * k + 20]
      ensures var s := DecodeEntry(e).sector;
              s in owned && s >= 2 && FoundAt(RootData(disk), k, name, s, e)
              && forall n :: n in openInodes && n.sector == s ==> !n.removed
    {
      var s := EntryAt(RootData(disk), k).sector;
      assert Names(RootData(disk), k, s);
      assert Named(RootData(disk), s);
    }

    // Writes the entry back unused and marks the inode removed.
    method EraseAndRemove(dir: Inode, e: array<byte>, k: nat, inode: Inode) returns (success: bool)
      requires DirValid(dir) && inode in openInodes && inode.sector >= 2
      requires e.Length == 20 && 20 * k + 20 <= |RootData(disk)|
      requires e[..] == RootData(disk)[20 * k..20 * k + 20]
      requires Names(RootData(disk), k, inode.sector)
      modifies this`disk, inode`removed, e, supply
      ensures DirValid(dir) && KeepsFiles(old(disk), disk, owned) && supply.Failures() >= old(supply.Failures())
      ensures MapData(disk) == old(MapData(disk))
      ensures SyncStep(old(disk), old(freeMap), disk, freeMap, supply.Failures() - old(supply.Failures()))
      ensures supply.asked == old(supply.asked) + 1
      ensures !success ==> disk == old(disk) && inode.removed == old(inode.removed)
      ensures !success ==> supply.Failures() > old(supply.Failures())
      ensures success ==> inode.removed && Erased(old(RootData(disk)), RootData(disk), k)
    {
      hide *;
      DirValidIsOpen(dir);
      SystemOwned();
      ghost var data := RootData(disk);
      NotSystem(dir, data, inode);
      success := EraseSlot(dir, e, k);
      if success {
        InodeRemove(inode);
        NoLongerNamed(dir, data, k, inode);
      } else {
        StillDirectory(dir, data);
      }
    }

    lemma NotSystem(dir: Inode, data: seq<byte>, inode: Inode)
      requires DirValid(dir) && data == RootData(disk) && inode.sector >= 2
      ensures NamedIn(data) && UserHandles() && ValidDir(data) && dir in openInodes
      ensures freeMapFile != null && 1 in owned && dir.sector == 1 && inode.sector != FREE_MAP_SECTOR && NamedBut(data, inode)
    {
    }

    ghost predicate NamedBut(data: seq<byte>, inode: Inode)
      reads this`owned, this`openInodes, set n | n in openInodes && n != inode
    {
      && DirIn(data, owned)
      && forall n :: n in openInodes && n != inode && n.removed ==> n.sector >= 2 && !Named(data, n.sector)
    }

    method EraseSlot(dir: Inode, e: array<byte>, k: nat) returns (success: bool)
      requires DirOpen(dir) && e.Length == 20 && 20 * k + 20 <= |RootData(disk)|
      requires e[..] == RootData(disk)[20 * k..20 * k + 20]
      modifies this`disk, e, supply
      ensures Core() && KeepsFiles(old(disk), disk, owned) && supply.Failures() >= old(supply.Failures())
      ensures 0 in owned ==> MapData(disk) == old(MapData(disk))
      ensures 0 in owned ==>
                SyncStep(old(disk), old(freeMap), disk, freeMap, supply.Failures() - old(supply.Failures()))
      ensures supply.asked == old(supply.asked) + 1
      ensures !success ==> disk == old(disk) && supply.Failures() > old(supply.Failures())
      ensures success ==> Erased(old(RootData(disk)), RootData(disk), k)
    {
      ghost var data := RootData(disk);
      e[19] := 0;
      ErasedEntry(data[20 * k..20 * k + 20], e[..]);
      hide Core, DirOpen, RootData, Erased, Keeps, KeepsFiles, DecodeEntry, Requested, Splice, Describes;
      success := WriteSlot(dir, e[..], k);
      WroteSlot(supply.answers, old(supply.asked), supply.asked - old(supply.asked), supply.Failures() - old(supply.Failures()));
      KeepsRootless(old(disk), disk, owned);
      if 0 in owned {
        MapKept(old(disk), disk, owned - {ROOT_DIR_SECTOR}, freeMap, supply.Failures() - old(supply.Failures()));
      }
      if success { EraseEntry(data, k, e[..]); }
    }

    lemma StillDirectory(dir: Inode, data: seq<byte>)
      requires Core() && dir in openInodes && dir.sector == ROOT_DIR_SECTOR && RootData(disk) == data && ValidDir(data)
      requires NamedIn(data) && freeMapFile != null && UserHandles() && ROOT_DIR_SECTOR in owned
      ensures DirValid(dir)
    {
      hide Core, UserHandles, RootData, ValidDir, Named;
    }

    lemma NoLongerNamed(dir: Inode, data: seq<byte>, k: nat, inode: Inode)
      requires Core() && dir in openInodes && dir.sector == ROOT_DIR_SECTOR && ValidDir(data) && NamedBut(data, inode)
      requires freeMapFile != null && UserHandles() && ROOT_DIR_SECTOR in owned
      requires inode.sector >= 2 && Erased(data, RootData(disk), k) && Names(data, k, inode.sector)
      ensures DirValid(dir)
    {
      hide Core, UserHandles, RootData, ValidDir, Named, Erased, Names;
      ErasedValid(data, RootData(disk), k, inode.sector);
    }

    // filesys_remove.
    method Remove(name: seq<byte>) returns (success: bool, ghost slot: nat, ghost inode: Inode?)
      requires Valid() && Refs(null, null)
      modifies this`disk, this`freeMap, this`loose, this`owned, this`openInodes, Inodes(), supply
      ensures Valid() && Refs(null, null) && loose == old(loose) && KeepsFiles(old(disk), disk, owned)
      ensures supply.Failures() >= old(supply.Failures())
      ensures !success ==> disk == old(disk)
      ensures success && inode in old(openInodes) ==> MapData(disk) == old(MapData(disk))
      ensures SyncStep(old(disk), old(freeMap), disk, freeMap, supply.Failures() - old(supply.Failures()))
      ensures Asks(old(supply.asked), supply.asked, supply.Failures() - old(supply.Failures()),
                   2 + NameAsks(old(RootData(disk)), name, 0)
                     + if success then (if inode in old(openInodes) then 1 else 2 + 2 * MapAsks(sectorCount)) else 0,
                   SlotCount(old(RootData(disk))) + 6)
      ensures forall n :: n in Inodes() ==> n in old(Inodes()) || fresh(n)
      ensures HandlesKeepData()
      ensures !success ==> owned == old(owned) && freeMap == old(freeMap) && RootData(disk) == old(RootData(disk))
      ensures !success ==> RemovedInodes() == old(RemovedInodes())
      ensures supply.Failures() == old(supply.Failures()) ==> (success <==> HasName(old(RootData(disk)), name))
      ensures success ==> FirstMatch(old(RootData(disk)), slot, name)
      ensures success ==> Erased(old(RootData(disk)), RootData(disk), slot)
      ensures success ==> inode != null && Names(old(RootData(disk)), slot, inode.sector)
      ensures success && inode in old(openInodes) ==>
                inode in openInodes && owned == old(owned) && freeMap == old(freeMap)
                && RemovedInodes() == old(RemovedInodes()) + {inode}
      ensures success && inode !in old(openInodes) ==>
                (forall n :: n in old(openInodes) ==> n.sector != inode.sector)
                && owned == old(owned) - {inode.sector} && Freed(old(freeMap), freeMap, inode.sector, inode.data)
                && Describes(old(disk), inode.sector, inode.data) && RemovedInodes() == old(RemovedInodes())
    {
      hide Core, HeapOk, ValidDir, DirOwned, RemovedUnnamed, Freed, Erased, Matches, RootData, KeepsFiles, HasName,
        UserHandles, Names, GoodHeader, HeaderAt;
      success, slot, inode := false, 0, null;
      NothingChanged();
      var dir := DirOpenRoot();
      if dir != null {
        success, slot, inode := RemoveIn(dir, name);
        ghost var mid := disk;
        RootNotRemoved(dir);
        Relinquish(dir, null);
        KeepsFilesTransitive(old(disk), mid, disk, owned, owned, owned);
      }
      DataKept(owned);
    }

    // file_open takes over the reference to inode, or gives it up.
    method FileOpen(inode: Inode?) returns (file: File?)
      requires Valid() && Refs(null, inode) && (inode != null ==> !inode.removed && inode.sector >= 2)
      modifies this, Inodes(), supply
      ensures supply.Failures() >= old(supply.Failures()) && RemovedInodes() == old(RemovedInodes())
      ensures supply.asked == old(supply.asked) + 1
      ensures supply.Failures() == old(supply.Failures()) ==> (file == null <==> inode == null)
      ensures Valid() && Refs(null, null) && unchanged(this`disk, this`freeMap, this`owned, this`loose, this`freeMapFile)
      ensures forall n :: n in Inodes() ==> n in old(Inodes()) || fresh(n)
      ensures file == null ==> handles == old(handles)
      ensures file != null ==> fresh(file) && file.inode == inode && file.pos == 0 && !file.denyWrite
                               && handles == old(handles) + {file}
    {
      hide Core, ValidDir, DirOwned, Named;
      file := null;
      var memory := supply.Allocate();
      if inode != null {
        if memory {
          file := new File(inode);
          Hold(file, inode);
        } else {
          Relinquish(inode, null);
        }
      }
    }

    ghost method Hold(file: File, inode: Inode)
      requires Core() && inode in openInodes && inode.refs == 1
      requires file !in handles && file.inode == inode && file.pos == 0 && !file.denyWrite
      modifies this`handles, inode`holders, inode`refs
      ensures Core() && handles == old(handles) + {file} && inode.refs == 0
      ensures inode.holders == old(inode.holders) + {file}
    {
      hide DiskOk, HeapOk;
      HoldersAreHandles(inode);
      handles := handles + {file};
      inode.holders := inode.holders + {file};
      inode.refs := 0;
      CountsKept(inode, file);
    }

    lemma HoldersAreHandles(n: Inode)
      requires HeapOk() && n in openInodes
      ensures n.holders <= handles
    {
    }

    // A new handle on one inode does not concern the others.
    twostate lemma CountsKept(inode: Inode, new file: File)
      requires old(HeapOk()) && inode in openInodes
      requires openInodes == old(openInodes) && freeMapFile == old(freeMapFile)
      requires handles == old(handles) + {file} && file !in old(handles)
      requires file.inode == inode && file.pos == 0 && !file.denyWrite
      requires forall n :: n in openInodes && n != inode ==> unchanged(n)
      requires forall f :: f in old(handles) ==> unchanged(f)
      requires inode.holders == old(inode.holders) + {file}
      requires inode.openCnt == old(inode.openCnt) && inode.refs == old(inode.refs) - 1
      requires inode.denyWriteCnt == old(inode.denyWriteCnt) && inode.removed == old(inode.removed)
      ensures HeapOk()
    {
      forall n | n in openInodes
        ensures n.holders <= handles && CountsOk(n)
      {
        assert old(n.holders) <= old(handles) && old(CountsOk(n));
        assert Deniers(n) == old(Deniers(n));
      }
      forall f | f in handles
        ensures f.inode in openInodes && f in f.inode.holders && f.pos >= 0
      {
        assert f == file || f in old(handles);
      }
    }

    // filesys_open.
    method Open(name: seq<byte>) returns (file: File?, ghost k: nat)
      requires Valid() && Refs(null, null)
      modifies this, Inodes(), supply
      ensures Valid() && Refs(null, null) && unchanged(this`disk, this`freeMap, this`owned, this`loose, this`freeMapFile)
      ensures supply.Failures() >= old(supply.Failures()) && RemovedInodes() == old(RemovedInodes())
      ensures Asks(old(supply.asked), supply.asked, supply.Failures() - old(supply.Failures()),
                   3 + NameAsks(RootData(disk), name, 0) + if file != null && file.inode !in old(openInodes) then 1 else 0,
                   SlotCount(RootData(disk)) + 4)
      ensures forall n :: n in Inodes() ==> n in old(Inodes()) || fresh(n)
      ensures file == null ==> handles == old(handles)
      ensures supply.Failures() == old(supply.Failures()) ==> (file != null <==> HasName(RootData(disk), name))
      ensures file != null ==> fresh(file) && file.pos == 0 && !file.denyWrite && handles == old(handles) + {file}
      ensures file != null && file.inode !in old(openInodes) ==>
                forall n :: n in old(openInodes) ==> n.sector != file.inode.sector
      ensures file != null ==> FirstMatch(RootData(disk), k, name) && Names(RootData(disk), k, file.inode.sector)
                               && file.inode.sector >= 2
    {
      hide Core, ValidDir, DirOwned, Named, Matches, RootData, HasName, UserHandles, Names, GoodHeader, HeaderAt,
        FirstMatch, Valid, Refs;
      file, k := null, 0;
      var dir := DirOpenRoot();
      var inode: Inode? := null;
      if dir != null {
        inode, k := InodeNamed(dir, name);
      }
      file := FileOpen(inode);
    }

    // dir_lookup in the root directory, which is closed again.
    method InodeNamed(dir: Inode, name: seq<byte>) returns (inode: Inode?, ghost k: nat)
      requires DirValid(dir) && Refs(dir, null)
      modifies this`disk, this`freeMap, this`loose, this`owned, this`openInodes, Inodes(), supply
      ensures Valid() && Refs(null, inode) && unchanged(this`disk, this`freeMap, this`owned, this`loose)
      ensures supply.Failures() >= old(supply.Failures()) && RemovedInodes() == old(RemovedInodes())
      ensures Asks(old(supply.asked), supply.asked, supply.Failures() - old(supply.Failures()),
                   NameAsks(RootData(disk), name, 0) + if inode != null && inode !in old(openInodes) then 1 else 0,
                   SlotCount(RootData(disk)) + 1)
      ensures forall n :: n in Inodes() ==> n in old(Inodes()) || fresh(n)
      ensures supply.Failures() == old(supply.Failures()) ==> (inode != null <==> HasName(RootData(disk), name))
      ensures inode != null && inode !in old(openInodes) ==> forall n :: n in old(openInodes) ==> n.sector != inode.sector
      ensures inode != null ==> FirstMatch(RootData(disk), k, name) && Names(RootData(disk), k, inode.sector)
                                && !inode.removed && inode.sector >= 2
    {
      hide Core, ValidDir, DirOwned, Named, Matches, RootData, HasName, UserHandles, Names, GoodHeader, HeaderAt,
        FirstMatch, Refs;
      var e := new byte[20];
      inode, k := OpenNamed(dir, name, e);
      RefsSymmetric(dir, inode);
      RootNotRemoved(dir);
      Relinquish(dir, inode);
      RefsSymmetric(inode, null);
    }

    // do_format; false where the kernel panics.
    method DoFormat() returns (ok: bool)
      requires Core() && owned == {} && loose == {0, 1} && openInodes == [] && handles == {} && freeMapFile == null
      requires sectorCount >= 2 && |freeMap| == sectorCount
      requires forall s :: 0 <= s < sectorCount ==> freeMap[s] == (s < 2)
      modifies this, supply
      ensures ok ==> MapOnDisk(disk, freeMap)
      ensures old(supply.asked) <= supply.asked <= old(supply.asked) + 7
      ensures ok ==> Valid() && Refs(null, null) && owned == {0, 1} && loose == {} && handles == {freeMapFile}
      ensures ok ==> RemovedInodes() == {} && RootData(disk) == Zeros(320) && fresh(freeMapFile) && fresh(Inodes())
      ensures supply.Failures() == old(supply.Failures()) ==>
                (ok <==> 3 + SectorsFor(Bitmap.FileSize(sectorCount)) <= sectorCount)
    {
      hide *;
      FirstExtent(freeMap);
      ok := FreeMapCreate();
      if !ok {
        return;
      }
      ghost var d: Header :| d.length == Bitmap.FileSize(sectorCount) && ExtentTaken(old(freeMap), freeMap, d);
      SecondExtent(old(freeMap), freeMap, d);
      OpenAreInodes();
      ok := RootCreate();
    }

    lemma OpenAreInodes()
      ensures forall n :: n in Inodes() <==> n in openInodes
    {
    }

    // dir_create for the root directory of a new file system.
    method RootCreate() returns (ok: bool)
      requires Core() && UserHandles() && freeMapFile != null && owned == {0} && loose == {1} && RemovedInodes() == {}
      requires forall n :: n in openInodes ==> n.refs == 0
      modifies this`disk, this`freeMap, this`loose, this`owned, supply
      ensures supply.Failures() >= old(supply.Failures())
      ensures ok ==> MapOnDisk(disk, freeMap)
      ensures old(supply.asked) <= supply.asked <= old(supply.asked) + 2
      ensures ok ==> Valid() && Refs(null, null) && owned == {0, 1} && loose == {} && RootData(disk) == Zeros(320)
      ensures RemovedInodes() == {}
      ensures !ok && supply.Failures() == old(supply.Failures()) ==> forall j: nat :: !Bitmap.Run(old(freeMap), j, 1, false)
      ensures ok ==> exists j: nat :: Bitmap.Run(old(freeMap), j, 1, false)
    {
      hide Core, UserHandles, FreshFile, GoodHeader, RemovedInodes, Bitmap.Run, Asks, HasRun, MapFile;
      OwnMapFile();
      assert SectorsFor(16 * ENTRY_SIZE) == 1;
      ok := InodeCreate(ROOT_DIR_SECTOR, 16 * ENTRY_SIZE);
      if ok {
        NewlyFormatted();
        assert Bitmap.Run(old(freeMap), HeaderAt(disk, 1).start, 1, false);
      }
    }

    lemma NewlyFormatted()
      requires Core() && UserHandles() && freeMapFile != null && owned == {0, 1} && RemovedInodes() == {}
      requires GoodHeader(disk, 1) && FreshFile(disk, 1, 320)
      requires forall n :: n in openInodes ==> n.refs == 0
      ensures Valid() && Refs(null, null) && RootData(disk) == Zeros(320)
    {
      hide Core, UserHandles;
      RootDataIs(disk);
      forall n | n in openInodes
        ensures !n.removed
      {
        assert n !in RemovedInodes();
      }
      forall k: nat | 20 * k + 20 <= 320
        ensures !EntryAt(Zeros(320), k).inUse
      {
        ZeroDirIsEmpty(320, k);
      }
    }

    lemma MapFits()
      requires Core()
      ensures Bitmap.FileSize(sectorCount) < 0x8000_0000
    {
    }

    // free_map_create: the file that will hold the free map, open for good.
    method FreeMapCreate() returns (ok: bool)
      requires Core() && owned == {} && loose == {0, 1} && openInodes == [] && handles == {} && freeMapFile == null
      modifies this, supply
      ensures Core() && supply.Failures() >= old(supply.Failures())
      ensures old(supply.asked) <= supply.asked <= old(supply.asked) + 5
      ensures ok ==> UserHandles() && fresh(freeMapFile) && handles == {freeMapFile}
      ensures ok ==> owned == {0} && loose == {1} && RemovedInodes() == {}
      ensures ok ==> forall n :: n in openInodes ==> n.refs == 0 && fresh(n)
      ensures ok ==> exists d: Header :: d.length == Bitmap.FileSize(sectorCount) && ExtentTaken(old(freeMap), freeMap, d)
      ensures !ok && supply.Failures() == old(supply.Failures()) ==>
                !HasRun(old(freeMap), SectorsFor(Bitmap.FileSize(sectorCount)))
    {
      hide Core, DiskOk, HeapOk, FreshFile, HeaderAt, Extent, SectorsFor, KeepsButMap, SetBits, ExtentTaken,
           Bitmap.Run, Bitmap.FirstRun, Bitmap.FileSize, UserHandles;
      MapFits();
      ok := InodeCreate(FREE_MAP_SECTOR, Bitmap.FileSize(sectorCount));
      if ok {
        assert ExtentTaken(old(freeMap), freeMap, HeaderAt(disk, FREE_MAP_SECTOR));
        ok := FreeMapOpen();
      }
    }

    // The handle on it, through which the free map is written.
    method FreeMapOpen() returns (ok: bool)
      requires Core() && owned == {0} && openInodes == [] && handles == {} && freeMapFile == null
      requires HeaderAt(disk, FREE_MAP_SECTOR).length == Bitmap.FileSize(sectorCount)
      modifies this`disk, this`openInodes, this`handles, this`freeMapFile, supply
      ensures Core() && supply.Failures() >= old(supply.Failures())
      ensures old(supply.asked) <= supply.asked <= old(supply.asked) + 3
      ensures ok ==> UserHandles() && fresh(freeMapFile) && handles == {freeMapFile} && RemovedInodes() == {}
      ensures ok ==> forall n :: n in openInodes ==> n.refs == 0 && fresh(n)
      ensures !ok ==> supply.Failures() > old(supply.Failures())
    {
      hide Core, DiskOk, HeapOk, HeaderAt, KeepsButMap, OneMoreRef, Bitmap.FileSize, GoodHeader;
      var inode := InodeOpen(FREE_MAP_SECTOR);
      if inode == null {
        return false;
      }
      OpenIs(inode);
      var memory := supply.Allocate();
      if !memory {
        return false;
      }
      var file := new File(inode);
      Hold(file, inode);
      Install(file);
      NoneDeny(file);
      ok := BitmapWrite();
    }

    lemma OpenIs(inode: Inode)
      requires Core() && inode in openInodes
      ensures inode.sector in owned && Describes(disk, inode.sector, inode.data)
    {
    }

    lemma NoneDeny(file: File)
      requires Core() && freeMapFile == file && handles == {file} && !file.denyWrite
      ensures file.inode.denyWriteCnt == 0
    {
      assert CountsOk(file.inode) && Deniers(file.inode) == {};
    }

    method Install(file: File)
      requires Core() && file in handles && file.inode.sector == FREE_MAP_SECTOR && !file.inode.removed
      modifies this`freeMapFile
      ensures Core() && freeMapFile == file
    {
      hide DiskOk;
      freeMapFile := file;
    }

    // ---- File handles. ----

    // The handle writes again; other handles may still deny writes.
    method AllowWrite(file: File)
      requires Core() && file in handles
      modifies file`denyWrite, file.inode`denyWriteCnt
      ensures Core() && !file.denyWrite
      ensures file.inode.denyWriteCnt == old(file.inode.denyWriteCnt) - (if old(file.denyWrite) then 1 else 0)
    {
      hide DiskOk;
      if file.denyWrite {
        DenierCounted(file);
        file.denyWrite := false;
        file.inode.denyWriteCnt := file.inode.denyWriteCnt - 1;
        assert Deniers(file.inode) == old(Deniers(file.inode)) - {file};
      }
    }

    method DenyWrite(file: File)
      requires Core() && file in handles
      modifies file`denyWrite, file.inode`denyWriteCnt
      ensures Core() && file.denyWrite
      ensures file.inode.denyWriteCnt == old(file.inode.denyWriteCnt) + (if old(file.denyWrite) then 0 else 1)
      ensures 0 < file.inode.denyWriteCnt <= file.inode.openCnt
    {
      hide DiskOk;
      if !file.denyWrite {
        file.denyWrite := true;
        file.inode.denyWriteCnt := file.inode.denyWriteCnt + 1;
        assert Deniers(file.inode) == old(Deniers(file.inode)) + {file};
      }
      DenierCounted(file);
    }

    // The assertions of inode_deny_write and inode_allow_write.
    lemma DenierCounted(file: File)
      requires HeapOk() && file in handles && file.denyWrite
      ensures 0 < file.inode.denyWriteCnt <= file.inode.openCnt
    {
      var n := file.inode;
      assert CountsOk(n) && file in Deniers(n);
      assert Deniers(n) <= n.holders;
      SubsetSize(Deniers(n), n.holders);
    }

    // file_close: the handle's reference passes to inode_close.
    method FileClose(file: File)
      requires Valid() && Refs(null, null) && file in handles && file != freeMapFile
      modifies this, file.inode, file`denyWrite, supply
      ensures Valid() && Refs(null, null) && freeMapFile == old(freeMapFile) && supply.Failures() >= old(supply.Failures())
      ensures SyncStep(old(disk), old(freeMap), disk, freeMap, supply.Failures() - old(supply.Failures()))
      ensures supply.asked == old(supply.asked) + if !StillOpen(file.inode) && old(file.inode.removed)
                                                  then 2 * MapAsks(sectorCount) else 0
      ensures RemovedInodes() == old(RemovedInodes()) - if StillOpen(file.inode) then {} else {file.inode}
      ensures Describes(old(disk), file.inode.sector, file.inode.data)
      ensures forall n :: n in Inodes() ==> n in old(Inodes()) || fresh(n)
      ensures HandlesKeepData()
      ensures handles == old(handles) - {file} && loose == old(loose) && RootData(disk) == old(RootData(disk))
      ensures StillOpen(file.inode) || !old(file.inode.removed) ==>
                disk == old(disk) && freeMap == old(freeMap) && owned == old(owned)
      ensures !StillOpen(file.inode) && old(file.inode.removed) ==>
                owned == old(owned) - {file.inode.sector} && KeepsFiles(old(disk), disk, owned)
                && Freed(old(freeMap), freeMap, file.inode.sector, file.inode.data)
    {
      hide Valid, Core, HeapOk, Refs, RootData, KeepsFiles, Freed, Describes, StillOpen, HandlesKeepData, RemovedInodes;
      ValidCore(file);
      OpenIs(file.inode);
      var inode := file.inode;
      LetGo(file, inode);
      ValidIsCore();
      NothingChanged();
      Relinquish(inode, null);
      ValidIsCore();
      DataKept(owned);
    }

    // file_allow_write, and the handle's hold on its inode.
    method LetGo(file: File, inode: Inode)
      requires Valid() && Refs(null, null) && file in handles && file != freeMapFile && inode == file.inode
      modifies this`handles, inode, file`denyWrite
      ensures Valid() && Refs(null, inode) && handles == old(handles) - {file}
      ensures inode.openCnt <= 1 <==> !StillOpen(inode)
      ensures inode.removed == old(inode.removed) && RemovedInodes() == old(RemovedInodes())
    {
      hide Core, HeapOk, DirOwned, RemovedUnnamed, ValidDir, RootData, StillOpen;
      ValidCore(file);
      AllowWrite(file);
      Release(file, inode);
      RemovedAsBefore(inode);
    }

    twostate lemma RemovedAsBefore(inode: Inode)
      requires openInodes == old(openInodes) && inode.removed == old(inode.removed)
      requires forall n :: n in openInodes && n != inode ==> unchanged(n)
      ensures RemovedInodes() == old(RemovedInodes())
    {
    }

    lemma HandleInode(file: File)
      requires HeapOk() && file in handles
      ensures file.inode in openInodes && file.pos >= 0
    {
    }

    // Some handle is open on n.
    ghost predicate StillOpen(n: Inode)
      reads this`handles
    {
      exists f :: f in handles && f.inode == n
    }

    ghost method Release(file: File, inode: Inode)
      requires Core() && file in handles && file.inode == inode && inode.refs == 0 && !file.denyWrite
      requires file != freeMapFile
      modifies this`handles, inode`holders, inode`refs
      ensures Core() && handles == old(handles) - {file} && inode.refs == 1 && inode in openInodes
      ensures inode.openCnt <= 1 <==> !StillOpen(inode)
    {
      hide DiskOk;
      assert file in inode.holders && CountsOk(inode);
      handles := handles - {file};
      inode.holders := inode.holders - {file};
      inode.refs := 1;
      assert Deniers(inode) == old(Deniers(inode));
      forall n | n in openInodes
        ensures n.holders <= handles && CountsOk(n)
      {
        assert old(CountsOk(n));
        assert Deniers(n) == old(Deniers(n));
      }
      if inode.openCnt > 1 {
        var f :| f in inode.holders;
      }
    }

    // file_read: continues where the last transfer ended.
    method Read(file: File, buffer: array<byte>, size: int) returns (n: nat)
      requires Core() && file in handles && size <= buffer.Length
      modifies buffer, file`pos, supply
      ensures Core() && file.pos == old(file.pos) + n && Fits(disk, file.inode.data) && old(file.pos) >= 0
      ensures Transferred(size, old(file.pos), file.inode.data.length, Granted(supply.answers, old(supply.asked)), n,
                          supply.asked - old(supply.asked), supply.Failures() - old(supply.Failures()))
      ensures buffer[..] == Splice(old(buffer[..]), 0, Sub(Content(file.inode), old(file.pos), n))
      ensures n <= buffer.Length
      ensures ReadGives(Content(file.inode), old(file.pos), size, Granted(supply.answers, old(supply.asked)), buffer[..n],
                        supply.asked - old(supply.asked), supply.Failures() - old(supply.Failures()))
    {
      hide HeapOk, Splice, Available, Moved, NeedsBounce, Transferred, Granted, ReadGives;
      HandleInode(file);
      ghost var pos, was := file.pos, buffer[..];
      n := ReadAt(file.inode, buffer, size, file.pos);
      BufferGives(Content(file.inode), pos, size, Granted(supply.answers, old(supply.asked)), n,
                  supply.asked - old(supply.asked), supply.Failures() - old(supply.Failures()), was, buffer[..]);
      assert buffer[..n] == buffer[..][..n];
      Advance(file, n);
    }

    method Advance(file: File, n: nat)
      requires Core() && file in handles
      modifies file`pos
      ensures Core() && file.pos == old(file.pos) + n
    {
      hide DiskOk;
      file.pos := file.pos + n;
    }

    // file_write, on anything but the two system files.
    method Write(file: File, data: seq<byte>, size: int) returns (n: nat)
      requires Valid() && file in handles && size <= |data| && file.inode.sector >= 2
      modifies this`disk, file`pos, supply
      ensures Valid() && RootData(disk) == old(RootData(disk)) && file.inode.sector in owned
      ensures file.pos == old(file.pos) + n && old(file.pos) >= 0
      ensures file.inode.denyWriteCnt != 0 ==>
                n == 0 && supply.asked == old(supply.asked) && supply.Failures() == old(supply.Failures())
      ensures file.inode.denyWriteCnt == 0 ==>
                Transferred(size, old(file.pos), file.inode.data.length, Granted(supply.answers, old(supply.asked)), n,
                            supply.asked - old(supply.asked), supply.Failures() - old(supply.Failures()))
      ensures MapData(disk) == old(MapData(disk))
      ensures n == 0 ==> disk == old(disk)
      ensures Describes(old(disk), file.inode.sector, file.inode.data) && Describes(disk, file.inode.sector, file.inode.data)
      ensures n > 0 ==> n <= |data| && old(file.pos) + n <= file.inode.data.length
                        && Content(file.inode) == Splice(old(Content(file.inode)), old(file.pos), data[..n])
      ensures Keeps(old(disk), disk, owned - {file.inode.sector})
    {
      hide *;
      ValidCore(file);
      OpenIs(file.inode);
      NamesNow();
      SystemOwned();
      n := WriteAt(file.inode, data, size, file.pos);
      MapKept(old(disk), disk, owned - {file.inode.sector}, freeMap, 0);
      RootKeptToo(old(disk), disk, owned - {file.inode.sector});
      OpenIs(file.inode);
      Advance(file, n);
      StillValid(old(RootData(disk)));
    }

    lemma ValidCore(file: File)
      requires Valid() && file in handles
      ensures Core() && HeapOk() && file.inode in openInodes && file.pos >= 0
    {
    }

    lemma ValidIsCore()
      requires Valid()
      ensures Core()
    {
    }

    lemma NamesNow()
      requires Valid()
      ensures NamedIn(RootData(disk)) && ValidDir(RootData(disk)) && freeMapFile != null && UserHandles() && 1 in owned
    {
    }

    lemma StillValid(data: seq<byte>)
      requires Core() && RootData(disk) == data && ValidDir(data) && NamedIn(data)
      requires freeMapFile != null && UserHandles() && 1 in owned
      ensures Valid()
    {
      hide Core, UserHandles, RootData, ValidDir, Named;
    }
  }

  // filesys_init on a device that is formatted; null where the kernel panics.
  method Format(sectorCount: nat, disk: seq<byte>, supply: Supply) returns (fs: FileSys?)
    requires 2 <= sectorCount <= DEVICE_LIMIT && |disk| == 512 * sectorCount
    modifies supply
    ensures old(supply.asked) <= supply.asked <= old(supply.asked) + 7
    ensures fs != null ==> fresh(fs) && fs.supply == supply && fs.Valid() && fs.Refs(null, null)
    ensures fs != null ==> fs.owned == {0, 1} && fs.loose == {} && fs.handles == {fs.freeMapFile}
    ensures fs != null ==> MapOnDisk(fs.disk, fs.freeMap)
    ensures fs != null ==> fresh(fs.freeMapFile) && fresh(fs.Inodes())
    ensures fs != null ==> fs.RemovedInodes() == {} && RootData(fs.disk) == Zeros(320)
    ensures supply.Failures() == old(supply.Failures()) ==>
              (fs != null <==> 3 + SectorsFor(Bitmap.FileSize(sectorCount)) <= sectorCount)
  {
    fs := new FileSys(sectorCount, disk, supply);
    hide *;
    var ok := fs.DoFormat();
    if !ok {
      return null;
    }
  }

  // Room on a device of which only the first two sectors are marked.
  lemma FirstExtent(used: seq<bool>)
    requires |used| >= 2 && forall s :: 0 <= s < |used| ==> used[s] == (s < 2)
    ensures var n := SectorsFor(Bitmap.FileSize(|used|)); n > 0 && (HasRun(used, n) <==> 2 + n <= |used|)
  {
    var n := SectorsFor(Bitmap.FileSize(|used|));
    if 2 + n <= |used| { assert Bitmap.Run(used, 2, n, false); }
    if j: nat :| Bitmap.Run(used, j, n, false) {
      assert !used[j];
    }
  }

  lemma SecondExtent(used: seq<bool>, after: seq<bool>, d: Header)
    requires |used| >= 2 && (forall s :: 0 <= s < |used| ==> used[s] == (s < 2)) && d.length == Bitmap.FileSize(|used|)
    requires ExtentTaken(used, after, d)
    ensures (exists j: nat :: Bitmap.Run(after, j, 1, false)) <==> 3 + SectorsFor(d.length) <= |used|
  {
    var n := SectorsFor(d.length);
    assert !used[d.start];
    assert Bitmap.Run(used, 2, n, false);
    assert d.start == 2;
    if 3 + n <= |used| { assert Bitmap.Run(after, 2 + n, 1, false); }
    if j: nat :| Bitmap.Run(after, j, 1, false) {
      assert !after[j];
    }
  }

  lemma {:induction false} SubsetSize<T>(a: set<T>, b: set<T>)
    requires a <= b
    ensures |a| <= |b|
    decreases a
  {
    if x :| x in a {
      SubsetSize(a - {x}, b - {x});
    }
  }

  // Fills in an entry: in use, the name with its terminator, the sector.
  method FillEntry(e: array<byte>, name: seq<byte>, sector: word)
    requires e.Length == 20 && |name| <= 14 && 0 !in name
    modifies e
    ensures var d := DecodeEntry(e[..]);
            d.inUse && d.sector == sector && CString(d.name) == name && 0 in d.name
  {
    e[19] := 1;
    ghost var before := e[..];
    CopyOut(e, 4, name);
    e[4 + |name|] := 0;
    NameField(before, name);
    ghost var mid := e[..];
    assert mid == Splice(before, 4, name)[4 + |name| := 0];
    CStringOf(mid[4..19], name);
    CopyOut(e, 0, Le32(sector));
    SpliceSlices(mid, 0, Le32(sector));
    SpliceElsewhere(mid, 0, Le32(sector), 4, 19);
    Le32RoundTrip(sector);
  }

  lemma NameField(e: seq<byte>, name: seq<byte>)
    requires |e| == 20 && |name| <= 14
    ensures var m := Splice(e, 4, name)[4 + |name| := 0];
            m[4..19][..|name|] == name && m[4..19][|name|] == 0 && m[19] == e[19]
  {
    var m := Splice(e, 4, name)[4 + |name| := 0];
    forall k | 0 <= k < |name|
      ensures m[4..19][k] == name[k]
    {
      assert m[4 + k] == name[k];
    }
    assert m[4..19][..|name|] == name;
  }

  // memcpy into an array.
  method CopyOut(buffer: array<byte>, at: nat, data: seq<byte>)
    requires at + |data| <= buffer.Length
    modifies buffer
    ensures buffer[..] == Splice(old(buffer[..]), at, data)
  {
    for i := 0 to |data|
      invariant buffer[..] == Splice(old(buffer[..]), at, data[..i])
    {
      buffer[at + i] := data[i];
      SpliceMore(old(buffer[..]), at, data[..i], [data[i]]);
      assert data[..i + 1] == data[..i] + [data[i]];
      assert buffer[..] == Splice(Splice(old(buffer[..]), at, data[..i]), at + i, [data[i]]);
    }
    assert data[..|data|] == data;
  }
}
