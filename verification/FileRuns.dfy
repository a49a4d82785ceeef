// Processes at work on the file system: what each call does to the files,
// the directory, the handles and the free map, and what whole runs keep.
module FileRuns {
  import opened Bytes
  import opened Layout
  import opened KernelMemory
  import opened FileSystem
  import Bitmap

  // ---- What there is to see. ----

  // A place in the table of handles opened so far.
  datatype Handle = Closed | Open(sector: nat, pos: int, denies: bool)

  datatype Stored = Stored(header: Header, bytes: seq<byte>)

  datatype State = State(
    table: seq<Handle>,
    files: map<nat, Stored>,   // by the sector of the header, the system files left out
    dir: seq<byte>,            // the bytes of the root directory
    removed: set<nat>,         // files removed that are still open
    used: seq<bool>,           // the free map
    mapFile: seq<byte>,        // the bytes of its file
    asked: nat,                // requests for memory made so far
    failures: nat)             // and refused

  ghost function FilesOf(disk: seq<byte>, owned: set<nat>): map<nat, Stored> {
    map h | h in owned && h >= 2 && GoodHeader(disk, h) :: Stored(HeaderAt(disk, h), Data(disk, HeaderAt(disk, h)))
  }

  ghost function HandleOf(f: File?): Handle
    reads f
  {
    if f == null then Closed else Open(f.inode.sector, f.pos, f.denyWrite)
  }

  ghost function TableOf(table: seq<File?>): (r: seq<Handle>)
    reads table
    ensures |r| == |table| && forall i :: 0 <= i < |table| ==> r[i] == HandleOf(table[i])
  {
    seq(|table|, i requires 0 <= i < |table| reads table => HandleOf(table[i]))
  }

  ghost function Sectors(ns: set<Inode>): set<nat> {
    set n | n in ns :: n.sector
  }

  // All but the table.
  ghost function View(fs: FileSys): State
    reads fs, fs.openInodes, fs.supply
  {
    State([], FilesOf(fs.disk, fs.owned), RootData(fs.disk), Sectors(fs.RemovedInodes()), fs.freeMap, MapData(fs.disk),
          fs.supply.asked, fs.supply.Failures())
  }

  ghost function Abs(fs: FileSys, table: seq<File?>): State
    reads fs, fs.openInodes, table, fs.supply
  {
    View(fs).(table := TableOf(table))
  }

  // The handles of a run are distinct, and with the kernel's own they are all there are.
  ghost predicate TableOk(fs: FileSys, table: seq<File?>)
    reads fs`handles, fs`freeMapFile
  {
    TableIs(fs.handles, fs.freeMapFile, table)
  }

  ghost predicate TableIs(handles: set<File>, kernels: File?, table: seq<File?>) {
    && (forall i :: 0 <= i < |table| && table[i] != null ==> table[i] in handles && table[i] != kernels)
    && (forall i, j :: 0 <= i < j < |table| && table[i] != null ==> table[i] != table[j])
    && (forall f: File :: f in handles ==> f == kernels || f in table)
  }

  // ---- The calls. ----

  datatype Op =
    | OpCreate(name: seq<byte>, size: int)
    | OpRemove(name: seq<byte>)
    | OpOpen(name: seq<byte>)
    | OpClose(fd: nat)
    | OpRead(fd: nat, size: int)
    | OpWrite(fd: nat, data: seq<byte>)
    | OpDeny(fd: nat)
    | OpAllow(fd: nat)

  // What came of a call, with the entry and the sectors it was about.
  datatype Out =
    | Created(ok: bool, slot: nat, h: nat, d: Header, leaked: bool)
    | Gone(ok: bool, slot: nat, h: nat)
    | Found(slot: nat)
    | Got(bytes: seq<byte>)
    | Put(n: nat)
    | Nothing

  predicate WellFormed(op: Op) {
    match op
    case OpCreate(name, size) => 0 !in name && 0 <= size < 0x8000_0000
    case OpRead(_, size) => 0 <= size
    case _ => true
  }

  predicate IsOpen(s: State, fd: nat) {
    fd < |s.table| && s.table[fd].Open?
  }

  // Some handle is open on file h, or denies writes to it.
  ghost predicate Held(s: State, h: nat) {
    exists i :: 0 <= i < |s.table| && s.table[i].Open? && s.table[i].sector == h
  }

  ghost predicate Denied(s: State, h: nat) {
    exists i :: 0 <= i < |s.table| && s.table[i].Open? && s.table[i].sector == h && s.table[i].denies
  }

  // How many requests for memory a call makes if none is refused, and how many
  // it makes at most.
  ghost function StepAsks(s: State, op: Op, out: Out, t: State): nat {
    match op
    case OpCreate(name, size) => 2 + if size < 0 then 0 else CreateAsks(s.used, s.dir, name, size, MapAsks(|s.used|))
    case OpRemove(name) => RemoveAsks(s, name, out.Gone? && out.ok, out.Gone? && Held(s, out.h))
    case OpOpen(name) =>
      OpenAsks(s, name, |t.table| > |s.table| && t.table[|s.table|].Open? && !Held(s, t.table[|s.table|].sector))
    case OpClose(fd) => if IsOpen(s, fd) then CloseAsks(s, s.table[fd].sector, !Held(t, s.table[fd].sector)) else 0
    case OpRead(fd, size) => if IsOpen(s, fd) then TransferAsks(s, s.table[fd].sector, s.table[fd].pos, size) else 0
    case OpWrite(fd, data) =>
      if !IsOpen(s, fd) || Denied(s, s.table[fd].sector) then 0
      else TransferAsks(s, s.table[fd].sector, s.table[fd].pos, |data|)
    case _ => 0
  }

  ghost function RemoveAsks(s: State, name: seq<byte>, ok: bool, listed: bool): nat {
    2 + NameAsks(s.dir, name, 0) + if !ok then 0 else if listed then 1 else 2 + 2 * MapAsks(|s.used|)
  }

  ghost function OpenAsks(s: State, name: seq<byte>, unlisted: bool): nat {
    3 + NameAsks(s.dir, name, 0) + if unlisted then 1 else 0
  }

  ghost function CloseAsks(s: State, h: nat, last: bool): nat {
    if last && h in s.removed then 2 * MapAsks(|s.used|) else 0
  }

  ghost function TransferAsks(s: State, h: nat, pos: int, size: int): nat {
    if h in s.files && pos >= 0 && NeedsBounce(Available(size, pos, |s.files[h].bytes|), pos) then 1 else 0
  }

  function MostAsks(s: State, op: Op): nat {
    match op
    case OpCreate(_, _) => 2 * SlotCount(s.dir) + 7
    case OpRemove(_) => SlotCount(s.dir) + 6
    case OpOpen(_) => SlotCount(s.dir) + 4
    case OpClose(_) => 2
    case OpRead(_, _) => 1
    case OpWrite(_, _) => 1
    case _ => 0
  }

  predicate AskedFor(s: State, t: State, exact: nat, most: nat) {
    Asks(s.asked, t.asked, t.failures - s.failures, exact, most)
  }

  // The file of the free map holds it, bit for bit.
  ghost predicate MapInFile(s: State) {
    s.mapFile == Bitmap.Image(s.used)
  }

  // Unless memory was refused, a map that has changed is in its file, and one
  // that was there still is.
  ghost predicate MapFollows(s: State, t: State) {
    t.failures == s.failures && (MapInFile(s) || t.used != s.used) ==> MapInFile(t)
  }

  // Each call, as those see it who look at the files and handles alone.
  ghost predicate StepOk(s: State, op: Op, out: Out, t: State) {
    && s.failures <= t.failures && AskedFor(s, t, StepAsks(s, op, out, t), MostAsks(s, op)) && MapFollows(s, t)
    && match op
       case OpCreate(name, size) =>
         out.Created? && 0 <= size && CreateOk(s, name, size, out, t) && CreateExact(s, name, size, out, t)
       case OpRemove(name) => out.Gone? && RemoveOk(s, name, out.ok, out.slot, out.h, t)
       case OpOpen(name) => out.Found? && OpenOk(s, name, out.slot, t)
       case OpClose(fd) => if IsOpen(s, fd) then CloseOk(s, fd, t) else t == s
       case OpRead(fd, size) =>
         out.Got? && if IsOpen(s, fd) then ReadOk(s, fd, size, out.bytes, t) else t == s && out.bytes == []
       case OpWrite(fd, data) =>
         out.Put? && if IsOpen(s, fd) then WriteOk(s, fd, data, out.n, t) else t == s && out.n == 0
       case OpDeny(fd) => t == if IsOpen(s, fd) then s.(table := s.table[fd := s.table[fd].(denies := true)]) else s
       case OpAllow(fd) => t == if IsOpen(s, fd) then s.(table := s.table[fd := s.table[fd].(denies := false)]) else s
  }

  // A new file of zeros under a new sector, or none; a refused name costs the extent.
  ghost predicate CreateOk(s: State, name: seq<byte>, size: int, out: Out, t: State)
    requires out.Created? && 0 <= size
  {
    var Created(ok, slot, h, d, leaked) := out;
    && t.table == s.table && t.removed == s.removed
    && (ok || leaked ==> d.length == size && Placed(s.used, h, d))
    && (if ok then
          && !leaked && h >= 2 && h !in s.files && NameOk(name)
          && t.files == s.files[h := Stored(d, Zeros(size))] && Entered(s.dir, t.dir, slot, name, h)
          && MarkedBy(s.used, t.used, h, d)
        else
          && t.files == s.files && t.dir == s.dir
          && if leaked then LeakedBy(s.used, t.used, d) else t.used == s.used)
  }

  // Unless memory ran out, it is the room and the name that decide.
  ghost predicate CreateExact(s: State, name: seq<byte>, size: int, out: Out, t: State)
    requires out.Created? && 0 <= size
  {
    t.failures == s.failures ==>
      && (out.ok <==> Room(s.used, size) && !Refused(s.dir, name))
      && (out.leaked <==> Room(s.used, size) && Refused(s.dir, name))
      && (out.ok ==> NewName(s.dir, out.slot, name))
  }

  // The first entry with the name goes at once; the file goes with it if no
  // handle is open on it, and is marked removed otherwise.
  ghost predicate RemoveOk(s: State, name: seq<byte>, ok: bool, slot: nat, h: nat, t: State) {
    && t.table == s.table
    && (t.failures == s.failures ==> (ok <==> HasName(s.dir, name)))
    && if !ok then t.files == s.files && t.dir == s.dir && t.removed == s.removed && t.used == s.used
       else
         && FirstMatch(s.dir, slot, name) && Names(s.dir, slot, h) && Erased(s.dir, t.dir, slot) && h in s.files
         && if Held(s, h) then t.files == s.files && t.used == s.used && t.removed == s.removed + {h}
            else t.files == s.files - {h} && Freed(s.used, t.used, h, s.files[h].header) && t.removed == s.removed
  }

  // One more place in the table, for the file of the first entry with the name.
  ghost predicate OpenOk(s: State, name: seq<byte>, slot: nat, t: State) {
    && t == s.(table := t.table, asked := t.asked, failures := t.failures)
    && |t.table| == |s.table| + 1 && t.table[..|s.table|] == s.table
    && var x := t.table[|s.table|];
       && (x.Open? ==> x.pos == 0 && !x.denies && FirstMatch(s.dir, slot, name) && Names(s.dir, slot, x.sector))
       && (t.failures == s.failures ==> (x.Open? <==> HasName(s.dir, name)))
  }

  // The last handle on a removed file takes the file with it.
  ghost predicate CloseOk(s: State, fd: nat, t: State)
    requires IsOpen(s, fd)
  {
    var h := s.table[fd].sector;
    && t.table == s.table[fd := Closed] && t.dir == s.dir
    && if h in s.removed && !Held(t, h) then
         h in s.files && t.files == s.files - {h} && Freed(s.used, t.used, h, s.files[h].header) && t.removed == s.removed - {h}
       else t.files == s.files && t.used == s.used && t.removed == s.removed
  }

  // The next bytes of the file, as many as there are and were asked for.
  ghost predicate ReadOk(s: State, fd: nat, size: int, bytes: seq<byte>, t: State)
    requires IsOpen(s, fd)
  {
    var Open(h, pos, denies) := s.table[fd];
    && h in s.files && pos >= 0
    && |bytes| == Moved(Available(size, pos, |s.files[h].bytes|), pos, t.failures == s.failures)
    && (|bytes| > 0 ==> pos + |bytes| <= |s.files[h].bytes| && bytes == s.files[h].bytes[pos..pos + |bytes|])
    && t == s.(table := s.table[fd := Open(h, pos + |bytes|, denies)], asked := t.asked, failures := t.failures)
  }

  // The next bytes are replaced, unless some handle denies it.
  ghost predicate WriteOk(s: State, fd: nat, data: seq<byte>, n: nat, t: State)
    requires IsOpen(s, fd)
  {
    var Open(h, pos, denies) := s.table[fd];
    && h in s.files && pos >= 0 && n <= |data|
    && n == (if Denied(s, h) then 0
             else Moved(Available(|data|, pos, |s.files[h].bytes|), pos, t.failures == s.failures))
    && (n > 0 ==> pos + n <= |s.files[h].bytes|)
    && t == s.(table := s.table[fd := Open(h, pos + n, denies)], asked := t.asked, failures := t.failures,
               files := if n == 0 then s.files
                        else s.files[h := s.files[h].(bytes := Splice(s.files[h].bytes, pos, data[..n]))])
  }

  // ---- The disk seen as files. ----

  lemma FilesSame(d1: seq<byte>, d2: seq<byte>, hs: set<nat>)
    requires KeepsFiles(d1, d2, hs)
    ensures FilesOf(d2, hs) == FilesOf(d1, hs)
  {
    forall h | h in hs && h >= 2
      ensures GoodHeader(d1, h) && GoodHeader(d2, h) && HeaderAt(d2, h) == HeaderAt(d1, h)
      ensures Data(d2, HeaderAt(d2, h)) == Data(d1, HeaderAt(d1, h))
    {
      assert KeepsInode(d1, d2, h);
    }
  }

  lemma FilesMade(d1: seq<byte>, d2: seq<byte>, hs: set<nat>, h: nat, size: int)
    requires KeepsFiles(d1, d2, hs) && h !in hs && h >= 2 && GoodHeader(d2, h) && FreshFile(d2, h, size)
    ensures FilesOf(d2, hs + {h}) == FilesOf(d1, hs)[h := Stored(HeaderAt(d2, h), Zeros(size))]
    ensures h !in FilesOf(d1, hs) && HeaderAt(d2, h).length == size
  {
    FilesSame(d1, d2, hs);
    hide GoodHeader, HeaderAt;
    assert FilesOf(d2, hs + {h}) == FilesOf(d2, hs)[h := Stored(HeaderAt(d2, h), Zeros(size))];
  }

  lemma FilesDropped(d1: seq<byte>, d2: seq<byte>, hs: set<nat>, h: nat, d: Header)
    requires KeepsFiles(d1, d2, hs - {h}) && h in hs && h >= 2 && Describes(d1, h, d)
    ensures FilesOf(d2, hs - {h}) == FilesOf(d1, hs) - {h}
    ensures h in FilesOf(d1, hs) && FilesOf(d1, hs)[h].header == d
  {
    FilesSame(d1, d2, hs - {h});
    hide GoodHeader, HeaderAt;
    assert FilesOf(d1, hs - {h}) == FilesOf(d1, hs) - {h};
  }

  lemma FilesWritten(d1: seq<byte>, d2: seq<byte>, hs: set<nat>, h: nat, d: Header)
    requires Keeps(d1, d2, hs - {h}) && h in hs && h >= 2 && Describes(d1, h, d) && Describes(d2, h, d)
    ensures Fits(d1, d) && Fits(d2, d)
    ensures h in FilesOf(d1, hs) && FilesOf(d1, hs)[h] == Stored(d, Data(d1, d))
    ensures FilesOf(d2, hs) == FilesOf(d1, hs)[h := Stored(d, Data(d2, d))]
  {
    forall k | k in hs && k >= 2 && k != h
      ensures GoodHeader(d1, k) && GoodHeader(d2, k) && HeaderAt(d2, k) == HeaderAt(d1, k)
      ensures Data(d2, HeaderAt(d2, k)) == Data(d1, HeaderAt(d1, k))
    {
      assert KeepsInode(d1, d2, k);
    }
  }

  lemma FileAt(disk: seq<byte>, hs: set<nat>, h: nat, d: Header)
    requires h in hs && h >= 2 && Describes(disk, h, d)
    ensures Fits(disk, d) && h in FilesOf(disk, hs) && FilesOf(disk, hs)[h] == Stored(d, Data(disk, d))
  {
  }

  // ---- The handles seen as a table. ----

  lemma EntryOpen(fs: FileSys, table: seq<File?>, fd: nat)
    requires fs.Valid() && TableOk(fs, table) && fd < |table| && table[fd] != null
    ensures var f := table[fd];
            && f in fs.handles && f != fs.freeMapFile && f.inode in fs.Inodes() && f.inode in fs.openInodes && f.pos >= 0
            && f.inode.sector >= 2 && f.inode.sector in fs.owned && Describes(fs.disk, f.inode.sector, f.inode.data)
  {
    fs.HandleInode(table[fd]);
    fs.OpenIs(table[fd].inode);
  }

  lemma SameSectorSameInode(fs: FileSys, n: Inode, m: Inode)
    requires fs.Core() && n in fs.openInodes && m in fs.openInodes && n.sector == m.sector
    ensures n == m
  {
  }

  lemma HeldIsOpen(fs: FileSys, table: seq<File?>, h: nat)
    requires fs.Valid() && fs.Refs(null, null) && TableOk(fs, table) && h >= 2
    ensures Held(Abs(fs, table), h) <==> exists n :: n in fs.openInodes && n.sector == h
  {
    var s := Abs(fs, table);
    if i :| 0 <= i < |table| && s.table[i].Open? && s.table[i].sector == h {
      EntryOpen(fs, table, i);
    }
    if n :| n in fs.openInodes && n.sector == h {
      var i := SomeHandle(fs, table, n);
      assert s.table[i].Open? && s.table[i].sector == h;
    }
  }

  // Without references of its own, an open inode has a handle.
  lemma SomeHandle(fs: FileSys, table: seq<File?>, n: Inode) returns (i: nat)
    requires fs.Valid() && fs.Refs(null, null) && TableOk(fs, table) && n in fs.openInodes && n.sector >= 2
    ensures i < |table| && table[i] != null && table[i].inode == n
  {
    assert CountsOk(n) && n.refs == 0 && n.holders <= fs.handles;
    var f :| f in n.holders;
    assert f != fs.freeMapFile;
    i :| 0 <= i < |table| && table[i] == f;
  }

  lemma DeniedIsCounted(fs: FileSys, table: seq<File?>, n: Inode)
    requires fs.Valid() && TableOk(fs, table) && n in fs.openInodes && n.sector >= 2
    ensures Denied(Abs(fs, table), n.sector) <==> n.denyWriteCnt != 0
  {
    var s := Abs(fs, table);
    assert CountsOk(n) && n.holders <= fs.handles;
    if i :| 0 <= i < |table| && s.table[i].Open? && s.table[i].sector == n.sector && s.table[i].denies {
      EntryOpen(fs, table, i);
      SameSectorSameInode(fs, n, table[i].inode);
      assert table[i] in Deniers(n);
    }
    if n.denyWriteCnt != 0 {
      var f :| f in Deniers(n);
      assert f in fs.handles && f != fs.freeMapFile;
      var i :| 0 <= i < |table| && table[i] == f;
      assert s.table[i].Open? && s.table[i].sector == n.sector && s.table[i].denies;
    }
  }

  lemma RemovedSectors(fs: FileSys, n: Inode)
    requires fs.Valid() && n in fs.openInodes
    ensures n.sector in Sectors(fs.RemovedInodes()) <==> n.removed
    ensures Sectors(fs.RemovedInodes() - {n}) == Sectors(fs.RemovedInodes()) - {n.sector}
  {
    forall m | m in fs.RemovedInodes() && m.sector == n.sector
      ensures m == n
    {
      SameSectorSameInode(fs, n, m);
    }
  }

  lemma SectorsPlus(ns: set<Inode>, n: Inode)
    ensures Sectors(ns + {n}) == Sectors(ns) + {n.sector}
  {
    assert forall s: nat :: s in Sectors(ns + {n}) <==> s in Sectors(ns) || s == n.sector;
  }

  // ---- What each call does to the files. ----

  lemma SystemOwned(fs: FileSys)
    requires fs.Valid()
    ensures 0 in fs.owned && 1 in fs.owned
  {
    fs.SystemOwned();
  }

  lemma NotSystem(hs: set<nat>, h: nat)
    requires 0 in hs && 1 in hs && h !in hs
    ensures h >= 2
  {
  }

  lemma ViewIs(fs: FileSys)
    ensures View(fs) == State([], FilesOf(fs.disk, fs.owned), RootData(fs.disk), Sectors(fs.RemovedInodes()), fs.freeMap,
                              MapData(fs.disk), fs.supply.asked, fs.supply.Failures())
  {
  }

  method CreateFile(fs: FileSys, name: seq<byte>, size: int) returns (ghost out: Out)
    requires fs.Valid() && fs.Refs(null, null) && WellFormed(OpCreate(name, size))
    modifies fs`disk, fs`freeMap, fs`loose, fs`owned, fs`openInodes, fs.Inodes(), fs.supply
    ensures fs.Valid() && fs.Refs(null, null)
    ensures forall n :: n in fs.Inodes() ==> n in old(fs.Inodes()) || fresh(n)
    ensures StepOk(old(View(fs)), OpCreate(name, size), out, View(fs))
  {
    hide FileSys.Valid, FileSys.Refs, FilesOf, RootData, Sectors, FileSys.RemovedInodes, Placed, MarkedBy, LeakedBy,
      Entered, NewName, Refused, Room, FreshFile, GoodHeader, HeaderAt, KeepsFiles, FileSys.HandlesKeepData, NameOk,
      Extent, CreateAsks, SlotCount;
    ghost var d0, hs := fs.disk, fs.owned;
    SystemOwned(fs);
    MapSize(fs);
    var ok;
    ghost var h, slot, d, leaked;
    ok, h, slot, d, leaked := fs.Create(name, size);
    out := Created(ok, slot, h, d, leaked);
    if ok {
      NotSystem(hs, h);
      FilesMade(d0, fs.disk, hs, h, size);
    } else {
      FilesSame(d0, fs.disk, hs);
    }
  }

  // What a removal does, depending on whether the inode was listed as open.
  ghost predicate RemovedAs(s: State, name: seq<byte>, ok: bool, slot: nat, h: nat, listed: bool, t: State) {
    && s.failures <= t.failures && (t.failures == s.failures ==> (ok <==> HasName(s.dir, name)))
    && AskedFor(s, t, RemoveAsks(s, name, ok, listed), SlotCount(s.dir) + 6) && MapFollows(s, t)
    && if !ok then t == s.(asked := t.asked, failures := t.failures)
       else
         && FirstMatch(s.dir, slot, name) && Names(s.dir, slot, h) && Erased(s.dir, t.dir, slot) && h in s.files && h >= 2
         && if listed then t == s.(dir := t.dir, removed := s.removed + {h}, asked := t.asked, failures := t.failures)
            else
              && t == s.(dir := t.dir, used := t.used, mapFile := t.mapFile, files := s.files - {h}, asked := t.asked, failures := t.failures)
              && Freed(s.used, t.used, h, s.files[h].header)
  }

  ghost function Listed(fs: FileSys): set<nat>
    reads fs`openInodes
  {
    Sectors(set n | n in fs.openInodes)
  }

  lemma ListedIs(fs: FileSys)
    ensures Listed(fs) == Sectors(set n | n in fs.openInodes)
  {
  }

  method RemoveFile(fs: FileSys, name: seq<byte>) returns (ghost ok: bool, ghost slot: nat, ghost h: nat)
    requires fs.Valid() && fs.Refs(null, null)
    modifies fs`disk, fs`freeMap, fs`loose, fs`owned, fs`openInodes, fs.Inodes(), fs.supply
    ensures fs.Valid() && fs.Refs(null, null)
    ensures forall n :: n in fs.Inodes() ==> n in old(fs.Inodes()) || fresh(n)
    ensures RemovedAs(old(View(fs)), name, ok, slot, h, h in old(Listed(fs)), View(fs))
  {
    hide *;
    NamedFiles(fs);
    SystemOwned(fs);
    MapSize(fs);
    ViewIs(fs);
    ghost var s, d0, hs, before, gone := View(fs), fs.disk, fs.owned, fs.openInodes, fs.RemovedInodes();
    ghost var listed := Listed(fs);
    ListedIs(fs);
    var done;
    ghost var inode;
    done, slot, inode := fs.Remove(name);
    ViewIs(fs);
    ok, h := done, if inode == null then 0 else inode.sector;
    RemoveCounted(s, View(fs), name, ok, inode in before);
    Follows(s, View(fs), d0, fs.disk);
    if !ok {
      FilesSame(d0, fs.disk, hs);
      RemoveCounted(s, View(fs), name, false, h in listed);
      NotRemoved(s, name, slot, h, h in listed, View(fs));
    } else if inode in before {
      ListedInSectors(before, inode);
      FilesSame(d0, fs.disk, hs);
      SectorsPlus(gone, inode);
      RemovedLater(s, name, slot, h, View(fs));
    } else {
      NotInSectors(before, h);
      NameIsFile(s.dir, s.files, slot, h);
      FilesGone(d0, fs.disk, hs, h, inode.data);
      RemovedNow(s, name, slot, h, View(fs));
    }
  }

  lemma Follows(s: State, t: State, d0: seq<byte>, d1: seq<byte>)
    requires s.mapFile == MapData(d0) && t.mapFile == MapData(d1)
    requires SyncStep(d0, s.used, d1, t.used, t.failures - s.failures)
    ensures MapFollows(s, t)
  {
    hide MapData;
  }

  lemma RemoveCounted(s: State, t: State, name: seq<byte>, ok: bool, listed: bool)
    requires Asks(s.asked, t.asked, t.failures - s.failures, 2 + NameAsks(s.dir, name, 0)
                    + (if ok then (if listed then 1 else 2 + 2 * MapAsks(|s.used|)) else 0), SlotCount(s.dir) + 6)
    ensures AskedFor(s, t, RemoveAsks(s, name, ok, listed), SlotCount(s.dir) + 6)
  {
  }

  // Every entry names a file.
  ghost predicate NamesFiles(data: seq<byte>, files: map<nat, Stored>) {
    forall k: nat, h: nat :: Names(data, k, h) ==> h >= 2 && h in files
  }

  lemma NameIsFile(data: seq<byte>, files: map<nat, Stored>, k: nat, h: nat)
    requires NamesFiles(data, files) && Names(data, k, h)
    ensures h >= 2 && h in files
  {
  }

  lemma NamedFiles(fs: FileSys)
    requires fs.Valid()
    ensures NamesFiles(RootData(fs.disk), FilesOf(fs.disk, fs.owned))
  {
    forall k: nat, h: nat | Names(RootData(fs.disk), k, h)
      ensures h >= 2 && h in FilesOf(fs.disk, fs.owned)
    {
      assert Named(RootData(fs.disk), h);
      OwnedIsGood(fs.disk, fs.freeMap, fs.owned, fs.loose, h);
    }
  }

  lemma ListedInSectors(ns: seq<Inode>, n: Inode)
    requires n in ns
    ensures n.sector in Sectors(set m | m in ns)
  {
  }

  lemma NotInSectors(ns: seq<Inode>, h: nat)
    requires forall n :: n in ns ==> n.sector != h
    ensures h !in Sectors(set m | m in ns)
  {
  }

  lemma FilesGone(d1: seq<byte>, d2: seq<byte>, hs: set<nat>, h: nat, d: Header)
    requires KeepsFiles(d1, d2, hs - {h}) && h in FilesOf(d1, hs) && Describes(d1, h, d)
    ensures FilesOf(d2, hs - {h}) == FilesOf(d1, hs) - {h} && FilesOf(d1, hs)[h].header == d
  {
    FilesDropped(d1, d2, hs, h, d);
  }

  lemma NotRemoved(s: State, name: seq<byte>, slot: nat, h: nat, listed: bool, t: State)
    requires s.failures <= t.failures && t == s.(asked := t.asked, failures := t.failures)
    requires t.failures == s.failures ==> !HasName(s.dir, name)
    requires AskedFor(s, t, RemoveAsks(s, name, false, listed), SlotCount(s.dir) + 6)
    requires MapFollows(s, t)
    ensures RemovedAs(s, name, false, slot, h, listed, t)
  {
  }

  lemma RemovedLater(s: State, name: seq<byte>, slot: nat, h: nat, t: State)
    requires NamesFiles(s.dir, s.files) && s.failures <= t.failures
    requires FirstMatch(s.dir, slot, name) && Names(s.dir, slot, h) && Erased(s.dir, t.dir, slot)
    requires t == s.(dir := t.dir, removed := s.removed + {h}, asked := t.asked, failures := t.failures)
    requires AskedFor(s, t, RemoveAsks(s, name, true, true), SlotCount(s.dir) + 6)
    requires MapFollows(s, t)
    ensures RemovedAs(s, name, true, slot, h, true, t)
  {
    hide Names, Erased, FirstMatch;
    NamedHere(s.dir, slot, name);
  }

  lemma NamedHere(data: seq<byte>, slot: nat, name: seq<byte>)
    requires FirstMatch(data, slot, name)
    ensures HasName(data, name)
  {
  }

  lemma RemovedNow(s: State, name: seq<byte>, slot: nat, h: nat, t: State)
    requires NamesFiles(s.dir, s.files) && s.failures <= t.failures
    requires FirstMatch(s.dir, slot, name) && Names(s.dir, slot, h) && Erased(s.dir, t.dir, slot)
    requires h in s.files && Freed(s.used, t.used, h, s.files[h].header)
    requires t == s.(dir := t.dir, used := t.used, mapFile := t.mapFile, files := s.files - {h}, asked := t.asked, failures := t.failures)
    requires AskedFor(s, t, RemoveAsks(s, name, true, false), SlotCount(s.dir) + 6)
    requires MapFollows(s, t)
    ensures RemovedAs(s, name, true, slot, h, false, t)
  {
    hide Names, Erased, FirstMatch, Freed;
    NamedHere(s.dir, slot, name);
  }

  // What a close does, depending on whether it was the last of a removed file.
  ghost predicate ClosedAs(s: State, h: nat, last: bool, t: State) {
    && s.failures <= t.failures && AskedFor(s, t, CloseAsks(s, h, last), 2) && MapFollows(s, t)
    && if last && h in s.removed then
         && h in s.files && Freed(s.used, t.used, h, s.files[h].header)
         && t == s.(files := s.files - {h}, removed := s.removed - {h}, used := t.used, mapFile := t.mapFile, asked := t.asked, failures := t.failures)
       else t == s.(asked := t.asked, failures := t.failures)
  }

  method CloseFile(fs: FileSys, file: File)
    requires fs.Valid() && fs.Refs(null, null) && file in fs.handles && file != fs.freeMapFile
    requires file.inode in fs.openInodes && file.inode.sector >= 2 && file.inode.sector in fs.owned
    requires Describes(fs.disk, file.inode.sector, file.inode.data)
    modifies fs, fs.Inodes(), file`denyWrite, fs.supply
    ensures fs.Valid() && fs.Refs(null, null) && fs.handles == old(fs.handles) - {file}
    ensures fs.freeMapFile == old(fs.freeMapFile)
    ensures forall n :: n in fs.Inodes() ==> n in old(fs.Inodes()) || fresh(n)
    ensures ClosedAs(old(View(fs)), file.inode.sector, !fs.StillOpen(file.inode), View(fs))
  {
    hide *;
    ViewIs(fs);
    MapSize(fs);
    ghost var inode, removed := file.inode, file.inode.removed;
    ghost var s, d0, hs, gone := View(fs), fs.disk, fs.owned, fs.RemovedInodes();
    RemovedSectors(fs, inode);
    InInodes(fs, inode);
    fs.FileClose(file);
    ViewIs(fs);
    CloseCounted(s, View(fs), inode.sector, !fs.StillOpen(inode));
    Follows(s, View(fs), d0, fs.disk);
    if !fs.StillOpen(inode) && removed {
      FilesDropped(d0, fs.disk, hs, inode.sector, inode.data);
      LastClosed(s, inode.sector, View(fs));
    } else {
      NoMore(gone, inode, removed);
      JustClosed(s, inode.sector, !fs.StillOpen(inode), View(fs));
    }
  }

  lemma CloseCounted(s: State, t: State, h: nat, last: bool)
    requires t.asked == s.asked + if last && h in s.removed then 2 * MapAsks(|s.used|) else 0
    ensures AskedFor(s, t, CloseAsks(s, h, last), 2)
  {
  }

  lemma InInodes(fs: FileSys, n: Inode)
    requires n in fs.openInodes
    ensures n in fs.Inodes() && (n in fs.RemovedInodes() ==> n.removed)
  {
  }

  lemma NoMore(gone: set<Inode>, n: Inode, removed: bool)
    requires n in gone ==> removed
    ensures !removed ==> gone - {n} == gone
    ensures gone - {} == gone
  {
  }

  lemma LastClosed(s: State, h: nat, t: State)
    requires h in s.removed && s.failures <= t.failures
    requires h in s.files && Freed(s.used, t.used, h, s.files[h].header)
    requires t == s.(files := s.files - {h}, removed := s.removed - {h}, used := t.used, mapFile := t.mapFile, asked := t.asked, failures := t.failures)
    requires AskedFor(s, t, CloseAsks(s, h, true), 2)
    requires MapFollows(s, t)
    ensures ClosedAs(s, h, true, t)
  {
    hide Freed;
  }

  lemma JustClosed(s: State, h: nat, last: bool, t: State)
    requires (h !in s.removed || !last) && s.failures <= t.failures && t == s.(asked := t.asked, failures := t.failures)
    requires AskedFor(s, t, CloseAsks(s, h, last), 2)
    requires MapFollows(s, t)
    ensures ClosedAs(s, h, last, t)
  {
  }

  // What an open finds.
  ghost predicate OpenedAs(s: State, name: seq<byte>, k: nat, h: nat, found: bool, listed: bool, t: State) {
    && AskedFor(s, t, OpenAsks(s, name, found && !listed), SlotCount(s.dir) + 4)
    && s.failures <= t.failures && t == s.(asked := t.asked, failures := t.failures)
    && (found ==> FirstMatch(s.dir, k, name) && Names(s.dir, k, h))
    && (t.failures == s.failures ==> (found <==> HasName(s.dir, name)))
  }

  method OpenFile(fs: FileSys, name: seq<byte>) returns (file: File?, ghost k: nat)
    requires fs.Valid() && fs.Refs(null, null)
    modifies fs, fs.Inodes(), fs.supply
    ensures fs.Valid() && fs.Refs(null, null) && fs.freeMapFile == old(fs.freeMapFile)
    ensures forall n :: n in fs.Inodes() ==> n in old(fs.Inodes()) || fresh(n)
    ensures fs.handles == if file == null then old(fs.handles) else old(fs.handles) + {file}
    ensures file != null ==> fresh(file) && file.pos == 0 && !file.denyWrite && file.inode.sector >= 2
    ensures OpenedAs(old(View(fs)), name, k, if file == null then 0 else file.inode.sector, file != null,
                     file != null && file.inode.sector in old(Listed(fs)), View(fs))
  {
    hide FileSys.Valid, FileSys.Refs, FilesOf, RootData, Sectors, FileSys.RemovedInodes, FirstMatch, Names, HasName,
      FileSys.Inodes, Listed, NameAsks, Asks;
    ghost var before, listed := fs.openInodes, Listed(fs);
    ListedIs(fs);
    MapSize(fs);
    file, k := fs.Open(name);
    if file != null {
      if file.inode in before {
        ListedInSectors(before, file.inode);
      } else {
        NotInSectors(before, file.inode.sector);
      }
    }
  }

  lemma MapSize(fs: FileSys)
    requires fs.Valid()
    ensures |fs.freeMap| == fs.sectorCount
  {
  }

  // The next bytes of a file with that content.
  ghost predicate NextBytes(content: seq<byte>, pos: int, size: int, bytes: seq<byte>, all: bool) {
    && pos >= 0 && |bytes| == Moved(Available(size, pos, |content|), pos, all)
    && (|bytes| > 0 ==> pos + |bytes| <= |content| && bytes == content[pos..pos + |bytes|])
  }

  // A transfer moved everything unless a request for memory was refused.
  lemma TransferExact(size: int, pos: nat, length: int, granted: bool, n: nat, requests: int, refusals: int)
    requires Transferred(size, pos, length, granted, n, requests, refusals)
    ensures refusals >= 0 && n == Moved(Available(size, pos, length), pos, refusals == 0)
    ensures requests == if NeedsBounce(Available(size, pos, length), pos) then 1 else 0
    ensures (n > 0 ==> pos + n <= length) && n <= if size <= 0 then 0 else size
  {
  }

  method ReadFile(fs: FileSys, file: File, size: nat) returns (bytes: seq<byte>)
    requires fs.Valid() && file in fs.handles && file.inode.sector >= 2
    modifies file`pos, fs.supply
    ensures fs.Valid() && file.pos == old(file.pos) + |bytes|
    ensures ReadAs(old(View(fs)), file.inode.sector, old(file.pos), size, bytes, View(fs))
  {
    hide *;
    ghost var s := View(fs);
    ghost var content := FileNow(fs, file);
    fs.NamesNow();
    ghost var h, pos, asked, failures := file.inode.sector, file.pos, fs.supply.asked, fs.supply.Failures();
    var buffer := new byte[size];
    ghost var was := buffer[..];
    ViewIs(fs);
    var n := fs.Read(file, buffer, size);
    fs.StillValid(RootData(fs.disk));
    ViewIs(fs);
    TransferExact(size, pos, |content|, Granted(fs.supply.answers, asked), n, fs.supply.asked - asked,
                  fs.supply.Failures() - failures);
    BytesRead(buffer[..], was, content, pos, size, n, Granted(fs.supply.answers, asked), fs.supply.asked - asked,
              fs.supply.Failures() - failures);
    bytes := buffer[..n];
    assert buffer[..][..n] == bytes;
    ReadHere(s, h, pos, size, bytes, content, View(fs));
  }

  lemma ContentIs(fs: FileSys, n: Inode)
    requires Fits(fs.disk, n.data)
    ensures fs.Content(n) == Data(fs.disk, n.data)
  {
  }

  lemma FileNow(fs: FileSys, file: File) returns (content: seq<byte>)
    requires fs.Valid() && file in fs.handles && file.inode.sector >= 2
    ensures fs.Core() && Fits(fs.disk, file.inode.data) && content == fs.Content(file.inode)
    ensures |content| == file.inode.data.length && file.pos >= 0 && content == Data(fs.disk, file.inode.data)
    ensures file.inode.sector in View(fs).files && View(fs).files[file.inode.sector].bytes == content
  {
    fs.HandleInode(file);
    fs.OpenIs(file.inode);
    FileAt(fs.disk, fs.owned, file.inode.sector, file.inode.data);
    content := fs.Content(file.inode);
  }

  ghost predicate ReadAs(s: State, h: nat, pos: int, size: int, bytes: seq<byte>, t: State) {
    && AskedFor(s, t, TransferAsks(s, h, pos, size), 1)
    && s.failures <= t.failures && t == s.(asked := t.asked, failures := t.failures) && h in s.files
    && NextBytes(s.files[h].bytes, pos, size, bytes, t.failures == s.failures)
  }

  lemma ReadHere(s: State, h: nat, pos: int, size: int, bytes: seq<byte>, content: seq<byte>, t: State)
    requires s.failures <= t.failures && t == s.(asked := t.asked, failures := t.failures) && h in s.files && s.files[h].bytes == content
    requires NextBytes(content, pos, size, bytes, t.failures == s.failures)
    requires t.asked - s.asked == if NeedsBounce(Available(size, pos, |content|), pos) then 1 else 0
    ensures ReadAs(s, h, pos, size, bytes, t)
  {
  }

  lemma BytesRead(buffer: seq<byte>, was: seq<byte>, content: seq<byte>, pos: nat, size: nat, n: nat, granted: bool,
                  requests: int, refusals: int)
    requires Transferred(size, pos, |content|, granted, n, requests, refusals) && |was| == size
    requires n <= size && (n == 0 || pos + n <= |content|)
    requires buffer == Splice(was, 0, Sub(content, pos, n))
    ensures n <= |buffer| && refusals >= 0 && NextBytes(content, pos, size, buffer[..n], refusals == 0)
  {
    TransferExact(size, pos, |content|, granted, n, requests, refusals);
    hide Moved, Available;
    SpliceSlices(was, 0, Sub(content, pos, n));
  }

  // A write of n bytes, unless it is denied.
  ghost predicate WrittenAs(s: State, h: nat, pos: int, data: seq<byte>, denied: bool, n: nat, t: State) {
    && AskedFor(s, t, if denied then 0 else TransferAsks(s, h, pos, |data|), 1)
    && s.failures <= t.failures && h in s.files && pos >= 0 && n <= |data|
    && n == (if denied then 0 else Moved(Available(|data|, pos, |s.files[h].bytes|), pos, t.failures == s.failures))
    && (n > 0 ==> pos + n <= |s.files[h].bytes|)
    && t == s.(asked := t.asked, failures := t.failures,
               files := if n == 0 then s.files
                        else s.files[h := s.files[h].(bytes := Splice(s.files[h].bytes, pos, data[..n]))])
  }

  method WriteFile(fs: FileSys, file: File, data: seq<byte>) returns (n: nat)
    requires fs.Valid() && file in fs.handles && file.inode.sector >= 2
    modifies fs`disk, file`pos, fs.supply
    ensures fs.Valid() && file.pos == old(file.pos) + n
    ensures WrittenAs(old(View(fs)), file.inode.sector, old(file.pos), data, file.inode.denyWriteCnt != 0, n, View(fs))
  {
    hide *;
    ghost var content := FileNow(fs, file);
    ViewIs(fs);
    ghost var s, d0, d, h, pos := View(fs), fs.disk, file.inode.data, file.inode.sector, file.pos;
    ghost var asked, failures := fs.supply.asked, fs.supply.Failures();
    n := fs.Write(file, data, |data|);
    ViewIs(fs);
    if file.inode.denyWriteCnt == 0 {
      TransferExact(|data|, pos, d.length, Granted(fs.supply.answers, asked), n, fs.supply.asked - asked,
                    fs.supply.Failures() - failures);
    }
    FilesWritten(d0, fs.disk, fs.owned, h, d);
    if n > 0 { ContentIs(fs, file.inode); }
    Wrote(s, h, pos, data, file.inode.denyWriteCnt != 0, n, View(fs), d0, fs.disk, fs.owned, d);
  }

  lemma Wrote(s: State, h: nat, pos: nat, data: seq<byte>, denied: bool, n: nat, t: State, d0: seq<byte>, d1: seq<byte>,
              hs: set<nat>, d: Header)
    requires s.failures <= t.failures && h in s.files && n <= |data| && Fits(d0, d) && Fits(d1, d)
    requires n == if denied then 0 else Moved(Available(|data|, pos, d.length), pos, t.failures == s.failures)
    requires t.asked - s.asked == if !denied && NeedsBounce(Available(|data|, pos, d.length), pos) then 1 else 0
    requires s.files[h] == Stored(d, Data(d0, d)) && (n == 0 ==> d1 == d0)
    requires n > 0 ==> pos + n <= d.length && Data(d1, d) == Splice(Data(d0, d), pos, data[..n])
    requires t == s.(asked := t.asked, failures := t.failures, files := s.files[h := Stored(d, Data(d1, d))])
    ensures WrittenAs(s, h, pos, data, denied, n, t)
  {
    hide Moved, Available, Splice;
    assert n == 0 ==> s.files[h := Stored(d, Data(d1, d))] == s.files;
  }

  // ---- The same, with the table of handles. ----

  lemma AbsIs(fs: FileSys, table: seq<File?>)
    ensures Abs(fs, table) == View(fs).(table := TableOf(table))
  {
  }

  // The sectors of the files that some handle is open on.
  ghost predicate HeldAre(s: State, sectors: set<nat>) {
    forall h: nat :: h >= 2 ==> (Held(s, h) <==> h in sectors)
  }

  lemma AllHeld(fs: FileSys, table: seq<File?>)
    requires fs.Valid() && fs.Refs(null, null) && TableOk(fs, table)
    ensures HeldAre(Abs(fs, table), Listed(fs))
  {
    forall h: nat | h >= 2
      ensures Held(Abs(fs, table), h) <==> h in Listed(fs)
    {
      HeldIsOpen(fs, table, h);
    }
  }

  method PerformCreate(fs: FileSys, table: seq<File?>, name: seq<byte>, size: int) returns (ghost out: Out)
    requires fs.Valid() && fs.Refs(null, null) && WellFormed(OpCreate(name, size))
    modifies fs`disk, fs`freeMap, fs`loose, fs`owned, fs`openInodes, fs.Inodes(), fs.supply
    ensures fs.Valid() && fs.Refs(null, null)
    ensures forall n :: n in fs.Inodes() ==> n in old(fs.Inodes()) || fresh(n)
    ensures StepOk(old(Abs(fs, table)), OpCreate(name, size), out, Abs(fs, table))
  {
    hide *;
    AbsIs(fs, table);
    ghost var s := View(fs);
    out := CreateFile(fs, name, size);
    AbsIs(fs, table);
    CreateStep(s, name, size, out, View(fs), TableOf(table));
  }

  lemma CreateStep(s: State, name: seq<byte>, size: int, out: Out, t: State, table: seq<Handle>)
    requires StepOk(s, OpCreate(name, size), out, t)
    ensures StepOk(s.(table := table), OpCreate(name, size), out, t.(table := table))
  {
    hide Placed, MarkedBy, LeakedBy, Entered, NewName, Refused, Room, NameOk;
  }

  method PerformRemove(fs: FileSys, table: seq<File?>, name: seq<byte>) returns (ghost out: Out)
    requires fs.Valid() && fs.Refs(null, null) && TableOk(fs, table)
    modifies fs`disk, fs`freeMap, fs`loose, fs`owned, fs`openInodes, fs.Inodes(), fs.supply
    ensures fs.Valid() && fs.Refs(null, null)
    ensures forall n :: n in fs.Inodes() ==> n in old(fs.Inodes()) || fresh(n)
    ensures StepOk(old(Abs(fs, table)), OpRemove(name), out, Abs(fs, table))
  {
    hide *;
    AbsIs(fs, table);
    AllHeld(fs, table);
    ghost var s, listed := View(fs), Listed(fs);
    ghost var ok, slot, h;
    ok, slot, h := RemoveFile(fs, name);
    out := Gone(ok, slot, h);
    AbsIs(fs, table);
    RemoveStep(s, name, ok, slot, h, listed, View(fs), TableOf(table));
  }

  lemma RemoveStep(s: State, name: seq<byte>, ok: bool, slot: nat, h: nat, listed: set<nat>, t: State, table: seq<Handle>)
    requires RemovedAs(s, name, ok, slot, h, h in listed, t) && HeldAre(s.(table := table), listed)
    ensures StepOk(s.(table := table), OpRemove(name), Gone(ok, slot, h), t.(table := table))
  {
    hide HasName, FirstMatch, Names, Erased, Freed, Held;
  }

  method PerformOpen(fs: FileSys, table: seq<File?>, name: seq<byte>) returns (table': seq<File?>, ghost out: Out)
    requires fs.Valid() && fs.Refs(null, null) && TableOk(fs, table)
    modifies fs, fs.Inodes(), fs.supply
    ensures fs.Valid() && fs.Refs(null, null) && TableOk(fs, table')
    ensures forall n :: n in fs.Inodes() ==> n in old(fs.Inodes()) || fresh(n)
    ensures forall f :: f in fs.handles ==> f in old(fs.handles) || fresh(f)
    ensures StepOk(old(Abs(fs, table)), OpOpen(name), out, Abs(fs, table'))
  {
    hide *;
    IsTable(fs, table);
    AbsIs(fs, table);
    AllHeld(fs, table);
    ghost var s, handles, listed := View(fs), fs.handles, Listed(fs);
    var file;
    ghost var k;
    file, k := OpenFile(fs, name);
    table' := table + [file];
    out := Found(k);
    TablePlus(handles, fs.freeMapFile, table, file);
    TableIsOk(fs, table');
    AbsIs(fs, table');
    TableOfPlus(table, file);
    OpenStep(s, name, k, file, listed, View(fs), TableOf(table));
  }

  lemma IsTable(fs: FileSys, table: seq<File?>)
    requires TableOk(fs, table)
    ensures TableIs(fs.handles, fs.freeMapFile, table)
    ensures fs.Valid() ==> fs.freeMapFile in fs.handles && fs.freeMapFile != null && fs.freeMapFile.inode.sector == 0
  {
  }

  lemma TableIsOk(fs: FileSys, table: seq<File?>)
    requires TableIs(fs.handles, fs.freeMapFile, table)
    ensures TableOk(fs, table)
  {
  }

  lemma TableOfPlus(table: seq<File?>, file: File?)
    ensures TableOf(table + [file]) == TableOf(table) + [HandleOf(file)]
  {
  }

  lemma OpenStep(s: State, name: seq<byte>, k: nat, file: File?, listed: set<nat>, t: State, table: seq<Handle>)
    requires OpenedAs(s, name, k, if file == null then 0 else file.inode.sector, file != null,
                      file != null && file.inode.sector in listed, t)
    requires HeldAre(s.(table := table), listed) && (file != null ==> file.inode.sector >= 2)
    requires file != null ==> file.pos == 0 && !file.denyWrite
    ensures StepOk(s.(table := table), OpOpen(name), Found(k), t.(table := table + [HandleOf(file)]))
  {
    hide FirstMatch, Names, HasName;
    assert (table + [HandleOf(file)])[..|table|] == table;
  }

  lemma TablePlus(handles: set<File>, kernels: File?, table: seq<File?>, f: File?)
    requires TableIs(handles, kernels, table) && f !in handles && (f != null ==> f != kernels)
    ensures TableIs(if f == null then handles else handles + {f}, kernels, table + [f])
  {
    var t := table + [f];
    assert t[|table|] == f;
    forall g: File | g in handles && g != kernels
      ensures g in t
    {
      assert g in table;
    }
  }

  lemma TableMinus(handles: set<File>, kernels: File?, table: seq<File?>, fd: nat)
    requires TableIs(handles, kernels, table) && fd < |table| && table[fd] != null
    ensures TableIs(handles - {table[fd]}, kernels, table[fd := null])
  {
    var t := table[fd := null];
    forall g: File | g in handles && g != kernels && g != table[fd]
      ensures g in t
    {
      var i :| 0 <= i < |table| && table[i] == g;
      assert t[i] == g;
    }
  }

  method PerformClose(fs: FileSys, table: seq<File?>, fd: nat, file: File) returns (table': seq<File?>)
    requires fs.Valid() && fs.Refs(null, null) && TableOk(fs, table) && fd < |table| && table[fd] == file
    modifies fs, fs.Inodes(), file, fs.supply
    ensures fs.Valid() && fs.Refs(null, null) && TableOk(fs, table')
    ensures forall n :: n in fs.Inodes() ==> n in old(fs.Inodes()) || fresh(n)
    ensures fs.handles <= old(fs.handles)
    ensures StepOk(old(Abs(fs, table)), OpClose(fd), Nothing, Abs(fs, table'))
  {
    hide *;
    EntryOpen(fs, table, fd);
    IsTable(fs, table);
    OthersThere(table, fd);
    OnlyInode(fs, file.inode);
    OpenEntry(table, fd);
    AbsIs(fs, table);
    ghost var s, handles, before := View(fs), fs.handles, TableOf(table);
    CloseFile(fs, file);
    table' := table[fd := null];
    TableMinus(handles, fs.freeMapFile, table, fd);
    TableIsOk(fs, table');
    AbsIs(fs, table');
    IsTable(fs, table');
    NoHandle();
    TableOfIs(table', before[fd := Closed]);
    HeldIsStill(fs, table', file.inode, handles);
    CloseStep(s, fd, file.inode.sector, !fs.StillOpen(file.inode), View(fs), before);
  }

  lemma OpenEntry(table: seq<File?>, fd: nat)
    requires fd < |table| && table[fd] != null
    ensures TableOf(table)[fd] == Open(table[fd].inode.sector, table[fd].pos, table[fd].denyWrite) == HandleOf(table[fd])
  {
  }

  lemma OthersThere(table: seq<File?>, fd: nat)
    requires fd < |table| && table[fd] != null && exists handles, kernels :: TableIs(handles, kernels, table)
    ensures forall i :: 0 <= i < |table| && i != fd ==> table[i] != table[fd]
  {
  }

  // No other inode that is open has the sector of n.
  ghost predicate OnlyOne(handles: set<File>, n: Inode) {
    forall f: File :: f in handles && f.inode.sector == n.sector ==> f.inode == n
  }

  lemma OnlyInode(fs: FileSys, n: Inode)
    requires fs.Valid() && n in fs.openInodes
    ensures OnlyOne(fs.handles, n)
  {
    forall f: File | f in fs.handles && f.inode.sector == n.sector
      ensures f.inode == n
    {
      SameSectorSameInode(fs, f.inode, n);
    }
  }

  lemma HeldIsStill(fs: FileSys, table: seq<File?>, n: Inode, handles: set<File>)
    requires TableOk(fs, table) && fs.handles <= handles && OnlyOne(handles, n) && n.sector >= 2
    requires fs.freeMapFile != null && fs.freeMapFile.inode.sector == 0
    ensures Held(Abs(fs, table), n.sector) <==> fs.StillOpen(n)
  {
    var s := Abs(fs, table);
    if i :| 0 <= i < |table| && s.table[i].Open? && s.table[i].sector == n.sector {
      assert table[i] in fs.handles && table[i].inode == n;
    }
    if f :| f in fs.handles && f.inode == n {
      var i :| 0 <= i < |table| && table[i] == f;
      assert s.table[i].Open? && s.table[i].sector == n.sector;
    }
  }

  lemma TableOfIs(table: seq<File?>, r: seq<Handle>)
    requires |r| == |table| && forall i :: 0 <= i < |table| ==> HandleOf(table[i]) == r[i]
    ensures TableOf(table) == r
  {
  }

  lemma NoHandle()
    ensures HandleOf(null) == Closed
  {
  }

  lemma CloseStep(s: State, fd: nat, h: nat, last: bool, t: State, table: seq<Handle>)
    requires fd < |table| && table[fd].Open? && table[fd].sector == h && ClosedAs(s, h, last, t)
    requires last <==> !Held(t.(table := table[fd := Closed]), h)
    ensures StepOk(s.(table := table), OpClose(fd), Nothing, t.(table := table[fd := Closed]))
  {
    hide Freed, Held;
  }

  method PerformRead(fs: FileSys, table: seq<File?>, fd: nat, file: File, size: nat) returns (bytes: seq<byte>)
    requires fs.Valid() && fs.Refs(null, null) && TableOk(fs, table) && fd < |table| && table[fd] == file
    modifies file`pos, fs.supply
    ensures fs.Valid() && fs.Refs(null, null)
    ensures StepOk(old(Abs(fs, table)), OpRead(fd, size), Got(bytes), Abs(fs, table))
  {
    hide *;
    ghost var s, before, h := View(fs), TableOf(table), file.inode.sector;
    AtHandle(fs, table, fd, file);
    AbsIs(fs, table);
    bytes := ReadFile(fs, file, size);
    forall i | 0 <= i < |table| && i != fd
      ensures HandleOf(table[i]) == before[i]
    {
    }
    HandleChanged(fs, table, fd, file, before);
    ReadStep(s, fd, h, size, bytes, View(fs), before);
  }

  // The handle at fd, and its place in the table.
  lemma AtHandle(fs: FileSys, table: seq<File?>, fd: nat, file: File)
    requires fs.Valid() && TableOk(fs, table) && fd < |table| && table[fd] == file
    ensures file in fs.handles && file != fs.freeMapFile && file.inode in fs.openInodes && file.inode in fs.Inodes()
    ensures file.inode.sector >= 2 && TableOf(table)[fd] == Open(file.inode.sector, file.pos, file.denyWrite)
    ensures (forall i :: 0 <= i < |table| && i != fd ==> table[i] != file)
    ensures |TableOf(table)| == |table| && forall i :: 0 <= i < |table| ==> TableOf(table)[i] == HandleOf(table[i])
  {
    EntryOpen(fs, table, fd);
    IsTable(fs, table);
    OthersThere(table, fd);
  }

  lemma HandleChanged(fs: FileSys, table: seq<File?>, fd: nat, file: File, before: seq<Handle>)
    requires fd < |table| == |before| && table[fd] == file
    requires forall i :: 0 <= i < |table| && i != fd ==> HandleOf(table[i]) == before[i]
    ensures Abs(fs, table) == View(fs).(table := before[fd := Open(file.inode.sector, file.pos, file.denyWrite)])
  {
    TableOfIs(table, before[fd := HandleOf(file)]);
  }

  lemma ReadStep(s: State, fd: nat, h: nat, size: int, bytes: seq<byte>, t: State, table: seq<Handle>)
    requires fd < |table| && table[fd].Open? && table[fd].sector == h && ReadAs(s, h, table[fd].pos, size, bytes, t)
    ensures StepOk(s.(table := table), OpRead(fd, size), Got(bytes),
                   t.(table := table[fd := table[fd].(pos := table[fd].pos + |bytes|)]))
  {
    hide Moved, Available;
  }

  method PerformWrite(fs: FileSys, table: seq<File?>, fd: nat, file: File, data: seq<byte>) returns (n: nat)
    requires fs.Valid() && fs.Refs(null, null) && TableOk(fs, table) && fd < |table| && table[fd] == file
    modifies fs`disk, file`pos, fs.supply
    ensures fs.Valid() && fs.Refs(null, null)
    ensures StepOk(old(Abs(fs, table)), OpWrite(fd, data), Put(n), Abs(fs, table))
  {
    hide *;
    ghost var s, before, h := View(fs), TableOf(table), file.inode.sector;
    AtHandle(fs, table, fd, file);
    DeniedIsCounted(fs, table, file.inode);
    AbsIs(fs, table);
    AbsIs(fs, table);
    n := WriteFile(fs, file, data);
    forall i | 0 <= i < |table| && i != fd
      ensures HandleOf(table[i]) == before[i]
    {
    }
    HandleChanged(fs, table, fd, file, before);
    WriteStep(s, fd, h, data, n, View(fs), before);
  }

  lemma WriteStep(s: State, fd: nat, h: nat, data: seq<byte>, n: nat, t: State, table: seq<Handle>)
    requires fd < |table| && table[fd].Open? && table[fd].sector == h
    requires WrittenAs(s, h, table[fd].pos, data, Denied(s.(table := table), h), n, t)
    ensures StepOk(s.(table := table), OpWrite(fd, data), Put(n),
                   t.(table := table[fd := table[fd].(pos := table[fd].pos + n)]))
  {
    hide Moved, Available, Denied, Splice;
  }

  method PerformDeny(fs: FileSys, table: seq<File?>, fd: nat, file: File, denies: bool)
    requires fs.Valid() && fs.Refs(null, null) && TableOk(fs, table) && fd < |table| && table[fd] == file
    modifies file, fs.Inodes()
    ensures fs.Valid() && fs.Refs(null, null)
    ensures Abs(fs, table) == View(fs).(table := old(TableOf(table))[fd := Open(file.inode.sector, old(file.pos), denies)])
    ensures View(fs) == old(View(fs))
  {
    hide *;
    ghost var before := TableOf(table);
    AtHandle(fs, table, fd, file);
    DenyFile(fs, file, denies);
    forall i | 0 <= i < |table| && i != fd
      ensures HandleOf(table[i]) == before[i]
    {
    }
    HandleChanged(fs, table, fd, file, before);
  }

  method DenyFile(fs: FileSys, file: File, denies: bool)
    requires fs.Valid() && fs.Refs(null, null) && file in fs.handles && file != fs.freeMapFile && file.inode in fs.Inodes()
    modifies file`denyWrite, file.inode`denyWriteCnt
    ensures fs.Valid() && fs.Refs(null, null) && file.denyWrite == denies && View(fs) == old(View(fs))
  {
    hide FileSys.Core, ValidDir, RootData, FilesOf, Sectors, FileSys.UserHandles, FileSys.NamedIn, FileSys.Valid;
    fs.NamesNow();
    fs.ValidIsCore();
    if denies {
      fs.DenyWrite(file);
    } else {
      fs.AllowWrite(file);
    }
    fs.StillValid(RootData(fs.disk));
  }

  // ---- Runs. ----

  predicate OnHandle(op: Op) {
    op.OpClose? || op.OpRead? || op.OpWrite? || op.OpDeny? || op.OpAllow?
  }

  function FdOf(op: Op): nat
    requires OnHandle(op)
  {
    match op
    case OpClose(fd) => fd
    case OpRead(fd, _) => fd
    case OpWrite(fd, _) => fd
    case OpDeny(fd) => fd
    case OpAllow(fd) => fd
  }

  function NoOut(op: Op): Out {
    if op.OpRead? then Got([]) else if op.OpWrite? then Put(0) else Nothing
  }

  // A call on a handle that is not open does nothing.
  lemma NotOpenStep(fs: FileSys, table: seq<File?>, op: Op)
    requires OnHandle(op) && !(FdOf(op) < |table| && table[FdOf(op)] != null)
    ensures StepOk(Abs(fs, table), op, NoOut(op), Abs(fs, table))
  {
  }

  lemma DenyStep(s: State, t: State, fd: nat, denies: bool, table: seq<Handle>, h: nat, pos: int)
    requires s.table == table && fd < |table| && table[fd].Open? && table[fd].sector == h && table[fd].pos == pos
    requires t == s.(table := table[fd := Open(h, pos, denies)])
    ensures denies ==> StepOk(s, OpDeny(fd), Nothing, t)
    ensures !denies ==> StepOk(s, OpAllow(fd), Nothing, t)
  {
  }

  method PerformOn(fs: FileSys, table: seq<File?>, op: Op, file: File) returns (table': seq<File?>, ghost out: Out)
    requires fs.Valid() && fs.Refs(null, null) && TableOk(fs, table) && WellFormed(op)
    requires OnHandle(op) && FdOf(op) < |table| && table[FdOf(op)] == file
    requires file in fs.handles && file.inode in fs.Inodes()
    modifies fs, fs.Inodes(), fs.handles, fs.supply
    ensures fs.Valid() && fs.Refs(null, null) && TableOk(fs, table')
    ensures forall n :: n in fs.Inodes() ==> n in old(fs.Inodes()) || fresh(n)
    ensures fs.handles <= old(fs.handles)
    ensures StepOk(old(Abs(fs, table)), op, out, Abs(fs, table'))
  {
    hide FileSys.Valid, FileSys.Refs, TableIs, TableOk, Abs, View, TableOf, StepOk, FileSys.Inodes;
    table', out := table, Nothing;
    match op {
      case OpClose(fd) =>
        table' := PerformClose(fs, table, fd, file);
      case OpRead(fd, size) =>
        var bytes := PerformRead(fs, table, fd, file, size);
        out := Got(bytes);
      case OpWrite(fd, data) =>
        var n := PerformWrite(fs, table, fd, file, data);
        out := Put(n);
      case OpDeny(fd) =>
        SetDenies(fs, table, fd, file, true);
      case OpAllow(fd) =>
        SetDenies(fs, table, fd, file, false);
    }
  }

  method SetDenies(fs: FileSys, table: seq<File?>, fd: nat, file: File, denies: bool)
    requires fs.Valid() && fs.Refs(null, null) && TableOk(fs, table) && fd < |table| && table[fd] == file
    modifies file, fs.Inodes()
    ensures fs.Valid() && fs.Refs(null, null)
    ensures denies ==> StepOk(old(Abs(fs, table)), OpDeny(fd), Nothing, Abs(fs, table))
    ensures !denies ==> StepOk(old(Abs(fs, table)), OpAllow(fd), Nothing, Abs(fs, table))
  {
    hide *;
    ghost var s, before, h, pos := Abs(fs, table), TableOf(table), file.inode.sector, file.pos;
    AbsIs(fs, table);
    AtHandle(fs, table, fd, file);
    PerformDeny(fs, table, fd, file, denies);
    DenyStep(s, Abs(fs, table), fd, denies, before, h, pos);
  }

  method Perform(fs: FileSys, table: seq<File?>, op: Op) returns (table': seq<File?>, ghost out: Out)
    requires fs.Valid() && fs.Refs(null, null) && TableOk(fs, table) && WellFormed(op)
    modifies fs, fs.Inodes(), fs.handles, fs.supply
    ensures fs.Valid() && fs.Refs(null, null) && TableOk(fs, table')
    ensures forall n :: n in fs.Inodes() ==> n in old(fs.Inodes()) || fresh(n)
    ensures forall f :: f in fs.handles ==> f in old(fs.handles) || fresh(f)
    ensures StepOk(old(Abs(fs, table)), op, out, Abs(fs, table'))
  {
    hide *;
    table', out := table, Nothing;
    match op {
      case OpCreate(name, size) =>
        out := PerformCreate(fs, table, name, size);
      case OpRemove(name) =>
        out := PerformRemove(fs, table, name);
      case OpOpen(name) =>
        table', out := PerformOpen(fs, table, name);
      case _ =>
        OnHandleIs(op);
        if FdOf(op) < |table| && table[FdOf(op)] != null {
          AtHandle(fs, table, FdOf(op), table[FdOf(op)]);
          table', out := PerformOn(fs, table, op, table[FdOf(op)]);
        } else {
          NotOpenStep(fs, table, op);
          out := NoOut(op);
        }
    }
  }

  lemma OnHandleIs(op: Op)
    ensures OnHandle(op) <==> !op.OpCreate? && !op.OpRemove? && !op.OpOpen?
  {
  }

  // What every state of a run is like: files have sectors of their own, which
  // are marked; handles and entries are of files there are; and a file that
  // has been removed has a handle and no entry.
  ghost predicate StateOk(s: State) {
    && (forall h :: h in s.files ==> h >= 2 && FileOk(s.used, h, s.files[h]))
    && (forall h, k :: h in s.files && k in s.files && h != k ==> FilesApart(h, s.files[h].header, k, s.files[k].header))
    && (forall i :: 0 <= i < |s.table| && s.table[i].Open? ==> s.table[i].sector in s.files && s.table[i].pos >= 0)
    && (forall h :: h in s.removed ==> h in s.files && Held(s, h) && !Named(s.dir, h))
    && NamesFiles(s.dir, s.files) && ValidDir(s.dir)
  }

  ghost predicate FileOk(used: seq<bool>, h: nat, f: Stored) {
    && |f.bytes| == f.header.length
    && forall x: nat :: x == h || InExtent(f.header, x) ==> x < |used| && used[x]
  }

  ghost predicate FilesApart(h: nat, d: Header, k: nat, e: Header) {
    forall x: nat :: !((x == h || InExtent(d, x)) && (x == k || InExtent(e, x)))
  }

  lemma FilesOk(disk: seq<byte>, used: seq<bool>, owned: set<nat>, loose: set<nat>)
    requires Accounted(disk, used, owned, loose)
    ensures var files := FilesOf(disk, owned);
            && (forall h :: h in files ==> h >= 2 && FileOk(used, h, files[h]))
            && (forall h, k :: h in files && k in files && h != k ==> FilesApart(h, files[h].header, k, files[k].header))
  {
    var files := FilesOf(disk, owned);
    forall h | h in files
      ensures FileOk(used, h, files[h])
    {
      assert Marked(disk, used, h);
      assert forall x: nat :: Owns(disk, h, x) <==> x == h || InExtent(files[h].header, x);
    }
    forall h, k | h in files && k in files && h != k
      ensures FilesApart(h, files[h].header, k, files[k].header)
    {
      assert Disjoint(disk, h, k);
      assert forall x: nat :: Owns(disk, h, x) <==> x == h || InExtent(files[h].header, x);
      assert forall x: nat :: Owns(disk, k, x) <==> x == k || InExtent(files[k].header, x);
    }
  }

  lemma HandlesOk(fs: FileSys, table: seq<File?>)
    requires fs.Valid() && TableOk(fs, table)
    ensures var s := Abs(fs, table);
            forall i :: 0 <= i < |s.table| && s.table[i].Open? ==> s.table[i].sector in s.files && s.table[i].pos >= 0
  {
    hide FileSys.Valid, FilesOf, TableOk, RootData, Sectors;
    var s := Abs(fs, table);
    forall i | 0 <= i < |s.table| && s.table[i].Open?
      ensures s.table[i].sector in s.files && s.table[i].pos >= 0
    {
      EntryOpen(fs, table, i);
      FileAt(fs.disk, fs.owned, table[i].inode.sector, table[i].inode.data);
    }
  }

  lemma RemovedOk(fs: FileSys, table: seq<File?>)
    requires fs.Valid() && fs.Refs(null, null) && TableOk(fs, table)
    ensures var s := Abs(fs, table); forall h :: h in s.removed ==> h in s.files && Held(s, h) && !Named(s.dir, h)
  {
    AllHeld(fs, table);
    var s := Abs(fs, table);
    forall n | n in fs.RemovedInodes()
      ensures n.sector in s.files && Held(s, n.sector) && !Named(s.dir, n.sector)
    {
      fs.OpenIs(n);
      FileAt(fs.disk, fs.owned, n.sector, n.data);
      assert n.sector in Listed(fs);
    }
  }

  lemma StateIsOk(fs: FileSys, table: seq<File?>)
    requires fs.Valid() && fs.Refs(null, null) && TableOk(fs, table)
    ensures StateOk(Abs(fs, table))
  {
    fs.SystemOwned();
    fs.NamesNow();
    hide FileSys.Valid, FileSys.Refs, TableOk, FilesOf, FileOk, FilesApart, Held, NamesFiles, ValidDir, Named, RootData, Sectors,
      Accounted;
    FilesOk(fs.disk, fs.freeMap, fs.owned, fs.loose);
    HandlesOk(fs, table);
    RemovedOk(fs, table);
    NamedFiles(fs);
  }

  // The states a run went through, one call each.
  ghost predicate TraceOk(trace: seq<State>, ops: seq<Op>, outs: seq<Out>) {
    && |trace| == |ops| + 1 && |outs| == |ops|
    && forall n :: 0 <= n < |ops| ==> StepOk(trace[n], ops[n], outs[n], trace[n + 1])
  }

  // A state has behind it the requests it counts, of which so many were refused.
  ghost predicate Metered(answers: seq<bool>, s: State) {
    s.failures == Refusals(answers, s.asked)
  }

  lemma AbsMetered(fs: FileSys, table: seq<File?>)
    ensures Metered(fs.supply.answers, Abs(fs, table))
  {
  }

  // A run of any calls on a mounted file system goes step by step as StepOk
  // says, through states as StateOk says.
  method Run(fs: FileSys, ops: seq<Op>) returns (table: seq<File?>, ghost trace: seq<State>, ghost outs: seq<Out>)
    requires fs.Valid() && fs.Refs(null, null) && fs.handles == {fs.freeMapFile}
    requires forall op :: op in ops ==> WellFormed(op)
    modifies fs, fs.Inodes(), fs.handles, fs.supply
    ensures fs.Valid() && fs.Refs(null, null) && TableOk(fs, table)
    ensures TraceOk(trace, ops, outs) && trace[0] == old(Abs(fs, [])) && trace[|ops|] == Abs(fs, table)
    ensures forall n :: 0 <= n <= |ops| ==> StateOk(trace[n]) && Metered(fs.supply.answers, trace[n])
  {
    hide FileSys.Valid, FileSys.Refs, Abs, StepOk, StateOk, Metered, WellFormed, FileSys.Inodes;
    table, trace, outs := [], [Abs(fs, [])], [];
    StateIsOk(fs, table);
    AbsMetered(fs, table);
    var k := 0;
    while k < |ops|
      invariant k <= |ops| && fs.Valid() && fs.Refs(null, null) && TableOk(fs, table)
      invariant forall n :: n in fs.Inodes() ==> n in old(fs.Inodes()) || fresh(n)
      invariant forall f :: f in fs.handles ==> f in old(fs.handles) || fresh(f)
      invariant |trace| == k + 1 && |outs| == k && trace[0] == old(Abs(fs, [])) && trace[k] == Abs(fs, table)
      invariant forall n :: 0 <= n < k ==> StepOk(trace[n], ops[n], outs[n], trace[n + 1])
      invariant forall n :: 0 <= n <= k ==> StateOk(trace[n]) && Metered(fs.supply.answers, trace[n])
    {
      hide TableOk;
      ghost var out;
      table, out := Perform(fs, table, ops[k]);
      StateIsOk(fs, table);
      AbsMetered(fs, table);
      trace, outs := trace + [Abs(fs, table)], outs + [out];
      k := k + 1;
    }
  }

  // ---- What a run keeps. ----

  ghost predicate Sound(trace: seq<State>, ops: seq<Op>, outs: seq<Out>) {
    TraceOk(trace, ops, outs) && forall n :: 0 <= n < |trace| ==> StateOk(trace[n])
  }

  lemma SoundStep(trace: seq<State>, ops: seq<Op>, outs: seq<Out>, n: nat)
    requires Sound(trace, ops, outs) && n < |ops|
    ensures |trace| == |ops| + 1 && |outs| == |ops|
    ensures StepOk(trace[n], ops[n], outs[n], trace[n + 1]) && StateOk(trace[n]) && StateOk(trace[n + 1])
  {
    hide StepOk, StateOk;
  }

  // A handle stays open on its file until it is closed.
  lemma HandleStep(s: State, op: Op, out: Out, t: State, i: nat)
    requires StepOk(s, op, out, t) && IsOpen(s, i) && op != OpClose(i)
    ensures IsOpen(t, i) && t.table[i].sector == s.table[i].sector
  {
    hide Placed, MarkedBy, LeakedBy, Entered, NewName, Refused, Room, NameOk, FirstMatch, Names, HasName, Erased, Freed, Held,
      Denied, Moved, Available, Splice;
    if op.OpOpen? { assert t.table[..|s.table|][i] == s.table[i]; }
  }

  // A file stays, under the same header, as long as some handle is open on it;
  // its bytes change only when it is written through a handle on it.
  lemma FileStep(s: State, op: Op, out: Out, t: State, i: nat)
    requires StepOk(s, op, out, t) && StateOk(s) && IsOpen(s, i) && op != OpClose(i)
    ensures var h := s.table[i].sector;
            && h in s.files && h in t.files && t.files[h].header == s.files[h].header
            && (t.files[h] != s.files[h] ==> op.OpWrite? && IsOpen(s, op.fd) && s.table[op.fd].sector == h)
            && (h in s.removed ==> h in t.removed)
  {
    HandleStep(s, op, out, t, i);
    hide Placed, MarkedBy, LeakedBy, Entered, NewName, Refused, Room, NameOk, FirstMatch, Names, HasName, Erased, Freed,
      Moved, Available, Splice, FileOk, FilesApart, NamesFiles, ValidDir, Named, Denied;
    var h := s.table[i].sector;
    assert Held(s, h);
    assert t.table[i].Open? ==> Held(t, h);
  }

  // No call in the run from a to b closes handle i.
  ghost predicate Unclosed(ops: seq<Op>, a: nat, b: nat, i: nat) {
    b <= |ops| && forall n :: a <= n < b ==> ops[n] != OpClose(i)
  }

  lemma {:induction false} HandleStays(trace: seq<State>, ops: seq<Op>, outs: seq<Out>, a: nat, b: nat, i: nat)
    requires Sound(trace, ops, outs) && a <= b <= |ops| < |trace| && IsOpen(trace[a], i) && Unclosed(ops, a, b, i)
    ensures IsOpen(trace[b], i) && trace[b].table[i].sector == trace[a].table[i].sector
    decreases b - a
  {
    hide Sound, StepOk, StateOk, IsOpen;
    if a < b {
      HandleStays(trace, ops, outs, a, b - 1, i);
      SoundStep(trace, ops, outs, b - 1);
      HandleStep(trace[b - 1], ops[b - 1], outs[b - 1], trace[b], i);
    }
  }

  // Some call in the run from a to b writes to file h.
  ghost predicate WritesTo(trace: seq<State>, ops: seq<Op>, a: nat, b: nat, h: nat) {
    && a <= b <= |ops| <= |trace|
    && exists n :: a <= n < b && ops[n].OpWrite? && IsOpen(trace[n], ops[n].fd) && trace[n].table[ops[n].fd].sector == h
  }

  // Whoever has a file open can go on using it, removed or not: it stays with
  // its header, and with its bytes unless it is written to.
  lemma {:induction false} FileStays(trace: seq<State>, ops: seq<Op>, outs: seq<Out>, a: nat, b: nat, i: nat)
    requires Sound(trace, ops, outs) && a <= b <= |ops| < |trace| && IsOpen(trace[a], i) && Unclosed(ops, a, b, i)
    ensures var h := trace[a].table[i].sector;
            && h in trace[a].files && h in trace[b].files && trace[b].files[h].header == trace[a].files[h].header
            && (!WritesTo(trace, ops, a, b, h) ==> trace[b].files[h] == trace[a].files[h])
            && (h in trace[a].removed ==> h in trace[b].removed)
    decreases b - a
  {
    hide Sound, StepOk;
    var h := trace[a].table[i].sector;
    if a < b {
      FileStays(trace, ops, outs, a, b - 1, i);
      HandleStays(trace, ops, outs, a, b - 1, i);
      SoundStep(trace, ops, outs, b - 1);
      hide StateOk, IsOpen;
      FileStep(trace[b - 1], ops[b - 1], outs[b - 1], trace[b], i);
      if WritesTo(trace, ops, a, b - 1, h) {
        assert WritesTo(trace, ops, a, b, h);
      }
    } else {
      assert Sound(trace, ops, outs);
      OpenIsFile(trace, ops, outs, a, i);
    }
  }

  lemma OpenIsFile(trace: seq<State>, ops: seq<Op>, outs: seq<Out>, a: nat, i: nat)
    requires Sound(trace, ops, outs) && a < |trace| && IsOpen(trace[a], i)
    ensures trace[a].table[i].sector in trace[a].files
  {
    hide FileOk, FilesApart, NamesFiles, ValidDir, Named, StepOk;
    assert StateOk(trace[a]);
  }

  // A file leaves the removed ones only when its last handle is closed, and
  // then its sectors, all of them marked, are freed and no others are.
  ghost predicate LastClose(s: State, op: Op, t: State, h: nat) {
    && op.OpClose? && IsOpen(s, op.fd) && s.table[op.fd].sector == h && !Held(t, h)
    && h in s.files && h !in t.files && Freed(s.used, t.used, h, s.files[h].header)
  }

  lemma RemovedStep(s: State, op: Op, out: Out, t: State, h: nat)
    requires StepOk(s, op, out, t) && StateOk(s) && h in s.removed
    ensures if h in t.removed then h in s.files && h in t.files && t.files[h].header == s.files[h].header
            else LastClose(s, op, t, h)
  {
    hide Placed, MarkedBy, LeakedBy, Entered, NewName, Refused, Room, NameOk, FirstMatch, HasName, Erased, Freed,
      Moved, Available, Splice, FileOk, FilesApart, NamesFiles, ValidDir, Denied, Held;
    assert op.OpRemove? && out.ok ==> Named(s.dir, out.h);
  }

  // A file that has been removed while it was open: if it is gone at the end of
  // a run, some one call was the close of its last handle, up to which it was
  // there, and which freed its sectors.
  lemma {:induction false} ReleasedAtLastClose(trace: seq<State>, ops: seq<Op>, outs: seq<Out>, a: nat, b: nat, h: nat)
    returns (n: nat)
    requires Sound(trace, ops, outs) && a <= b <= |ops| < |trace| && h in trace[a].removed && h !in trace[b].removed
    ensures a <= n < b && LastClose(trace[n], ops[n], trace[n + 1], h)
    ensures forall m :: a <= m <= n ==> h in trace[m].removed && h in trace[m].files
    decreases b - a
  {
    hide Sound, StepOk, LastClose;
    SoundStep(trace, ops, outs, a);
    hide StateOk;
    RemovedStep(trace[a], ops[a], outs[a], trace[a + 1], h);
    RemovedIsFile(trace[a], h);
    if h in trace[a + 1].removed {
      n := ReleasedAtLastClose(trace, ops, outs, a + 1, b, h);
    } else {
      n := a;
    }
  }

  lemma RemovedIsFile(s: State, h: nat)
    requires StateOk(s) && h in s.removed
    ensures h in s.files
  {
  }

  // ---- Names. ----

  // What an open by that name will find.
  ghost predicate Finds(s: State, name: seq<byte>, h: nat) {
    exists k: nat :: FirstMatch(s.dir, k, name) && Names(s.dir, k, h)
  }

  lemma NamesEntered(before: seq<byte>, after: seq<byte>, slot: nat, name: seq<byte>, h: nat, other: seq<byte>)
    requires Entered(before, after, slot, name, h) && NewName(before, slot, name) && UniqueNames(before) && other != name
    ensures UniqueNames(after) && FirstMatch(after, slot, name) && Names(after, slot, h)
    ensures HasName(after, other) <==> HasName(before, other)
    ensures forall k: nat :: FirstMatch(before, k, other) ==> FirstMatch(after, k, other)
    ensures forall k: nat, x: nat :: k != slot && Names(before, k, x) ==> Names(after, k, x)
  {
    EnteredIsFound(before, after, slot, name, h);
    hide UniqueNames, CString, DecodeEntry;
    forall j: nat
      ensures Matches(after, j, other) == Matches(before, j, other)
    {
    }
  }

  lemma NamesErased(before: seq<byte>, after: seq<byte>, slot: nat, name: seq<byte>, other: seq<byte>)
    requires Erased(before, after, slot) && FirstMatch(before, slot, name) && UniqueNames(before) && other != name
    ensures UniqueNames(after) && !HasName(after, name)
    ensures HasName(after, other) <==> HasName(before, other)
    ensures forall k: nat :: FirstMatch(before, k, other) ==> FirstMatch(after, k, other)
    ensures forall k: nat, x: nat :: k != slot && Names(before, k, x) ==> Names(after, k, x)
  {
    ErasedIsGone(before, after, slot, name);
    hide UniqueNames, CString, DecodeEntry;
    forall j: nat
      ensures Matches(after, j, other) == Matches(before, j, other)
    {
    }
  }

  // Without a refused request names stay unique, and a name comes and goes
  // only by its own creation and removal.
  lemma NamesStep(s: State, op: Op, out: Out, t: State, name: seq<byte>, h: nat)
    requires StepOk(s, op, out, t) && t.failures == s.failures && UniqueNames(s.dir)
    ensures UniqueNames(t.dir)
    ensures Finds(s, name, h) && op != OpRemove(name) ==> Finds(t, name, h)
    ensures !HasName(s.dir, name) && !(op.OpCreate? && op.name == name) ==> !HasName(t.dir, name)
  {
    hide Placed, MarkedBy, LeakedBy, Room, NameOk, Freed, Held, Moved, Available, Splice, Denied, UniqueNames, Matches, Names,
      Entered, Erased, NewName, Refused;
    if op.OpCreate? && out.ok {
      CreateNames(s, op.name, out.slot, out.h, t, name, h);
    } else if op.OpRemove? && out.ok {
      RemoveNames(s, op.name, out.slot, t, name, h);
    }
  }

  lemma CreateNames(s: State, made: seq<byte>, slot: nat, x: nat, t: State, name: seq<byte>, h: nat)
    requires Entered(s.dir, t.dir, slot, made, x) && NewName(s.dir, slot, made) && UniqueNames(s.dir)
    ensures UniqueNames(t.dir)
    ensures Finds(s, name, h) ==> Finds(t, name, h)
    ensures made != name && !HasName(s.dir, name) ==> !HasName(t.dir, name)
  {
    NamesEntered(s.dir, t.dir, slot, made, x, if made == name then made + [1] else name);
    if k: nat :| FirstMatch(s.dir, k, name) && Names(s.dir, k, h) {
      assert name != made by { assert Matches(s.dir, k, name); }
      assert k != slot;
      hide UniqueNames, Matches, Names, Entered, NewName, FirstMatch;
      assert FirstMatch(t.dir, k, name) && Names(t.dir, k, h);
    }
  }

  lemma RemoveNames(s: State, gone: seq<byte>, slot: nat, t: State, name: seq<byte>, h: nat)
    requires Erased(s.dir, t.dir, slot) && FirstMatch(s.dir, slot, gone) && UniqueNames(s.dir)
    ensures UniqueNames(t.dir)
    ensures Finds(s, name, h) && gone != name ==> Finds(t, name, h)
    ensures !HasName(s.dir, name) ==> !HasName(t.dir, name)
  {
    NamesErased(s.dir, t.dir, slot, gone, if gone == name then gone + [1] else name);
    if k: nat :| gone != name && FirstMatch(s.dir, k, name) && Names(s.dir, k, h) {
      assert k != slot;
      hide UniqueNames, Matches, Names, Erased, FirstMatch;
      assert FirstMatch(t.dir, k, name) && Names(t.dir, k, h);
    }
  }

  // So it begins: a directory as it is formatted has no names at all.
  lemma NoNamesYet()
    ensures UniqueNames(Zeros(320)) && forall name: seq<byte> :: !HasName(Zeros(320), name)
  {
    forall k: nat | 20 * k + 20 <= 320
      ensures !EntryAt(Zeros(320), k).inUse
    {
      ZeroDirIsEmpty(320, k);
    }
    hide CString, EntryAt;
  }

  // Memory was refused to nobody from a to b.
  ghost predicate Sufficed(trace: seq<State>, a: nat, b: nat) {
    a <= b < |trace| && trace[a].failures == trace[b].failures
  }

  lemma {:induction false} FailuresGrow(trace: seq<State>, ops: seq<Op>, outs: seq<Out>, a: nat, b: nat)
    requires TraceOk(trace, ops, outs) && a <= b <= |ops|
    ensures trace[a].failures <= trace[b].failures
    decreases b - a
  {
    if a < b {
      FailuresGrow(trace, ops, outs, a, b - 1);
      assert StepOk(trace[b - 1], ops[b - 1], outs[b - 1], trace[b]);
    }
  }

  // Over a run that is never short of memory, a name goes on standing for the
  // same file as long as it is not removed, and for none as long as none is made.
  lemma {:induction false} NamesStay(trace: seq<State>, ops: seq<Op>, outs: seq<Out>, a: nat, b: nat, name: seq<byte>, h: nat)
    requires TraceOk(trace, ops, outs) && a <= b <= |ops| && Sufficed(trace, a, b) && UniqueNames(trace[a].dir)
    ensures UniqueNames(trace[b].dir)
    ensures Finds(trace[a], name, h) && (forall n :: a <= n < b ==> ops[n] != OpRemove(name)) ==> Finds(trace[b], name, h)
    ensures !HasName(trace[a].dir, name) && (forall n :: a <= n < b ==> !(ops[n].OpCreate? && ops[n].name == name)) ==>
              !HasName(trace[b].dir, name)
    decreases b - a
  {
    hide StepOk, Finds, HasName, UniqueNames;
    if a < b {
      FailuresGrow(trace, ops, outs, a, b - 1);
      FailuresGrow(trace, ops, outs, b - 1, b);
      NamesStay(trace, ops, outs, a, b - 1, name, h);
      NamesStep(trace[b - 1], ops[b - 1], outs[b - 1], trace[b], name, h);
    }
  }

  lemma TraceSteps(trace: seq<State>, ops: seq<Op>, outs: seq<Out>, a: nat, b: nat)
    requires TraceOk(trace, ops, outs) && a < b < |ops| && Sufficed(trace, a, b + 1)
    ensures |trace| == |ops| + 1 && |outs| == |ops|
    ensures StepOk(trace[a], ops[a], outs[a], trace[a + 1]) && StepOk(trace[b], ops[b], outs[b], trace[b + 1])
    ensures trace[a + 1].failures == trace[a].failures && trace[b + 1].failures == trace[b].failures
    ensures Sufficed(trace, a + 1, b)
  {
    hide StepOk;
    FailuresGrow(trace, ops, outs, a, a + 1);
    FailuresGrow(trace, ops, outs, a + 1, b);
    FailuresGrow(trace, ops, outs, b, b + 1);
  }

  // Open finds the file that was created by the name ...
  lemma OpenAfterCreate(trace: seq<State>, ops: seq<Op>, outs: seq<Out>, a: nat, b: nat, name: seq<byte>, size: int)
    requires TraceOk(trace, ops, outs) && a < b < |ops| && Sufficed(trace, a, b + 1) && UniqueNames(trace[a].dir)
    requires ops[a] == OpCreate(name, size) && outs[a].Created? && outs[a].ok && ops[b] == OpOpen(name)
    requires forall n :: a < n < b ==> ops[n] != OpRemove(name)
    ensures var i := |trace[b].table|; IsOpen(trace[b + 1], i) && trace[b + 1].table[i] == Open(outs[a].h, 0, false)
  {
    hide StepOk, Finds, UniqueNames, TraceOk;
    TraceSteps(trace, ops, outs, a, b);
    CreateFinds(trace[a], name, size, outs[a], trace[a + 1]);
    NamesStay(trace, ops, outs, a + 1, b, name, outs[a].h);
    OpenFinds(trace[b], name, outs[b], trace[b + 1], outs[a].h);
  }

  lemma CreateFinds(s: State, name: seq<byte>, size: int, out: Out, t: State)
    requires StepOk(s, OpCreate(name, size), out, t) && out.Created? && out.ok && t.failures == s.failures && UniqueNames(s.dir)
    ensures Finds(t, name, out.h) && UniqueNames(t.dir)
  {
    hide Placed, MarkedBy, LeakedBy, Room, NameOk, UniqueNames, Matches, Names, Entered, NewName, Refused, FirstMatch;
    NamesEntered(s.dir, t.dir, out.slot, name, out.h, name + [1]);
  }

  lemma OpenFinds(s: State, name: seq<byte>, out: Out, t: State, h: nat)
    requires StepOk(s, OpOpen(name), out, t) && t.failures == s.failures && Finds(s, name, h)
    ensures var i := |s.table|; IsOpen(t, i) && t.table[i] == Open(h, 0, false)
  {
    hide UniqueNames, CString, DecodeEntry;
    var k: nat :| FirstMatch(s.dir, k, name) && Names(s.dir, k, h);
    assert Matches(s.dir, k, name);
    assert HasName(s.dir, name);
    assert Matches(s.dir, out.slot, name);
    assert out.slot == k;
  }

  // ... and nothing once that name has been removed.
  lemma OpenAfterRemove(trace: seq<State>, ops: seq<Op>, outs: seq<Out>, a: nat, b: nat, name: seq<byte>)
    requires TraceOk(trace, ops, outs) && a < b < |ops| && Sufficed(trace, a, b + 1) && UniqueNames(trace[a].dir)
    requires ops[a] == OpRemove(name) && outs[a].Gone? && outs[a].ok && ops[b] == OpOpen(name)
    requires forall n :: a < n < b ==> !(ops[n].OpCreate? && ops[n].name == name)
    ensures var i := |trace[b].table|; i < |trace[b + 1].table| && trace[b + 1].table[i] == Closed
  {
    hide StepOk, Finds, UniqueNames, HasName, TraceOk;
    TraceSteps(trace, ops, outs, a, b);
    RemoveLoses(trace[a], name, outs[a], trace[a + 1]);
    NamesStay(trace, ops, outs, a + 1, b, name, 0);
    OpenMisses(trace[b], name, outs[b], trace[b + 1]);
  }

  lemma RemoveLoses(s: State, name: seq<byte>, out: Out, t: State)
    requires StepOk(s, OpRemove(name), out, t) && out.Gone? && out.ok && UniqueNames(s.dir)
    ensures !HasName(t.dir, name) && UniqueNames(t.dir)
  {
    hide UniqueNames, Matches, Names, Erased, FirstMatch, Freed, Held;
    NamesErased(s.dir, t.dir, out.slot, name, name + [1]);
  }

  lemma OpenMisses(s: State, name: seq<byte>, out: Out, t: State)
    requires StepOk(s, OpOpen(name), out, t) && t.failures == s.failures && !HasName(s.dir, name)
    ensures |t.table| == |s.table| + 1 && t.table[|s.table|] == Closed
  {
    hide HasName, FirstMatch, Names;
  }

  // ---- Runs with memory for every request. ----

  // How much a read or a write moves then.
  ghost function ReadCount(s: State, fd: nat, size: int): nat {
    if IsOpen(s, fd) && s.table[fd].pos >= 0 && s.table[fd].sector in s.files
    then Available(size, s.table[fd].pos, |s.files[s.table[fd].sector].bytes|) else 0
  }

  ghost function WriteCount(s: State, fd: nat, size: int): nat {
    if IsOpen(s, fd) && Denied(s, s.table[fd].sector) then 0 else ReadCount(s, fd, size)
  }

  // What becomes of a call is then decided by the files and handles alone.
  ghost predicate Served(s: State, op: Op, out: Out, t: State) {
    match op
    case OpCreate(name, size) =>
      out.Created? && 0 <= size && (out.ok <==> Room(s.used, size) && !Refused(s.dir, name))
      && (out.leaked <==> Room(s.used, size) && Refused(s.dir, name))
    case OpRemove(name) => out.Gone? && (out.ok <==> HasName(s.dir, name))
    case OpOpen(name) => |t.table| == |s.table| + 1 && (IsOpen(t, |s.table|) <==> HasName(s.dir, name))
    case OpRead(fd, size) => out.Got? && |out.bytes| == ReadCount(s, fd, size)
    case OpWrite(fd, data) => out.Put? && out.n == WriteCount(s, fd, |data|)
    case _ => true
  }

  lemma StepServed(s: State, op: Op, out: Out, t: State)
    requires StepOk(s, op, out, t) && t.failures == s.failures
    ensures Served(s, op, out, t)
  {
    hide Room, Refused, HasName, Placed, MarkedBy, LeakedBy, Entered, NewName, NameOk, FirstMatch, Names, Erased, Freed,
      Held, Denied, Available, Splice;
  }

  // As long as no request is refused the file of the free map goes with it.
  lemma {:induction false} MapFileStays(trace: seq<State>, ops: seq<Op>, outs: seq<Out>, a: nat, b: nat)
    requires TraceOk(trace, ops, outs) && a <= b <= |ops| && MapInFile(trace[a])
    requires trace[a].failures == trace[b].failures
    ensures MapInFile(trace[b])
    decreases b - a
  {
    hide StepOk, MapInFile;
    if a < b {
      FailuresGrow(trace, ops, outs, a, b - 1);
      FailuresGrow(trace, ops, outs, b - 1, b);
      MapFileStays(trace, ops, outs, a, b - 1);
      FollowsStep(trace[b - 1], ops[b - 1], outs[b - 1], trace[b]);
    }
  }

  lemma FollowsStep(s: State, op: Op, out: Out, t: State)
    requires StepOk(s, op, out, t)
    ensures MapFollows(s, t)
  {
  }

  // Then each sector's bit is in its place there.
  lemma MapBits(s: State, j: nat, i: nat)
    requires MapInFile(s) && i < 8 && 8 * j + i < |s.used|
    ensures j < |s.mapFile| && Bitmap.Bit(s.mapFile[j], i) == s.used[8 * j + i]
  {
    Bitmap.ImageRoundTrip(s.used, j, i);
    hide Bitmap.Bit;
  }

  // A run in which every request is granted: nothing fails but for the reasons
  // Served gives, and names stay unique.
  method RunWithMemory(fs: FileSys, ops: seq<Op>) returns (table: seq<File?>, ghost trace: seq<State>, ghost outs: seq<Out>)
    requires fs.Valid() && fs.Refs(null, null) && fs.handles == {fs.freeMapFile} && Plentiful(fs.supply.answers)
    requires forall op :: op in ops ==> WellFormed(op)
    modifies fs, fs.Inodes(), fs.handles, fs.supply
    ensures fs.Valid() && fs.Refs(null, null) && TableOk(fs, table)
    ensures Sound(trace, ops, outs) && trace[0] == old(Abs(fs, [])) && trace[|ops|] == Abs(fs, table)
    ensures forall n :: 0 <= n < |ops| ==> Served(trace[n], ops[n], outs[n], trace[n + 1])
    ensures forall a, b :: 0 <= a <= b <= |ops| ==> Sufficed(trace, a, b)
    ensures UniqueNames(old(RootData(fs.disk))) ==> forall n :: 0 <= n <= |ops| ==> UniqueNames(trace[n].dir)
    ensures MapInFile(old(Abs(fs, []))) ==> forall n :: 0 <= n <= |ops| ==> MapInFile(trace[n])
  {
    hide *;
    NoFailures(fs, []);
    table, trace, outs := Run(fs, ops);
    NoFailures(fs, table);
    RunSound(trace, ops, outs);
    AllServed(trace, ops, outs);
  }

  lemma NoFailures(fs: FileSys, table: seq<File?>)
    requires Plentiful(fs.supply.answers)
    ensures Abs(fs, table).failures == 0 && Abs(fs, table).dir == RootData(fs.disk)
  {
    NoneRefused(fs.supply.answers, fs.supply.asked);
  }

  lemma RunSound(trace: seq<State>, ops: seq<Op>, outs: seq<Out>)
    requires TraceOk(trace, ops, outs) && forall n :: 0 <= n <= |ops| ==> StateOk(trace[n])
    ensures Sound(trace, ops, outs) && |trace| == |ops| + 1 && |outs| == |ops|
  {
    hide StateOk, StepOk;
  }

  lemma AllServed(trace: seq<State>, ops: seq<Op>, outs: seq<Out>)
    requires Sound(trace, ops, outs) && |trace| == |ops| + 1 && |outs| == |ops|
    requires trace[0].failures == 0 == trace[|ops|].failures
    ensures forall n :: 0 <= n < |ops| ==> Served(trace[n], ops[n], outs[n], trace[n + 1])
    ensures forall a, b :: 0 <= a <= b <= |ops| ==> Sufficed(trace, a, b)
    ensures UniqueNames(trace[0].dir) ==> forall n :: 0 <= n <= |ops| ==> UniqueNames(trace[n].dir)
    ensures MapInFile(trace[0]) ==> forall n :: 0 <= n <= |ops| ==> MapInFile(trace[n])
  {
    hide StepOk, StateOk, Served, UniqueNames, MapInFile;
    forall n | 0 <= n <= |ops|
      ensures trace[n].failures == 0
    {
      FailuresGrow(trace, ops, outs, 0, n);
      FailuresGrow(trace, ops, outs, n, |ops|);
    }
    forall n | 0 <= n <= |ops|
      ensures UniqueNames(trace[0].dir) ==> UniqueNames(trace[n].dir)
    {
      if UniqueNames(trace[0].dir) { NamesStay(trace, ops, outs, 0, n, [], 0); }
    }
    forall n | 0 <= n <= |ops|
      ensures MapInFile(trace[0]) ==> MapInFile(trace[n])
    {
      if MapInFile(trace[0]) { MapFileStays(trace, ops, outs, 0, n); }
    }
    forall n | 0 <= n < |ops|
      ensures Served(trace[n], ops[n], outs[n], trace[n + 1])
    {
      SoundStep(trace, ops, outs, n);
      StepServed(trace[n], ops[n], outs[n], trace[n + 1]);
    }
  }

  // From a device to be formatted on: with memory for every request the
  // formatting succeeds exactly on devices that are large enough, and whatever
  // calls follow start from no files and no names.
  method FormatAndRun(sectorCount: nat, disk: seq<byte>, supply: Supply, ops: seq<Op>)
    returns (fs: FileSys?, table: seq<File?>, ghost trace: seq<State>, ghost outs: seq<Out>)
    requires 2 <= sectorCount <= DEVICE_LIMIT && |disk| == 512 * sectorCount && Plentiful(supply.answers)
    requires forall op :: op in ops ==> WellFormed(op)
    modifies supply
    ensures fs != null <==> 3 + SectorsFor(Bitmap.FileSize(sectorCount)) <= sectorCount
    ensures fs != null ==> fs.Valid() && fs.Refs(null, null) && TableOk(fs, table) && Sound(trace, ops, outs)
    ensures fs != null ==> trace[0] == State([], map[], Zeros(320), {}, trace[0].used, Bitmap.Image(trace[0].used), trace[0].asked, 0)
    ensures fs != null ==> trace[|ops|] == Abs(fs, table)
    ensures fs != null ==> forall n :: 0 <= n < |ops| ==> Served(trace[n], ops[n], outs[n], trace[n + 1])
    ensures fs != null ==> forall a, b :: 0 <= a <= b <= |ops| ==> Sufficed(trace, a, b)
    ensures fs != null ==> forall n :: 0 <= n <= |ops| ==> UniqueNames(trace[n].dir)
    ensures fs != null ==> forall n :: 0 <= n <= |ops| ==> MapInFile(trace[n])
  {
    hide *;
    NoneRefused(supply.answers, supply.asked);
    SupplyFailures(supply);
    table, trace, outs := [], [], [];
    fs := Format(sectorCount, disk, supply);
    NoneRefused(supply.answers, supply.asked);
    SupplyFailures(supply);
    if fs != null {
      NoFilesYet(fs);
      NoNamesYet();
      MapThere(fs);
      table, trace, outs := RunWithMemory(fs, ops);
    }
  }

  lemma SupplyFailures(supply: Supply)
    ensures supply.Failures() == Refusals(supply.answers, supply.asked)
  {
  }

  lemma MapThere(fs: FileSys)
    requires MapOnDisk(fs.disk, fs.freeMap)
    ensures MapInFile(Abs(fs, []))
  {
    hide MapData;
  }

  lemma NoFilesYet(fs: FileSys)
    requires fs.owned == {0, 1} && fs.RemovedInodes() == {} && RootData(fs.disk) == Zeros(320) && Plentiful(fs.supply.answers)
    requires MapOnDisk(fs.disk, fs.freeMap)
    ensures Abs(fs, []) == State([], map[], Zeros(320), {}, fs.freeMap, Bitmap.Image(fs.freeMap), fs.supply.asked, 0)
  {
    NoFailures(fs, []);
  }
}
