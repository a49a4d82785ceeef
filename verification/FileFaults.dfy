// What goes wrong in the file system when a name is taken or memory is short:
// sectors that no file has, and entries entered twice or over others.
module FileFaults {
  import opened Bytes
  import opened Layout
  import opened KernelMemory
  import opened FileSystem
  import Bitmap

  // Creating a file by a name that is taken costs the sectors of its data, if
  // there is room for it: they stay marked, and no file has them.
  method CreateTwice(fs: FileSys, name: seq<byte>, size: int) returns (first: bool, second: bool, ghost used: seq<bool>)
    requires fs.Valid() && fs.Refs(null, null) && 0 !in name && 0 <= size < 0x8000_0000
    modifies fs, fs.Inodes(), fs.supply
    ensures fs.Valid() && Marked(fs.freeMap, fs.loose)
    ensures first && fs.supply.Failures() == old(fs.supply.Failures()) && Room(used, size) ==>
              !second && |fs.loose| == |old(fs.loose)| + SectorsFor(size)
  {
    ghost var made, slot, d, leaked;
    hide *;
    ghost var dir := RootData(fs.disk);
    first, made, slot, d, leaked := fs.Create(name, size);
    used := fs.freeMap;
    if first { TakenNow(dir, RootData(fs.disk), slot, name, made); }
    ghost var loose := fs.loose;
    second, made, slot, d, leaked := fs.Create(name, size);
    if leaked { LostSize(loose, d); }
    LooseMarked(fs);
  }

  ghost predicate Marked(used: seq<bool>, sectors: set<nat>) {
    forall s :: s in sectors ==> s < |used| && used[s]
  }

  lemma LooseMarked(fs: FileSys)
    requires fs.Valid()
    ensures Marked(fs.freeMap, fs.loose)
  {
    fs.SystemOwned();
  }

  lemma TakenNow(before: seq<byte>, after: seq<byte>, slot: nat, name: seq<byte>, s: nat)
    requires Entered(before, after, slot, name, s)
    ensures Refused(after, name)
  {
    assert Matches(after, slot, name);
  }

  lemma LostSize(loose: set<nat>, d: Header)
    requires 0 <= d.length && loose !! Extent(d)
    ensures |loose + Extent(d)| == |loose| + SectorsFor(d.length)
  {
    ExtentSize(d);
  }

  // A root directory as it is formatted, with one file "a" in it.
  function OneFile(): seq<byte> {
    EncodeEntry(Entry(2, [97] + Zeros(14), true)) + Zeros(300)
  }

  lemma OneFileEntries()
    ensures |OneFile()| == 320 && Matches(OneFile(), 0, [97]) && EntryAt(OneFile(), 0).inUse
    ensures forall k: nat :: 1 <= k < 16 ==> !EntryAt(OneFile(), k).inUse
  {
    FirstEntry();
    forall k: nat | 1 <= k < 16
      ensures !EntryAt(OneFile(), k).inUse
    {
      NoEntry(k);
    }
    hide *;
  }

  lemma FirstEntry()
    ensures |OneFile()| == 320 && Matches(OneFile(), 0, [97]) && EntryAt(OneFile(), 0).inUse
  {
    var e := Entry(2, [97] + Zeros(14), true);
    EntryRoundTrip(e);
    CStringOf(e.name, [97]);
    hide EncodeEntry, DecodeEntry, CString;
    assert OneFile()[0..20] == EncodeEntry(e);
  }

  lemma NoEntry(k: nat)
    requires 1 <= k < 16
    ensures |OneFile()| == 320 && !EntryAt(OneFile(), k).inUse
  {
    hide EncodeEntry;
    assert OneFile()[20 * k + 19] == 0;
    assert OneFile()[20 * k..20 * k + 20][19] == 0;
  }

  lemma OneFileNames()
    ensures UniqueNames(OneFile()) && forall name: seq<byte> :: HasName(OneFile(), name) <==> name == [97]
  {
    OneFileEntries();
    hide OneFile, CString, EntryAt;
    assert forall j: nat, name: seq<byte> :: Matches(OneFile(), j, name) ==> j == 0 && name == [97];
  }

  // If the search for the name is refused memory at the first entry, "a" is
  // entered a second time.
  method AddTwice(fs: FileSys, dir: Inode) returns (success: bool)
    requires fs.DirOpen(dir) && RootData(fs.disk) == OneFile() && 3 < fs.sectorCount && !Named(OneFile(), 3)
    requires var a, answers := fs.supply.asked, fs.supply.answers;
             !Granted(answers, a) && Granted(answers, a + 1) && Granted(answers, a + 2) && Granted(answers, a + 3)
    modifies fs`disk, fs.supply
    ensures success && UniqueNames(OneFile()) && !UniqueNames(RootData(fs.disk))
  {
    OneFileNames();
    OneFileEntries();
    ghost var answers, a := fs.supply.answers, fs.supply.asked;
    hide *;
    ghost var seen, slot;
    success, seen, slot := fs.DirAdd(dir, [97], 3);
    SecondEntry(answers, a, seen, slot, success);
    TwoEntries(RootData(fs.disk), slot);
  }

  lemma SecondEntry(answers: seq<bool>, a: nat, seen: nat, slot: nat, success: bool)
    requires !Granted(answers, a) && Granted(answers, a + 1) && Granted(answers, a + 2) && Granted(answers, a + 3)
    requires AddOutcome(OneFile(), [97], answers, a, seen, slot, success)
    ensures success && slot == 1
  {
    OneFileEntries();
    hide OneFile, CString, EntryAt, Granted;
    assert seen == 0;
    assert !EntryAt(OneFile(), 1).inUse;
    assert slot == 1;
  }

  lemma TwoEntries(after: seq<byte>, slot: nat)
    requires slot == 1 && Entered(OneFile(), after, slot, [97], 3) && UniqueNames(OneFile())
    ensures !UniqueNames(after)
  {
    OneFileEntries();
    EnteredUnique(OneFile(), after, slot, [97], 3);
  }

  // Of the requests from first to last, the one numbered refused is refused.
  ghost predicate AllBut(answers: seq<bool>, first: nat, last: nat, refused: nat) {
    forall j: nat :: first <= j <= last ==> Granted(answers, j) == (j != refused)
  }

  // If the search for a free slot is refused memory at the first entry, the
  // entry of "a" gives way to that of "b".
  method AddOver(fs: FileSys, dir: Inode) returns (success: bool)
    requires fs.DirOpen(dir) && RootData(fs.disk) == OneFile() && 3 < fs.sectorCount && !Named(OneFile(), 3)
    requires var a, answers := fs.supply.asked, fs.supply.answers;
             AllBut(answers, a, a + 17, a + 16)
    modifies fs`disk, fs.supply
    ensures success && HasName(OneFile(), [97]) && !HasName(RootData(fs.disk), [97])
  {
    hide *;
    OneFileNames();
    ghost var answers, a := fs.supply.answers, fs.supply.asked;
    ghost var seen, slot;
    success, seen, slot := fs.DirAdd(dir, [98], 3);
    EntryOver(answers, a, seen, slot, success);
    NameLost(RootData(fs.disk), slot);
  }

  lemma EntryOver(answers: seq<bool>, a: nat, seen: nat, slot: nat, success: bool)
    requires AllBut(answers, a, a + 17, a + 16)
    requires AddOutcome(OneFile(), [98], answers, a, seen, slot, success)
    ensures success && slot == 0
  {
    OneFileEntries();
    OneFileNames();
    hide OneFile, CString, EntryAt, Granted;
    assert !HasName(OneFile(), [98]) && !Matches(OneFile(), seen, [98]);
    assert a + seen < a + 16 ==> Granted(answers, a + seen);
    assert seen == 16;
    assert !Granted(answers, a + 16 + 0);
  }

  lemma NameLost(after: seq<byte>, slot: nat)
    requires slot == 0 && Entered(OneFile(), after, slot, [98], 3)
    ensures !HasName(after, [97])
  {
    OneFileEntries();
    hide OneFile, CString, DecodeEntry;
    forall j: nat
      ensures !Matches(after, j, [97])
    {
      if 1 <= j < 16 { assert EntryAt(after, j) == EntryAt(OneFile(), j); }
    }
  }
}
