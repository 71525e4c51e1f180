/** Runs from an empty file system after which a request goes wrong:
    - an unlink fails for good although nobody has the file open;
    - a file is lost by removing another one;
    - a create behind a full block leaves a name that cannot be found;
    - a read delivers a byte that an empty file does not have. */
module Examples {
  import opened Device
  import opened Volume
  import opened FileData
  import opened Records
  import opened InodeCache
  import opened Directory
  import opened Names
  import opened Extents
  import opened Files
  import opened Requests
  import opened Format
  import opened Contents
  import opened References
  import opened Overruns

  // ---------------------------------------------------------------- names of one character

  const NEW := Flags(true, true, true)

  /** "A", "B", "C" and so on. */
  function Letter(i: nat): (n: Name)
    requires i < 32
    ensures |n| == 1
  {
    [ByteOf(65 + i)]
  }

  lemma SlashCode(b: seq<bool>)
    requires b == SLASH
    ensures Value(b, 0) == 47
  {
  }

  /** A letter is a name and, as a path, leads to itself. */
  lemma LetterIsName(i: nat)
    requires i < 32
    ensures Storable(Letter(i)) && NoSlash(Letter(i)) && Stripped(Letter(i)) == Some(Letter(i)) && Letter(i) != [SLASH]
  {
    BytesDiffer(65 + i, 1);
    SlashCode(SLASH);
    ByteLimit();
    ValueOfBits(65 + i, 8);
    assert ByteOf(65 + i) != SLASH;
    assert Rest(Letter(i)) == Letter(i) && Head(Letter(i)) == Letter(i);
  }

  lemma LettersDiffer(i: nat, j: nat)
    requires i < 32 && j < 32 && i != j
    ensures Letter(i) != Letter(j)
  {
    BytesDiffer(65 + i, 65 + j);
    assert Letter(i)[0] != Letter(j)[0];
  }

  lemma LetterIsNotReserved(i: nat, k: nat)
    requires i < 32 && k <= NR_CONSOLES
    ensures Letter(i) != ReservedName(k)
  {
    if k == 0 {
      BytesDiffer(65 + i, 46);
      assert Letter(i)[0] != ReservedName(k)[0];
    }
  }

  // ---------------------------------------------------------------- states between the requests of a run

  /** Entry `k` of a directory that holds the reserved entries and then those of `letters`, where
      a number that is no letter's stands for a hole. */
  ghost predicate EntryIs(dir: seq<Entry>, letters: seq<int>, k: nat)
    requires k < |dir| && k < 4 + |letters|
  {
    if k < 4 then dir[k].inode == k + 1 && CStr(dir[k].name) == ReservedName(k)
    else if 0 <= letters[k - 4] < 32 then dir[k].inode >= RESERVED_INODES && CStr(dir[k].name) == Letter(letters[k - 4])
    else dir[k] == ERASED
  }

  ghost predicate Layout(dir: seq<Entry>, letters: seq<int>) {
    4 + |letters| <= |dir| && forall k :: 0 <= k < 4 + |letters| ==> EntryIs(dir, letters, k)
  }

  ghost predicate Holds(fs: Fs, letters: seq<int>) {
    Inv(fs) && NrEntries(fs) == 4 + |letters| && Layout(fs.dir, letters)
  }

  /** Process 0 has nothing open, and no inode but the root directory's is cached. */
  ghost predicate Quiet(fs: Fs) {
    |fs.filp| > 0 && |fs.filp[0]| == NR_FILES && fs.filp[0][0] == NIL && |fs.descs| > 0 && fs.descs[0].inode == NIL &&
    forall p :: 0 < p < |fs.table| ==> fs.table[p].cnt == 0
  }

  /** Room for `n` files. */
  predicate RoomFor(fs: Fs, n: nat) {
    BitOfSlot(n + 1) <= |fs.sectorMap|
  }

  lemma FreshHolds(fs: Fs)
    requires Fresh(fs) && |fs.filp| > 0
    ensures Holds(fs, []) && Quiet(fs)
  {
    FreshIsGood(fs);
    assert fs.inodes[0] == ReservedRecord(fs.nrSmap, 0);
    forall k | 0 <= k < 4 ensures EntryIs(fs.dir, [], k) {
      assert IsEntry(fs.dir[k], k + 1, ReservedName(k));
    }
  }

  lemma NotHeld(dir: seq<Entry>, letters: seq<int>, i: nat)
    requires Layout(dir, letters) && i < 32 && i !in letters
    ensures Letter(i) !in AsMap(dir, 4 + |letters|)
  {
    forall k: nat | Live(dir, 4 + |letters|, k) ensures CStr(dir[k].name) != Letter(i) {
      assert EntryIs(dir, letters, k);
      if k < 4 {
        LetterIsNotReserved(i, k);
      } else if 0 <= letters[k - 4] < 32 {
        LettersDiffer(i, letters[k - 4]);
      }
    }
    if Letter(i) in AsMap(dir, 4 + |letters|) {
      var k := EntryOf(dir, 4 + |letters|, Letter(i));
    }
  }

  /** Without holes the first free entry is behind the last one. */
  lemma NoHole(dir: seq<Entry>, letters: seq<int>)
    requires Layout(dir, letters) && forall j :: 0 <= j < |letters| ==> 0 <= letters[j] < 32
    ensures FirstHole(dir, 0, 4 + |letters|) == 4 + |letters|
  {
    forall k | 0 <= k < 4 + |letters| ensures dir[k].inode != 0 {
      assert EntryIs(dir, letters, k);
    }
  }

  lemma LayoutGrows(dir: seq<Entry>, letters: seq<int>, num: nat, i: nat)
    requires Layout(dir, letters) && 4 + |letters| < |dir| && |dir[4 + |letters|].name| == MAX_FILENAME_LEN
    requires i < 32 && num >= RESERVED_INODES && Storable(Letter(i))
    ensures Layout(Inserted(dir, 4 + |letters|, num, Letter(i)), letters + [i])
  {
    var nr := 4 + |letters|;
    var dir1 := Inserted(dir, nr, num, Letter(i));
    StoredName(dir[nr].name, Letter(i));
    forall k | 0 <= k < nr + 1 ensures EntryIs(dir1, letters + [i], k) {
      assert k < nr ==> EntryIs(dir, letters, k);
    }
  }

  // ---------------------------------------------------------------- creating a file

  /** A new letter can be created while the block and the sector map have room. */
  ghost predicate CanAdd(fs: Fs, letters: seq<int>, i: nat) {
    Holds(fs, letters) && Quiet(fs) && |letters| < MAX_FILES && i < 32 && i !in letters &&
    (forall j :: 0 <= j < |letters| ==> 0 <= letters[j] < 32) && RoomFor(fs, |letters| + 1)
  }

  lemma LetterNotFound(fs: Fs, letters: seq<int>, i: nat)
    requires Holds(fs, letters) && i < 32 && i !in letters
    ensures Letter(i) !in NameMap(fs) && Creates(fs, Letter(i), NEW)
  {
    LetterIsName(i);
    NotHeld(fs.dir, letters, i);
    FoundIsLookup(fs, Letter(i));
  }

  lemma SlotIsInBlock(dir: seq<Entry>, nr: nat)
    requires 1 <= nr < ENTRIES_PER_SECTOR <= |dir|
    ensures SlotInBlock(dir, DIR_ENTRY_SIZE * nr)
  {
    assert Blocks(DIR_ENTRY_SIZE * nr) == 1;
  }

  lemma CanMake(fs: Fs, letters: seq<int>, i: nat)
    requires CanAdd(fs, letters, i)
    ensures CanCreate(fs, Letter(i)) && Letter(i) !in NameMap(fs) && Creates(fs, Letter(i), NEW)
  {
    LetterIsName(i);
    LetterNotFound(fs, letters, i);
    FilesAreFew(fs);
    CanAllocWhileRoom(fs);
    SlotIsInBlock(fs.dir, NrEntries(fs));
  }

  lemma OpenIsLegal(fs: Fs, letters: seq<int>, i: nat)
    requires CanAdd(fs, letters, i)
    ensures Legal(fs, Open(0, Letter(i), NEW))
  {
    CanMake(fs, letters, i);
    LetterIsName(i);
    FoundIsCached(fs, Letter(i));
  }

  function MakeFile(i: nat): seq<Request>
    requires i < 32
  {
    [Open(0, Letter(i), NEW), Close(0, 0)]
  }

  /** The state after the open, and then after the close. */
  ghost function Made(fs: Fs, name: Name): Fs
    requires CreateOk(fs, name) && |fs.descs| > 0 && |fs.filp| > 0 && |fs.filp[0]| > 0
  {
    var num := FirstClear(fs.inodeMap, 0);
    Attached(Entered(Allocated(fs), num, name), GotSlot(fs.table, num), 0, 0, 0, NEW)
  }

  lemma OpenMakes(fs: Fs, letters: seq<int>, i: nat)
    requires CanAdd(fs, letters, i)
    ensures Legal(fs, Open(0, Letter(i), NEW)) && CreateOk(fs, Letter(i))
    ensures Opened(fs, 0, Letter(i), NEW) == (Made(fs, Letter(i)), Returned(0))
  {
    CanMake(fs, letters, i);
    OpenIsLegal(fs, letters, i);
    CreateReady(fs, Letter(i));
    LetterIsName(i);
    FoundIsLookup(fs, Letter(i));
    assert FreeHandle(fs.filp[0], 0) == 0 && FreeDesc(fs.descs, 0) == 0;
  }

  lemma MadeDir(fs: Fs, letters: seq<int>, i: nat)
    requires CanAdd(fs, letters, i)
    ensures CreateOk(fs, Letter(i))
    ensures var fs1 := Made(fs, Letter(i));
            |fs1.inodes| > 0 && NrEntries(fs1) == 4 + |letters| + 1 && Layout(fs1.dir, letters + [i]) &&
            |fs1.sectorMap| == |fs.sectorMap|
  {
    CanMake(fs, letters, i);
    CreatedParts(fs, Letter(i));
    InodeIsFree(fs);
    NoHole(fs.dir, letters);
    LetterIsName(i);
    LayoutGrows(fs.dir, letters, FirstClear(fs.inodeMap, 0), i);
  }

  lemma MadeTable(fs: Fs, letters: seq<int>, i: nat)
    requires CanAdd(fs, letters, i)
    ensures CreateOk(fs, Letter(i))
    ensures var fs1 := Made(fs, Letter(i));
            Mentioned(fs1, 0, 0) && SlotBehind(fs1, 0, 0) > 0 && |fs1.table| == |fs.table| &&
            fs1.table[SlotBehind(fs1, 0, 0)].cnt == 1 && fs1.table[SlotBehind(fs1, 0, 0)].rec.size == 0 &&
            fs1.table[SlotBehind(fs1, 0, 0)].num == FirstClear(fs.inodeMap, 0) &&
            forall q :: 0 < q < |fs.table| && q != SlotBehind(fs1, 0, 0) ==> fs1.table[q].cnt == 0
  {
    LetterIsName(i);
    CreateReady(fs, Letter(i));
    InodeIsFree(fs);
    NotCached(fs.table, fs.inodes, FileNums(fs), FirstClear(fs.inodeMap, 0));
  }

  /** The files have the first slots behind the root directory's, in order of their entries. */
  ghost predicate InOrder(fs: Fs, n: nat) {
    4 + n <= |fs.dir| && forall k :: 4 <= k < 4 + n ==> SlotAt(fs.nrSmap, fs.inodes, fs.dir[k].inode) == k - 3
  }

  lemma FileIsEntry(fs: Fs, letters: seq<int>, num: nat) returns (j: nat)
    requires Holds(fs, letters) && num in FileNums(fs)
    ensures j < |letters| && fs.dir[4 + j].inode == num
  {
    NumsAreEntries(fs.dir, NrEntries(fs), num);
    var e := FindInode(fs.dir, 0, NrEntries(fs), num);
    assert e < 4 ==> EntryIs(fs.dir, letters, e);
    j := e - 4;
  }

  lemma EntryIsFile(fs: Fs, letters: seq<int>, j: nat)
    requires Holds(fs, letters) && j < |letters| && 0 <= letters[j] < 32
    ensures fs.dir[4 + j].inode in FileNums(fs)
  {
    assert EntryIs(fs.dir, letters, 4 + j);
    EntryIsFound(fs.dir, NrEntries(fs), 4 + j);
    NumsAreEntries(fs.dir, NrEntries(fs), fs.dir[4 + j].inode);
  }

  lemma NextSlot(fs: Fs, letters: seq<int>, t: nat)
    requires Holds(fs, letters) && InOrder(fs, |letters|) && forall j :: 0 <= j < |letters| ==> 0 <= letters[j] < 32
    requires var used := UsedSlots(fs.nrSmap, fs.inodes, FileNums(fs));
             t !in used && forall s :: 0 <= s < t ==> s in used
    ensures t == |letters| + 1
  {
    if 0 < t <= |letters| {
      EntryIsFile(fs, letters, t - 1);
    }
    if |letters| + 1 < t {
      assert |letters| + 1 in UsedSlots(fs.nrSmap, fs.inodes, FileNums(fs));
      var num :| num in FileNums(fs) && SlotAt(fs.nrSmap, fs.inodes, num) == |letters| + 1;
      var j := FileIsEntry(fs, letters, num);
    }
  }

  lemma NewSlot(fs: Fs, letters: seq<int>, i: nat)
    requires CanAdd(fs, letters, i) && InOrder(fs, |letters|)
    ensures var f := FirstClear(fs.sectorMap, 0); f == BitOfSlot(SlotOfBit(f)) && SlotOfBit(f) == |letters| + 1
  {
    CanMake(fs, letters, i);
    FirstFit(fs.sectorMap, UsedSlots(fs.nrSmap, fs.inodes, FileNums(fs)));
    NextSlot(fs, letters, SlotOfBit(FirstClear(fs.sectorMap, 0)));
  }

  lemma OrderGrows(nrSmap: nat, dir: seq<Entry>, dir1: seq<Entry>, inodes: seq<Record>, inodes1: seq<Record>, n: nat)
    requires 4 + n < |dir| == |dir1| && dir1 == dir[4 + n := dir1[4 + n]]
    requires forall k :: 4 <= k < 4 + n ==> SlotAt(nrSmap, inodes, dir[k].inode) == k - 3
    requires forall k :: 4 <= k < 4 + n ==>
      SlotAt(nrSmap, inodes1, dir[k].inode) == SlotAt(nrSmap, inodes, dir[k].inode)
    requires SlotAt(nrSmap, inodes1, dir1[4 + n].inode) == n + 1
    ensures forall k :: 4 <= k < 4 + n + 1 ==> SlotAt(nrSmap, inodes1, dir1[k].inode) == k - 3
  {
  }

  lemma MadeEntry(fs: Fs, letters: seq<int>, i: nat)
    requires CanAdd(fs, letters, i) && InOrder(fs, |letters|)
    ensures CreateOk(fs, Letter(i))
    ensures var fs1, h := Made(fs, Letter(i)), 4 + |letters|;
            |fs1.dir| == |fs.dir| && h < |fs.dir| && fs1.dir == fs.dir[h := fs1.dir[h]] && fs1.nrSmap == fs.nrSmap &&
            SlotAt(fs.nrSmap, fs1.inodes, fs1.dir[h].inode) == |letters| + 1
  {
    NewSlot(fs, letters, i);
    CanMake(fs, letters, i);
    CreatedParts(fs, Letter(i));
    NoHole(fs.dir, letters);
    InodeIsFree(fs);
  }

  lemma MadeInOrder(fs: Fs, letters: seq<int>, i: nat)
    requires CanAdd(fs, letters, i) && InOrder(fs, |letters|)
    ensures CreateOk(fs, Letter(i)) && InOrder(Made(fs, Letter(i)), |letters| + 1)
  {
    MadeEntry(fs, letters, i);
    CanMake(fs, letters, i);
    var fs1 := Made(fs, Letter(i));
    forall k | 4 <= k < 4 + |letters|
      ensures SlotAt(fs.nrSmap, fs1.inodes, fs.dir[k].inode) == SlotAt(fs.nrSmap, fs.inodes, fs.dir[k].inode)
    {
      EntryIsFile(fs, letters, k - 4);
      CreatedRecords(fs, Letter(i), fs.dir[k].inode);
    }
    OrderGrows(fs.nrSmap, fs.dir, fs1.dir, fs.inodes, fs1.inodes, |letters|);
  }

  /** Closing the one handle that is open. */
  lemma CloseQuiets(fs: Fs, letters: seq<int>)
    requires Holds(fs, letters) && Mentioned(fs, 0, 0) && |fs.filp[0]| == NR_FILES
    requires var p := SlotBehind(fs, 0, 0);
             p > 0 && fs.table[p].cnt == 1 && forall q :: 0 < q < |fs.table| && q != p ==> fs.table[q].cnt == 0
    requires fs.filp[0][0] == 0
    ensures Legal(fs, Close(0, 0)) && Next(fs, Close(0, 0)).1 == Returned(0)
    ensures var fs1 := Next(fs, Close(0, 0)).0;
            Holds(fs1, letters) && Quiet(fs1) && fs1.sectorMap == fs.sectorMap
  {
    CloseKeeps(fs, 0, 0);
  }

  lemma RunsAre(r: Request, s: Request, t: Request)
    ensures [] + [r] == [r] && [r] + [s] == [r, s] && [r, s] + [t] == [r, s, t]
  {
  }

  lemma TwoRequests(fs: Fs, r: Request, s: Request)
    requires Inv(fs) && Legal(fs, r) && Next(fs, r).1 != Stopped
    requires (RequestKeeps(fs, r); Legal(Next(fs, r).0, s) && Next(Next(fs, r).0, s).1 != Stopped)
    ensures IsRun(fs, [r, s]) && After(fs, [r, s]) == Next(Next(fs, r).0, s).0
  {
    RunThen(fs, [], r);
    RunThen(fs, [r], s);
    RunsAre(r, s, s);
  }

  /** Create a file and close it. */
  lemma FileMade(fs: Fs, letters: seq<int>, i: nat)
    requires CanAdd(fs, letters, i)
    ensures Inv(fs) && IsRun(fs, MakeFile(i))
    ensures Holds(After(fs, MakeFile(i)), letters + [i]) && Quiet(After(fs, MakeFile(i)))
    ensures |After(fs, MakeFile(i)).sectorMap| == |fs.sectorMap|
    ensures InOrder(fs, |letters|) ==> InOrder(After(fs, MakeFile(i)), |letters| + 1)
  {
    if InOrder(fs, |letters|) {
      MadeInOrder(fs, letters, i);
    }
    OpenMakes(fs, letters, i);
    MadeDir(fs, letters, i);
    MadeTable(fs, letters, i);
    RequestKeeps(fs, Open(0, Letter(i), NEW));
    CloseQuiets(Made(fs, Letter(i)), letters + [i]);
    TwoRequests(fs, Open(0, Letter(i), NEW), Close(0, 0));
  }

  // ---------------------------------------------------------------- an unlink that fails for good

  /** Create a file, try to remove it while it is open, and close it. */
  function StuckRun(): seq<Request> {
    [Open(0, Letter(0), NEW), Unlink(Letter(0)), Close(0, 0)]
  }

  /** Process 0 has the file open with handle 0, and nobody else has; `c` references are counted. */
  ghost predicate OneOpen(fs: Fs, name: Name, c: nat) {
    Inv(fs) && name in NameMap(fs) && NameMap(fs)[name] in FileNums(fs) && Mentioned(fs, 0, 0) && fs.filp[0][0] == 0 &&
    var p := SlotBehind(fs, 0, 0);
    fs.table[p] == Slot(c, NameMap(fs)[name], fs.table[p].rec) && Refs(fs.descs, p) == 1
  }

  /** Nobody has, but a reference is counted. */
  ghost predicate Stuck(fs: Fs, name: Name, p: nat) {
    Inv(fs) && name in NameMap(fs) && NameMap(fs)[name] in FileNums(fs) && p < |fs.table| &&
    fs.table[p].cnt > 0 && fs.table[p].num == NameMap(fs)[name] && Refs(fs.descs, p) == 0
  }

  lemma MadeIsOpen(fs: Fs, letters: seq<int>, i: nat)
    requires CanAdd(fs, letters, i)
    ensures CreateOk(fs, Letter(i)) && OneOpen(Made(fs, Letter(i)), Letter(i), 1)
  {
    var num := FirstClear(fs.inodeMap, 0);
    OpenMakes(fs, letters, i);
    LetterIsName(i);
    CanMake(fs, letters, i);
    CreateKeeps(fs, Letter(i));
    CreateKeepsDisk(fs, Letter(i));
    RequestKeeps(fs, Open(0, Letter(i), NEW));
    RefsUpdate(fs.descs, 0, Desc(GotSlot(fs.table, num), NEW, 0), GotSlot(fs.table, num));
  }

  lemma UnlinkOfOpen(fs: Fs, i: nat)
    requires i < 32 && OneOpen(fs, Letter(i), 1)
    ensures Legal(fs, Unlink(Letter(i))) && Next(fs, Unlink(Letter(i))).1 == Returned(-1)
    ensures OneOpen(Next(fs, Unlink(Letter(i))).0, Letter(i), 2)
  {
    LetterIsName(i);
    FoundIsLookup(fs, Letter(i));
    var num := Found(fs, Letter(i));
    GetKeeps(fs, num);
    RemovesReady(fs, Letter(i));
    var p := SlotBehind(fs, 0, 0);
    assert fs.table[p].cnt > 0 && fs.table[p].num == num;
    assert IsCached(fs.table, num);
    assert OneSlot(fs.table, p, GotSlot(fs.table, num));
  }

  lemma CloseOfOpen(fs: Fs, name: Name)
    requires OneOpen(fs, name, 2)
    ensures Legal(fs, Close(0, 0)) && Next(fs, Close(0, 0)).1 == Returned(0)
    ensures Stuck(Next(fs, Close(0, 0)).0, name, SlotBehind(fs, 0, 0))
  {
    CloseKeeps(fs, 0, 0);
    RefsUpdate(fs.descs, 0, fs.descs[0].(inode := NIL), SlotBehind(fs, 0, 0));
  }

  /** The file is regular and nobody has it open, but it cannot be removed. */
  lemma StuckFails(fs: Fs, i: nat, p: nat)
    requires i < 32 && Stuck(fs, Letter(i), p)
    ensures (FoundIsCached(fs, Letter(i));
             Found(fs, Letter(i)) in FileNums(fs) && !InUse(fs, Found(fs, Letter(i))) &&
             Unlinked(fs, Letter(i)).1 == Returned(-1))
  {
    LetterIsName(i);
    FoundIsLookup(fs, Letter(i));
    var num := Found(fs, Letter(i));
    GetKeeps(fs, num);
    RemovesReady(fs, Letter(i));
    forall d | 0 <= d < |fs.descs| ensures !NamedBy(fs, d, num) {
      assert DescOk(fs.table, fs.descs[d]);
      RefsPositive(fs.descs, d);
      if 0 <= fs.descs[d].inode < |fs.table| {
        assert Counted(fs.table, fs.descs, fs.descs[d].inode) && OneSlot(fs.table, fs.descs[d].inode, p);
      }
    }
  }

  /** From an empty file system, after a create, an unlink while the file is open, and the close:
      an unlink fails although the file is regular and nobody has it open. */
  lemma StuckExample(fs: Fs) returns (stuck: Fs)
    requires Fresh(fs) && |fs.filp| > 0 && RoomFor(fs, 1)
    ensures Inv(fs) && IsRun(fs, StuckRun()) && stuck == After(fs, StuckRun())
    ensures (FoundIsCached(stuck, Letter(0));
             Found(stuck, Letter(0)) in FileNums(stuck) && !InUse(stuck, Found(stuck, Letter(0))) &&
             Unlinked(stuck, Letter(0)).1 == Returned(-1))
  {
    FreshHolds(fs);
    OpenMakes(fs, [], 0);
    MadeIsOpen(fs, [], 0);
    var fs1 := Made(fs, Letter(0));
    UnlinkOfOpen(fs1, 0);
    var fs2 := Next(fs1, Unlink(Letter(0))).0;
    CloseOfOpen(fs2, Letter(0));
    stuck := Next(fs2, Close(0, 0)).0;
    StuckFails(stuck, 0, SlotBehind(fs2, 0, 0));
    RunsAre(Open(0, Letter(0), NEW), Unlink(Letter(0)), Close(0, 0));
    RunThen(fs, [], Open(0, Letter(0), NEW));
    RunThen(fs, [Open(0, Letter(0), NEW)], Unlink(Letter(0)));
    RunThen(fs, [Open(0, Letter(0), NEW), Unlink(Letter(0))], Close(0, 0));
  }

  // ---------------------------------------------------------------- creating many files

  function FillRun(n: nat): seq<Request>
    requires n <= MAX_FILES
  {
    if n == 0 then [] else FillRun(n - 1) + MakeFile(n - 1)
  }

  function UpToLetter(n: nat): (letters: seq<int>)
    ensures |letters| == n && forall j :: 0 <= j < n ==> letters[j] == j
  {
    seq(n, j => j)
  }

  lemma UpToNext(n: nat)
    ensures UpToLetter(0) == [] && UpToLetter(n + 1) == UpToLetter(n) + [n]
  {
  }

  lemma NextCanBeAdded(fs: Fs, n: nat)
    requires Holds(fs, UpToLetter(n)) && Quiet(fs) && RoomFor(fs, MAX_FILES) && n < MAX_FILES
    ensures CanAdd(fs, UpToLetter(n), n)
  {
  }

  /** After a run, one file more. */
  lemma OneMore(fs: Fs, rs: seq<Request>, letters: seq<int>, i: nat) returns (fs1: Fs)
    requires Inv(fs) && IsRun(fs, rs) && CanAdd(After(fs, rs), letters, i)
    ensures IsRun(fs, rs + MakeFile(i)) && fs1 == After(fs, rs + MakeFile(i))
    ensures Holds(fs1, letters + [i]) && Quiet(fs1) && |fs1.sectorMap| == |After(fs, rs).sectorMap|
    ensures InOrder(After(fs, rs), |letters|) ==> InOrder(fs1, |letters| + 1)
  {
    FileMade(After(fs, rs), letters, i);
    RunsJoin(fs, rs, MakeFile(i));
    fs1 := After(fs, rs + MakeFile(i));
  }

  /** Files can be created until the directory has 32 entries. */
  lemma {:induction false} Filled(fs: Fs, n: nat) returns (fs1: Fs)
    requires Fresh(fs) && |fs.filp| > 0 && RoomFor(fs, MAX_FILES) && n <= MAX_FILES
    ensures Inv(fs) && IsRun(fs, FillRun(n)) && fs1 == After(fs, FillRun(n))
    ensures Holds(fs1, UpToLetter(n)) && Quiet(fs1) && |fs1.sectorMap| == |fs.sectorMap| && InOrder(fs1, n)
  {
    UpToNext(n);
    if n == 0 {
      FreshHolds(fs);
      fs1 := fs;
    } else {
      fs1 := Filled(fs, n - 1);
      UpToNext(n - 1);
      NextCanBeAdded(fs1, n - 1);
      fs1 := OneMore(fs, FillRun(n - 1), UpToLetter(n - 1), n - 1);
    }
  }

  // ---------------------------------------------------------------- a directory that shrinks too far

  /** The file of entry `4 + j` can be removed. */
  ghost predicate CanDrop(fs: Fs, letters: seq<int>, j: nat) {
    Holds(fs, letters) && Quiet(fs) && j < |letters| && 0 <= letters[j] < 32
  }

  lemma EntryIsFound(dir: seq<Entry>, nr: nat, k: nat)
    requires Tidy(dir, nr) && Live(dir, nr, k)
    ensures FindInode(dir, 0, nr, dir[k].inode) == k
  {
    var e := FindInode(dir, 0, nr, dir[k].inode);
    assert e < k ==> Apart(dir, e, k);
  }

  lemma DropFinds(fs: Fs, letters: seq<int>, j: nat)
    requires CanDrop(fs, letters, j)
    ensures (FoundIsCached(fs, Letter(letters[j])); Found(fs, Letter(letters[j])) == fs.dir[4 + j].inode)
    ensures Removes(fs, Letter(letters[j])) && Letter(letters[j]) in NameMap(fs)
    ensures FindInode(fs.dir, 0, NrEntries(fs), fs.dir[4 + j].inode) == 4 + j
  {
    var num := fs.dir[4 + j].inode;
    assert EntryIs(fs.dir, letters, 4 + j);
    LetterIsName(letters[j]);
    FoundIsLookup(fs, Letter(letters[j]));
    TidyEntryInMap(fs.dir, NrEntries(fs), 4 + j);
    EntryIsFound(fs.dir, NrEntries(fs), 4 + j);
    NumsAreEntries(fs.dir, NrEntries(fs), num);
    CacheFacts(fs, 1);
  }

  /** The state after the unlink. */
  ghost function Dropped(fs: Fs, path: seq<Byte>): Fs
    requires Inv(fs) && Removes(fs, path)
  {
    FoundIsCached(fs, path);
    var num := Found(fs, path);
    RemovesReady(fs, path);
    Erased(Freed(Gotten(fs, num), num, GotSlot(fs.table, num)), num)
  }

  lemma DropParts(fs: Fs, letters: seq<int>, j: nat)
    requires CanDrop(fs, letters, j)
    ensures Removes(fs, Letter(letters[j])) &&
            Unlinked(fs, Letter(letters[j])) == (Dropped(fs, Letter(letters[j])), Returned(0))
    ensures var fs1 := Dropped(fs, Letter(letters[j]));
            fs1.dir == fs.dir[4 + j := ERASED] && |fs1.table| == |fs.table| && |fs1.inodes| == |fs.inodes| &&
            (forall p :: 0 < p < |fs1.table| ==> fs1.table[p].cnt == 0) &&
            fs1.table[ROOT_SLOT].rec.size == DIR_ENTRY_SIZE * ShrunkTo(fs.dir, NrEntries(fs), 4 + j) &&
            fs1.inodes[0].size == fs1.table[ROOT_SLOT].rec.size && fs1.filp == fs.filp && fs1.descs == fs.descs
  {
    DropFinds(fs, letters, j);
    FoundIsCached(fs, Letter(letters[j]));
    CacheFacts(fs, fs.dir[4 + j].inode);
    GetKeeps(fs, fs.dir[4 + j].inode);
    RemovesReady(fs, Letter(letters[j]));
  }

  lemma LayoutDrops(dir: seq<Entry>, letters: seq<int>, j: nat)
    requires Layout(dir, letters) && j < |letters|
    ensures Layout(dir[4 + j := ERASED], letters[j := -1])
  {
    var dir1, letters1 := dir[4 + j := ERASED], letters[j := -1];
    forall k | 0 <= k < 4 + |letters| ensures EntryIs(dir1, letters1, k) {
      assert EntryIs(dir, letters, k);
    }
  }

  /** Removing a file that is not the last one leaves a hole. */
  lemma HoleMade(fs: Fs, letters: seq<int>, j: nat) returns (fs1: Fs)
    requires CanDrop(fs, letters, j) && j + 1 < |letters|
    ensures Legal(fs, Unlink(Letter(letters[j]))) && Next(fs, Unlink(Letter(letters[j]))) == (fs1, Returned(0))
    ensures Holds(fs1, letters[j := -1]) && Quiet(fs1)
  {
    DropFinds(fs, letters, j);
    DropParts(fs, letters, j);
    LetterIsName(letters[j]);
    LayoutDrops(fs.dir, letters, j);
    fs1 := Dropped(fs, Letter(letters[j]));
    RequestKeeps(fs, Unlink(Letter(letters[j])));
  }

  lemma AsItWas(dir: seq<Entry>, nr: nat, e: Entry)
    requires nr + 4 <= |dir| && dir[nr] == dir[nr + 1] == ERASED && e == dir[nr + 2]
    ensures dir[nr := e][nr + 1 := e][nr + 2 := e][nr + 3 := dir[nr + 3]][nr := ERASED][nr + 1 := ERASED] == dir
  {
  }

  /** Two holes and two files at the end of a directory, of which the last is removed. */
  lemma ThirdIsLost(dir: seq<Entry>, nr: nat, name: Name)
    requires 1 <= nr && nr + 4 <= ENTRIES_PER_SECTOR <= |dir| && name != []
    requires forall k :: 0 <= k < nr ==> dir[k].inode != 0 && CStr(dir[k].name) != name
    requires dir[nr] == dir[nr + 1] == ERASED && dir[nr + 3].inode != 0
    requires dir[nr + 2].inode != 0 && CStr(dir[nr + 2].name) == name
    ensures ShrunkTo(dir, nr + 4, nr + 3) == nr + 1 && SearchLimit(DIR_ENTRY_SIZE * (nr + 1)) <= |dir|
    ensures Lookup(dir[nr + 3 := ERASED], 0, SearchLimit(DIR_ENTRY_SIZE * (nr + 1)), name) == 0
  {
    var e := dir[nr + 2];
    ShrinkLosesFile(dir, nr, e, e, e, dir[nr + 3]);
    AsItWas(dir, nr, e);
  }

  lemma HolesAndFiles(dir: seq<Entry>, letters: seq<int>)
    requires Layout(dir, letters) && letters == [-1, -1, 2, 3]
    ensures forall k :: 0 <= k < 4 ==> dir[k].inode != 0 && CStr(dir[k].name) != Letter(2)
    ensures dir[4] == dir[5] == ERASED && dir[7].inode != 0 && dir[6].inode != 0 && CStr(dir[6].name) == Letter(2)
  {
    assert EntryIs(dir, letters, 4) && EntryIs(dir, letters, 5) && EntryIs(dir, letters, 6) && EntryIs(dir, letters, 7);
    forall k | 0 <= k < 4 ensures dir[k].inode != 0 && CStr(dir[k].name) != Letter(2) {
      assert EntryIs(dir, letters, k);
      LetterIsNotReserved(2, k);
    }
  }

  function HoleRun(): seq<Request> {
    [Unlink(Letter(0)), Unlink(Letter(1))]
  }

  function ShrinkRun(): seq<Request> {
    FillRun(4) + HoleRun()
  }

  lemma LettersLeft()
    ensures UpToLetter(4)[0 := -1] == [-1, 1, 2, 3] && [-1, 1, 2, 3][1 := -1] == [-1, -1, 2, 3]
  {
  }

  lemma ThirdIsLostHere(fs: Fs)
    requires CanDrop(fs, [-1, -1, 2, 3], 3)
    ensures Removes(fs, Letter(3)) && Unlinked(fs, Letter(3)) == (Dropped(fs, Letter(3)), Returned(0))
    ensures (FoundIsCached(fs, Letter(2)); Found(fs, Letter(2)) != 0)
    ensures var fs1 := Dropped(fs, Letter(3));
            |fs1.table| > ROOT_SLOT && SearchLimit(fs1.table[ROOT_SLOT].rec.size) <= |fs1.dir| &&
            Found(fs1, Letter(2)) == 0
  {
    DropParts(fs, [-1, -1, 2, 3], 3);
    DropFinds(fs, [-1, -1, 2, 3], 2);
    assert EntryIs(fs.dir, [-1, -1, 2, 3], 6);
    HolesAndFiles(fs.dir, [-1, -1, 2, 3]);
    ThirdIsLost(fs.dir, 4, Letter(2));
    LetterIsName(2);
  }

  lemma TwoHoles(fs: Fs) returns (holed: Fs)
    requires Holds(fs, UpToLetter(4)) && Quiet(fs)
    ensures IsRun(fs, HoleRun()) && holed == After(fs, HoleRun())
    ensures CanDrop(holed, [-1, -1, 2, 3], 3)
  {
    LettersLeft();
    var fs1 := HoleMade(fs, UpToLetter(4), 0);
    holed := HoleMade(fs1, [-1, 1, 2, 3], 1);
    TwoRequests(fs, Unlink(Letter(0)), Unlink(Letter(1)));
  }

  lemma HolesMade(fs: Fs) returns (holed: Fs)
    requires Fresh(fs) && |fs.filp| > 0 && RoomFor(fs, MAX_FILES)
    ensures Inv(fs) && IsRun(fs, ShrinkRun()) && holed == After(fs, ShrinkRun())
    ensures CanDrop(holed, [-1, -1, 2, 3], 3)
  {
    var fs4 := Filled(fs, 4);
    holed := TwoHoles(fs4);
    RunsJoin(fs, FillRun(4), HoleRun());
  }

  /** From an empty file system: four files are created, the first two and then the last are
      removed.  The third, which nobody touched, can be found before the last unlink, but not after. */
  lemma ShrinkExample(fs: Fs) returns (holed: Fs, short: Fs)
    requires Fresh(fs) && |fs.filp| > 0 && RoomFor(fs, MAX_FILES)
    ensures Inv(fs) && IsRun(fs, ShrinkRun()) && holed == After(fs, ShrinkRun())
    ensures Defined(holed, Unlink(Letter(3))) && Next(holed, Unlink(Letter(3))) == (short, Returned(0))
    ensures (FoundIsCached(holed, Letter(2)); Found(holed, Letter(2)) != 0)
    ensures |short.table| > ROOT_SLOT && SearchLimit(short.table[ROOT_SLOT].rec.size) <= |short.dir| &&
            Found(short, Letter(2)) == 0
  {
    holed := HolesMade(fs);
    ThirdIsLostHere(holed);
    LetterIsName(3);
    short := Dropped(holed, Letter(3));
  }

  // ---------------------------------------------------------------- a read past the end

  /** One byte, read at the start of an empty file. */
  lemma OnePastEnd(fs: Fs)
    requires Inv(fs) && Mentioned(fs, 0, 0) && |fs.filp[0]| == NR_FILES && ModeOf(fs, 0, 0).Rdwr() &&
             PosOf(fs, 0, 0) == 0
    requires fs.table[SlotBehind(fs, 0, 0)].rec.size == 0
    ensures Defined(fs, Rdwt(0, 0, false, 1)) && Next(fs, Rdwt(0, 0, false, 1)).1 == Returned(1)
    ensures var num := fs.table[SlotBehind(fs, 0, 0)].num;
            1 <= num <= |fs.inodes| &&
            Next(fs, Rdwt(0, 0, false, 1)).0.inodes == fs.inodes[num - 1 := fs.inodes[num - 1].(size := 1)]
  {
    HandleIsMentioned(fs, 0, 0);
    assert Touched(0, 0, fs.bufSectors) == Past(1, 0, 1);
  }

  /** From an empty file system: a file is created, and one byte is read from it.  The read returns
      a byte that nobody has written, and makes the file one byte long. */
  lemma PastEndExample(fs: Fs) returns (empty: Fs, num: nat)
    requires Fresh(fs) && |fs.filp| > 0 && RoomFor(fs, 1)
    ensures Inv(fs) && IsRun(fs, [Open(0, Letter(0), NEW)]) && empty == After(fs, [Open(0, Letter(0), NEW)])
    ensures 1 <= num <= |empty.inodes| && empty.inodes[num - 1].size == 0
    ensures Defined(empty, Rdwt(0, 0, false, 1)) && Next(empty, Rdwt(0, 0, false, 1)).1 == Returned(1)
    ensures Next(empty, Rdwt(0, 0, false, 1)).0.inodes == empty.inodes[num - 1 := empty.inodes[num - 1].(size := 1)]
  {
    FreshHolds(fs);
    OpenMakes(fs, [], 0);
    MadeTable(fs, [], 0);
    RunThen(fs, [], Open(0, Letter(0), NEW));
    RunsAre(Open(0, Letter(0), NEW), Open(0, Letter(0), NEW), Open(0, Letter(0), NEW));
    empty := Made(fs, Letter(0));
    num := empty.table[SlotBehind(empty, 0, 0)].num;
    RequestKeeps(fs, Open(0, Letter(0), NEW));
    HandleIsMentioned(empty, 0, 0);
    OnePastEnd(empty);
  }

  // ---------------------------------------------------------------- a create behind a full block

  lemma FullBlock(fs: Fs)
    requires Holds(fs, UpToLetter(MAX_FILES))
    ensures NrEntries(fs) == ENTRIES_PER_SECTOR && !SlotInBlock(fs.dir, fs.inodes[0].size)
  {
    NoHole(fs.dir, UpToLetter(MAX_FILES));
  }

  /** A create behind a full block. */
  lemma LostIsDefined(fs: Fs, i: nat)
    requires Holds(fs, UpToLetter(i)) && Quiet(fs) && i == MAX_FILES && RoomFor(fs, i + 1)
    ensures Creates(fs, Letter(i), NEW) && Letter(i) !in NameMap(fs) && CreateOk(fs, Letter(i))
    ensures Defined(fs, Open(0, Letter(i), NEW))
    ensures Opened(fs, 0, Letter(i), NEW) == (Made(fs, Letter(i)), Returned(0))
  {
    LetterIsName(i);
    LetterNotFound(fs, UpToLetter(i), i);
    FilesAreFew(fs);
    CanAllocWhileRoom(fs);
    CreateReady(fs, Letter(i));
    FoundIsLookup(fs, Letter(i));
    assert FreeHandle(fs.filp[0], 0) == 0 && FreeDesc(fs.descs, 0) == 0;
  }

  /** The inode is taken, but the directory does not have the name. */
  ghost predicate Lost(fs: Fs, name: Name, fs1: Fs) {
    var num := FirstClear(fs.inodeMap, 0);
    num < |fs.inodeMap| == |fs1.inodeMap| && !fs.inodeMap[num] && fs1.inodeMap[num] &&
    |fs1.table| > ROOT_SLOT && SearchLimit(fs1.table[ROOT_SLOT].rec.size) <= |fs1.dir| && Found(fs1, name) == 0
  }

  lemma LostParts(fs: Fs, name: Name)
    requires Inv(fs) && CreateOk(fs, name) && !SlotInBlock(fs.dir, fs.inodes[0].size)
    ensures var num, nr := FirstClear(fs.inodeMap, 0), NrEntries(fs);
            var fs1 := Entered(Allocated(fs), num, name);
            nr >= ENTRIES_PER_SECTOR && fs1.dir == BlockRepeated(fs.dir, nr) &&
            fs1.inodeMap == fs.inodeMap[num := true] &&
            |fs1.table| > ROOT_SLOT && fs1.table[ROOT_SLOT].rec.size == DIR_ENTRY_SIZE * GrownTo(fs.dir, nr)
  {
    CacheFacts(fs, FirstClear(fs.inodeMap, 0));
  }

  lemma MadeIsLost(fs: Fs, i: nat)
    requires Holds(fs, UpToLetter(i)) && i == MAX_FILES && Letter(i) !in NameMap(fs) && CreateOk(fs, Letter(i))
    requires |fs.filp| > 0
    ensures Lost(fs, Letter(i), Made(fs, Letter(i)))
  {
    LetterIsName(i);
    FullBlock(fs);
    InodeIsFree(fs);
    LostParts(fs, Letter(i));
    FullBlockLosesName(fs.dir, NrEntries(fs), Letter(i));
  }

  /** A run of 28 creates fills the block.  The next create returns a handle, takes an inode and an
      extent, and leaves a directory in which the name cannot be found. */
  lemma FullBlockExample(fs: Fs) returns (full: Fs)
    requires Fresh(fs) && |fs.filp| > 0 && RoomFor(fs, MAX_FILES + 1)
    ensures Inv(fs) && IsRun(fs, FillRun(MAX_FILES)) && full == After(fs, FillRun(MAX_FILES))
    ensures Defined(full, Open(0, Letter(28), NEW)) &&
            var (lost, r) := Next(full, Open(0, Letter(28), NEW));
            r == Returned(0) && Lost(full, Letter(28), lost)
  {
    full := Filled(fs, MAX_FILES);
    LostIsDefined(full, MAX_FILES);
    MadeIsLost(full, MAX_FILES);
  }

  // ---------------------------------------------------------------- a write into the next file

  const RDWR := Flags(false, true, true)

  /** Opening a file that exists. */
  lemma OpenOld(fs: Fs, letters: seq<int>, j: nat) returns (fs1: Fs)
    requires CanDrop(fs, letters, j)
    ensures Legal(fs, Open(0, Letter(letters[j]), RDWR))
    ensures Next(fs, Open(0, Letter(letters[j]), RDWR)) == (fs1, Returned(0))
    ensures Inv(fs1) && Mentioned(fs1, 0, 0) && |fs1.filp[0]| == NR_FILES && fs1.filp[0][0] != NIL
    ensures ModeOf(fs1, 0, 0) == RDWR && PosOf(fs1, 0, 0) == 0
    ensures fs1.table[SlotBehind(fs1, 0, 0)].num == fs.dir[4 + j].inode
    ensures fs1.nrSmap == fs.nrSmap && fs1.inodes == fs.inodes && fs1.dir == fs.dir
  {
    DropFinds(fs, letters, j);
    LetterIsName(letters[j]);
    var num := fs.dir[4 + j].inode;
    FoundIsCached(fs, Letter(letters[j]));
    GetKeeps(fs, num);
    assert FreeHandle(fs.filp[0], 0) == 0 && FreeDesc(fs.descs, 0) == 0;
    fs1 := Next(fs, Open(0, Letter(letters[j]), RDWR)).0;
    RequestKeeps(fs, Open(0, Letter(letters[j]), RDWR));
  }

  function OverwriteRun(): seq<Request> {
    FillRun(2) + [Open(0, Letter(0), RDWR)]
  }

  /** Handle 0 of process 0 is at the start of a file, and the extent behind it is that of `m`. */
  ghost predicate AtNeighbour(fs: Fs, m: nat) {
    Inv(fs) && m in FileNums(fs) && Mentioned(fs, 0, 0) && |fs.filp[0]| == NR_FILES && fs.filp[0][0] != NIL &&
    ModeOf(fs, 0, 0) == RDWR && PosOf(fs, 0, 0) == 0 && fs.table[SlotBehind(fs, 0, 0)].num in FileNums(fs) &&
    IsBehind(fs, fs.table[SlotBehind(fs, 0, 0)].num, m)
  }

  lemma FirstOfTwo(two: Fs) returns (fs: Fs)
    requires Holds(two, UpToLetter(2)) && Quiet(two) && InOrder(two, 2)
    ensures Legal(two, Open(0, Letter(0), RDWR)) && Next(two, Open(0, Letter(0), RDWR)) == (fs, Returned(0))
    ensures AtNeighbour(fs, two.dir[5].inode)
  {
    fs := OpenOld(two, UpToLetter(2), 0);
    EntryIsFile(two, UpToLetter(2), 0);
    EntryIsFile(two, UpToLetter(2), 1);
  }

  /** From an empty file system: two files are created, and the first is opened again. */
  lemma NeighboursMade(empty: Fs) returns (fs: Fs, m: nat)
    requires Fresh(empty) && |empty.filp| > 0 && RoomFor(empty, MAX_FILES)
    ensures Inv(empty) && IsRun(empty, OverwriteRun()) && fs == After(empty, OverwriteRun())
    ensures AtNeighbour(fs, m)
  {
    var two := Filled(empty, 2);
    fs := FirstOfTwo(two);
    m := two.dir[5].inode;
    RunThen(empty, FillRun(2), Open(0, Letter(0), RDWR));
  }

  lemma OverwritesNeighbour(fs: Fs, m: nat, disk0: seq<Sector>)
    requires AtNeighbour(fs, m) && Compact(fs) && Roomy(fs.nrSmap, |disk0|)
    ensures var r := Rdwt(0, 0, true, CAPACITY + 1);
            Defined(fs, r) && IsWrite(fs, r) && !LeavesOthers(fs, r, disk0)
  {
    HandleIsMentioned(fs, 0, 0);
    ModeIsRegular(fs, fs.table[SlotBehind(fs, 0, 0)].num);
    LeavesOthersWhen(fs, Rdwt(0, 0, true, CAPACITY + 1), disk0);
  }

  /** From an empty file system: two files are created, and the first is opened again.  One write
      of one byte more than the capacity goes over the second file. */
  lemma OverwriteExample(empty: Fs, disk0: seq<Sector>) returns (fs: Fs)
    requires Fresh(empty) && |empty.filp| > 0 && RoomFor(empty, MAX_FILES) && Roomy(empty.nrSmap, |disk0|)
    ensures Inv(empty) && IsRun(empty, OverwriteRun()) && fs == After(empty, OverwriteRun())
    ensures var r := Rdwt(0, 0, true, CAPACITY + 1);
            Mentioned(fs, 0, 0) && Defined(fs, r) && IsWrite(fs, r) && !LeavesOthers(fs, r, disk0)
  {
    var m;
    fs, m := NeighboursMade(empty);
    FreshIsCompact(empty);
    CompactAfter(empty, OverwriteRun());
    OverwritesNeighbour(fs, m, disk0);
  }
}
