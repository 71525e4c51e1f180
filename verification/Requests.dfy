/** Every request of the file system keeps the invariant, and so does every run of requests. */
module Requests {
  import opened Device
  import opened Volume
  import opened SectorMap
  import opened FileData
  import opened Records
  import opened InodeCache
  import opened Directory
  import opened Names
  import opened Extents
  import opened Files

  ghost function FileNums(fs: Fs): set<nat>
    requires DiskOk(fs)
  {
    Nums(fs.dir, NrEntries(fs))
  }

  /** The directory as a map. */
  ghost function NameMap(fs: Fs): map<Name, nat>
    requires DiskOk(fs)
  {
    AsMap(fs.dir, NrEntries(fs))
  }

  // ---------------------------------------------------------------- what holds between requests

  lemma {:induction false} FewValues(dir: seq<Entry>, nr: nat)
    requires nr <= |dir|
    ensures |AsMap(dir, nr).Values| <= nr
  {
    if nr > 0 {
      FewValues(dir, nr - 1);
      var m, m1 := AsMap(dir, nr - 1), AsMap(dir, nr);
      var more := m.Values + {dir[nr - 1].inode};
      forall v | v in m1.Values ensures v in more {
        var n :| n in m1 && m1[n] == v;
      }
      SubsetSize(m1.Values, more);
    }
  }

  /** One block of directory entries cannot use up the inode map. */
  lemma InodeIsFree(fs: Fs)
    requires DiskOk(fs)
    ensures var num := FirstClear(fs.inodeMap, 0);
            RESERVED_INODES <= num < NR_INODES && num !in FileNums(fs)
  {
    var nums := FileNums(fs);
    var num := FirstClear(fs.inodeMap, 0);
    FewValues(fs.dir, NrEntries(fs));
    SubsetSize(nums, NameMap(fs).Values);
    InodesCount(fs.inodeMap, RESERVED_INODES, nums);
    if num == NR_INODES {
      FullOnes(fs.inodeMap);
    }
  }

  /** The set bits of the two maps are those of the reserved inodes and of the files: 5 + files,
      and 1 + 2048 * (1 + files). */
  lemma BitCounts(fs: Fs)
    requires DiskOk(fs)
    ensures Ones(fs.inodeMap) == RESERVED_INODES + |FileNums(fs)|
    ensures Ones(fs.sectorMap) == 1 + NR_DEFAULT_FILE_SECTS * (1 + |FileNums(fs)|)
  {
    var nums := FileNums(fs);
    InodesCount(fs.inodeMap, RESERVED_INODES, nums);
    SlotsCount(fs.sectorMap, UsedSlots(fs.nrSmap, fs.inodes, nums));
    UsedSlotsCount(fs.nrSmap, fs.inodes, nums);
  }

  lemma {:induction false} UsedSlotsCount(nrSmap: nat, inodes: seq<Record>, nums: set<nat>)
    requires forall n :: n in nums ==> IsFile(nrSmap, inodes, n)
    requires forall a, b :: a in nums && b in nums ==> OwnSlots(nrSmap, inodes, a, b)
    ensures |UsedSlots(nrSmap, inodes, nums)| == 1 + |nums|
  {
    if nums == {} {
      assert UsedSlots(nrSmap, inodes, nums) == {0};
    } else {
      var n :| n in nums;
      var t := SlotAt(nrSmap, inodes, n);
      UsedSlotsCount(nrSmap, inodes, nums - {n});
      assert IsFile(nrSmap, inodes, n);
      assert t !in UsedSlots(nrSmap, inodes, nums - {n}) by {
        forall m | m in nums - {n} ensures SlotAt(nrSmap, inodes, m) != t {
          assert OwnSlots(nrSmap, inodes, m, n);
        }
      }
      assert UsedSlots(nrSmap, inodes, nums) == UsedSlots(nrSmap, inodes, nums - {n}) + {t};
    }
  }

  /** The allocator's assertions hold exactly when one more whole slot fits in the sector map. */
  lemma CanAllocWhileRoom(fs: Fs)
    requires DiskOk(fs)
    ensures CanAlloc(fs.sectorMap, NR_DEFAULT_FILE_SECTS) <==>
            BitOfSlot(|FileNums(fs)| + 2) <= |fs.sectorMap|
  {
    var nums := FileNums(fs);
    UsedSlotsCount(fs.nrSmap, fs.inodes, nums);
    RoomIsEnough(fs.sectorMap, UsedSlots(fs.nrSmap, fs.inodes, nums));
  }

  /** The extents of two files, and of a file and the metadata, do not overlap. */
  lemma ExtentsAreApart(fs: Fs, a: nat, b: nat)
    requires DiskOk(fs) && a in FileNums(fs) && b in FileNums(fs) && a != b
    ensures 0 < a <= |fs.inodes| && 0 < b <= |fs.inodes|
    ensures var ra, rb := fs.inodes[a - 1], fs.inodes[b - 1];
            ra.start + ra.sectors <= rb.start || rb.start + rb.sectors <= ra.start
    ensures fs.inodes[a - 1].start >= FirstSector(fs.nrSmap) + NR_DEFAULT_FILE_SECTS
  {
  }

  lemma CacheFacts(fs: Fs, num: nat)
    requires Inv(fs)
    ensures HasRoom(fs.table, num) && fs.table[ROOT_SLOT].rec == fs.inodes[0] && fs.table[ROOT_SLOT].num == ROOT_INODE
    ensures SearchLimit(fs.inodes[0].size) <= |fs.dir|
  {
    var nums := FileNums(fs);
    forall n | n in nums ensures n < NR_INODES {
      assert IsFile(fs.nrSmap, fs.inodes, n);
    }
    TableHasRoom(fs.table, fs.inodes, nums, num);
    assert Coherent(fs.table, fs.inodes, nums, ROOT_SLOT);
    LimitIs(NrEntries(fs));
  }

  /** Search is look-up in the directory's map. */
  lemma FoundIsLookup(fs: Fs, path: seq<Byte>)
    requires Inv(fs)
    ensures SearchLimit(fs.table[ROOT_SLOT].rec.size) <= |fs.dir|
    ensures Found(fs, path) == match Stripped(path)
                               case None => 0
                               case Some(name) => if name in NameMap(fs) then NameMap(fs)[name] else 0
    ensures Stripped(path).Some? ==> (Found(fs, path) == 0 <==> Stripped(path).value !in NameMap(fs))
  {
    CacheFacts(fs, 1);
    if Stripped(path).Some? {
      var name := Stripped(path).value;
      SearchIsLookup(fs.dir, NrEntries(fs), name);
      if name in NameMap(fs) {
        MapIsInjective(fs.dir, NrEntries(fs), name, name);
      }
    }
  }

  /** A name leads to one of the reserved inodes or to a file. */
  lemma FoundIsCached(fs: Fs, path: seq<Byte>)
    requires Inv(fs)
    ensures SearchLimit(fs.table[ROOT_SLOT].rec.size) <= |fs.dir|
    ensures Found(fs, path) < NR_INODES
    ensures Found(fs, path) < RESERVED_INODES || Found(fs, path) in FileNums(fs)
  {
    FoundIsLookup(fs, path);
    var num := Found(fs, path);
    if num >= RESERVED_INODES {
      var m := NameMap(fs);
      assert num in m.Values;
      assert IsFile(fs.nrSmap, fs.inodes, num);
    }
  }

  // ---------------------------------------------------------------- create_file

  ghost predicate CreateOk(fs: Fs, name: Name) {
    var num := FirstClear(fs.inodeMap, 0);
    0 < num < |fs.inodeMap| && num < |fs.inodes| && HasRoom(fs.table, num) && |fs.table| > ROOT_SLOT &&
    GotSlot(fs.table, num) != ROOT_SLOT && fs.table[ROOT_SLOT].num == ROOT_INODE && Storable(name) &&
    var size := fs.table[ROOT_SLOT].rec.size;
    var nr := size / DIR_ENTRY_SIZE;
    nr < |fs.dir| &&
    if SlotInBlock(fs.dir, size) then |fs.dir[FirstHole(fs.dir, 0, nr)].name| == MAX_FILENAME_LEN
    else ENTRIES_PER_SECTOR <= nr
  }

  lemma CreateReady(fs: Fs, name: Name)
    requires Inv(fs) && Storable(name)
    ensures CreateOk(fs, name)
  {
    var num := FirstClear(fs.inodeMap, 0);
    InodeIsFree(fs);
    CacheFacts(fs, num);
    NotCached(fs.table, fs.inodes, FileNums(fs), num);
    var h := FirstHole(fs.dir, 0, NrEntries(fs));
    assert h < ENTRIES_PER_SECTOR ==> Kept(fs.dir, NrEntries(fs), h);
  }

  /** What `create_file` leaves on the disk. */
  lemma CreatedParts(fs: Fs, name: Name)
    requires Inv(fs) && CanCreate(fs, name)
    ensures CreateOk(fs, name)
    ensures var num, nr := FirstClear(fs.inodeMap, 0), NrEntries(fs);
            var f, h := FirstClear(fs.sectorMap, 0), FirstHole(fs.dir, 0, nr);
            var rec := Record(I_REGULAR, 0, SectorOfBit(fs.nrSmap, f), NR_DEFAULT_FILE_SECTS);
            var fs1 := Entered(Allocated(fs), num, name);
            |fs.dir[h].name| == MAX_FILENAME_LEN && fs1.dir == Inserted(fs.dir, h, num, name) &&
            fs1.inodes == fs.inodes[num - 1 := rec][0 := fs.inodes[0].(size := DIR_ENTRY_SIZE * GrownTo(fs.dir, nr))] &&
            fs1.inodeMap == fs.inodeMap[num := true] &&
            fs1.sectorMap == WithRange(fs.sectorMap, f, NR_DEFAULT_FILE_SECTS, true)
  {
    CreateReady(fs, name);
    CacheFacts(fs, FirstClear(fs.inodeMap, 0));
    InodeIsFree(fs);
  }

  /** The disk after `create_file`. */
  lemma CreateKeepsDisk(fs: Fs, name: Name)
    requires Inv(fs) && CanCreate(fs, name) && name !in NameMap(fs)
    ensures CreateOk(fs, name)
    ensures var num := FirstClear(fs.inodeMap, 0);
            var fs1 := Entered(Allocated(fs), num, name);
            DiskOk(fs1) && NameMap(fs1) == NameMap(fs)[name := num] && FileNums(fs1) == FileNums(fs) + {num} &&
            fs1.inodes[num - 1].size == 0
  {
    var num := FirstClear(fs.inodeMap, 0);
    var nums := FileNums(fs);
    InodeIsFree(fs);
    CreatedParts(fs, name);
    DirCreate(fs.dir, fs.inodes[0].size, num, name);
    AllocTakesSlot(fs.sectorMap, UsedSlots(fs.nrSmap, fs.inodes, nums));
    var fs1 := Entered(Allocated(fs), num, name);
    RecordsCreate(fs.nrSmap, fs.inodes, nums, num, SlotOfBit(FirstClear(fs.sectorMap, 0)), fs1.inodes[0]);
    assert IsInodeMap(fs1.inodeMap, RESERVED_INODES, nums + {num});
  }

  /** Creating a file keeps the invariant, adds its name and inode, and disturbs no open file. */
  lemma CreateKeeps(fs: Fs, name: Name)
    requires Inv(fs) && CanCreate(fs, name) && name !in NameMap(fs)
    ensures CreateOk(fs, name)
    ensures var num := FirstClear(fs.inodeMap, 0);
            var p := GotSlot(fs.table, num);
            var fs1 := Entered(Allocated(fs), num, name);
            Inv(fs1) && NameMap(fs1) == NameMap(fs)[name := num] && num !in FileNums(fs) && num >= RESERVED_INODES &&
            p != ROOT_SLOT && p < |fs1.table| && fs1.table[p].cnt == 1 && fs1.table[p].num == num &&
            Refs(fs1.descs, p) == 0
  {
    CreateKeepsDisk(fs, name);
    var num := FirstClear(fs.inodeMap, 0);
    var nums := FileNums(fs);
    InodeIsFree(fs);
    CacheFacts(fs, num);
    NotCached(fs.table, fs.inodes, nums, num);
    var p := GotSlot(fs.table, num);
    var fs0 := Allocated(fs);
    var fs1 := Entered(fs0, num, name);
    CacheUpdate(fs.table, fs.inodes, nums, p, fs0.table[p], nums + {num});
    assert forall q :: 0 <= q < |fs.table| && q != ROOT_SLOT && fs0.table[q].cnt > 0 ==>
      fs0.table[q].num != ROOT_INODE by {
      forall q | 0 <= q < |fs.table| && q != ROOT_SLOT && fs0.table[q].cnt > 0 ensures fs0.table[q].num != ROOT_INODE {
        assert OneSlot(fs0.table, q, ROOT_SLOT);
      }
    }
    CacheUpdate(fs0.table, fs0.inodes, nums + {num}, ROOT_SLOT, fs1.table[ROOT_SLOT], nums + {num});
    assert Counted(fs.table, fs.descs, p);
    DescsGain(fs.table, fs.descs, p, fs0.table[p]);
    DescsGain(fs0.table, fs.descs, ROOT_SLOT, fs1.table[ROOT_SLOT]);
  }

  // ---------------------------------------------------------------- do_unlink

  /** The entry to erase is not the last one, or no entry in use follows a hole. */
  ghost predicate CanErase(fs: Fs, num: nat)
    requires |fs.inodes| > 0 && NrEntries(fs) <= |fs.dir|
  {
    var e := FindInode(fs.dir, 0, NrEntries(fs), num);
    e + 1 == NrEntries(fs) ==> Packed(fs.dir, e)
  }

  ghost function Gotten(fs: Fs, num: nat): Fs
    requires HasRoom(fs.table, num) && 1 <= num <= |fs.inodes|
  {
    fs.(table := GotTable(fs.table, fs.inodes, num))
  }

  lemma GetKeeps(fs: Fs, num: nat)
    requires Inv(fs) && 1 <= num < NR_INODES && (num < RESERVED_INODES || num in FileNums(fs))
    ensures HasRoom(fs.table, num)
    ensures var p := GotSlot(fs.table, num);
            var fs1 := Gotten(fs, num);
            Inv(fs1) && p < |fs1.table| && fs1.table[p] == Slot(fs1.table[p].cnt, num, fs.inodes[num - 1]) &&
            fs1.table[p].cnt >= 1 + Refs(fs1.descs, p) + (if p == ROOT_SLOT then 1 else 0) &&
            (p == ROOT_SLOT <==> num == ROOT_INODE)
  {
    CacheFacts(fs, num);
    CacheGet(fs.table, fs.inodes, FileNums(fs), num);
    var p := GotSlot(fs.table, num);
    var fs1 := Gotten(fs, num);
    assert Coherent(fs1.table, fs1.inodes, FileNums(fs), p) && OneSlot(fs1.table, p, ROOT_SLOT);
    assert Counted(fs.table, fs.descs, p);
    assert fs1.table == fs.table[p := fs1.table[p]];
    DescsGain(fs.table, fs.descs, p, fs1.table[p]);
  }

  /** What `do_unlink` needs of the slot it got: a regular file that nothing else refers to. */
  ghost predicate UnlinkOk(fs: Fs, num: nat, p: nat) {
    RESERVED_INODES <= num < |fs.inodeMap| && num <= |fs.inodes| && 0 < p < |fs.table| && fs.table[p].cnt == 1 &&
    fs.table[ROOT_SLOT].num == ROOT_INODE && fs.table[ROOT_SLOT].rec == fs.inodes[0] &&
    NrEntries(fs) <= |fs.dir| && FindInode(fs.dir, 0, NrEntries(fs), num) < NrEntries(fs) &&
    var b := BitOfSector(fs.nrSmap, fs.table[p].rec.start);
    fs.inodeMap[num] && fs.table[p].rec.sectors == NR_DEFAULT_FILE_SECTS &&
    0 <= b && b + NR_DEFAULT_FILE_SECTS <= |fs.sectorMap| &&
    forall x :: b <= x < b + NR_DEFAULT_FILE_SECTS ==> fs.sectorMap[x]
  }

  lemma UnlinkReady(fs: Fs, num: nat, p: nat)
    requires Inv(fs) && p < |fs.table| && fs.table[p].cnt == 1 && fs.table[p].num == num && num in FileNums(fs)
    ensures UnlinkOk(fs, num, p) && Refs(fs.descs, p) <= 1
    ensures BitOfSector(fs.nrSmap, fs.table[p].rec.start) == BitOfSlot(SlotAt(fs.nrSmap, fs.inodes, num))
  {
    var nums := FileNums(fs);
    CacheFacts(fs, num);
    NumsAreEntries(fs.dir, NrEntries(fs), num);
    assert IsFile(fs.nrSmap, fs.inodes, num) && Coherent(fs.table, fs.inodes, nums, p) &&
           Counted(fs.table, fs.descs, p);
    FreeGivesSlotBack(fs.sectorMap, UsedSlots(fs.nrSmap, fs.inodes, nums), SlotAt(fs.nrSmap, fs.inodes, num));
  }

  lemma UnlinkKeepsDisk(fs: Fs, num: nat, p: nat)
    requires Inv(fs) && p < |fs.table| && fs.table[p].cnt == 1 && fs.table[p].num == num && num in FileNums(fs)
    requires CanErase(fs, num)
    ensures UnlinkOk(fs, num, p)
    ensures var fs1 := Erased(Freed(fs, num, p), num);
            var name := CStr(fs.dir[FindInode(fs.dir, 0, NrEntries(fs), num)].name);
            DiskOk(fs1) && NameMap(fs1) == NameMap(fs) - {name} && FileNums(fs1) == FileNums(fs) - {num} &&
            name in NameMap(fs) && NameMap(fs)[name] == num
  {
    var nums := FileNums(fs);
    UnlinkReady(fs, num, p);
    DirUnlink(fs.dir, fs.inodes[0].size, num);
    TidyEntryInMap(fs.dir, NrEntries(fs), FindInode(fs.dir, 0, NrEntries(fs), num));
    FreeGivesSlotBack(fs.sectorMap, UsedSlots(fs.nrSmap, fs.inodes, nums), SlotAt(fs.nrSmap, fs.inodes, num));
    RecordsUnlink(fs.nrSmap, fs.inodes, nums, num);
    var fs0 := Freed(fs, num, p);
    var fs1 := Erased(fs0, num);
    RecordsResize(fs.nrSmap, fs0.inodes, nums - {num}, ROOT_INODE, fs1.inodes[0].size);
    assert IsInodeMap(fs1.inodeMap, RESERVED_INODES, nums - {num});
  }

  /** Removing a file keeps the invariant, takes away its name and inode, and clears no inode
      that a descriptor names. */
  lemma UnlinkKeeps(fs: Fs, num: nat, p: nat)
    requires Inv(fs) && p < |fs.table| && fs.table[p].cnt == 1 && fs.table[p].num == num && num in FileNums(fs)
    requires CanErase(fs, num) && Refs(fs.descs, p) == 0
    ensures UnlinkOk(fs, num, p)
    ensures var fs1 := Erased(Freed(fs, num, p), num);
            var name := CStr(fs.dir[FindInode(fs.dir, 0, NrEntries(fs), num)].name);
            Inv(fs1) && NameMap(fs1) == NameMap(fs) - {name} && name in NameMap(fs) && NameMap(fs)[name] == num
  {
    UnlinkKeepsDisk(fs, num, p);
    var nums := FileNums(fs);
    var fs0 := Freed(fs, num, p);
    var fs1 := Erased(fs0, num);
    forall q | 0 <= q < |fs.table| && fs.table[q].cnt > 0
      ensures q != p ==> fs.table[q].num != num
      ensures q != ROOT_SLOT ==> fs.table[q].num != ROOT_INODE
    {
      assert OneSlot(fs.table, p, q) && OneSlot(fs.table, q, ROOT_SLOT);
    }
    CacheUpdate(fs.table, fs.inodes, nums, p, fs0.table[p], nums - {num});
    CacheUpdate(fs0.table, fs0.inodes, nums - {num}, ROOT_SLOT, fs1.table[ROOT_SLOT], nums - {num});
    forall q | 0 <= q < |fs.table|
      ensures Counted(fs1.table, fs.descs, q) && (Refs(fs.descs, q) > 0 ==> SameFile(fs.table, fs1.table, q))
    {
      assert Counted(fs.table, fs.descs, q);
    }
    DescsKept(fs.table, fs1.table, fs.descs);
  }

  // ---------------------------------------------------------------- requests

  datatype Request =
    | Open(proc: nat, path: seq<Byte>, flags: Flags)
    | Close(proc: nat, fd: nat)
    | Rdwt(proc: nat, fd: nat, write: bool, len: nat)
    | Unlink(path: seq<Byte>)

  /** What the caller gets back, if `panic` does not stop the system. */
  datatype Outcome = Stopped | Returned(value: int)

  /** The first free handle of a process, or NR_FILES. */
  function FreeHandle(row: seq<int>, i: nat): (fd: nat)
    requires i <= |row|
    ensures i <= fd <= |row| && (fd < |row| ==> row[fd] == NIL)
    ensures forall k :: i <= k < fd ==> row[k] != NIL
    decreases |row| - i
  {
    if i == |row| || row[i] == NIL then i else FreeHandle(row, i + 1)
  }

  function FreeDesc(descs: seq<Desc>, i: nat): (d: nat)
    requires i <= |descs|
    ensures i <= d <= |descs| && (d < |descs| ==> descs[d].inode == NIL)
    ensures forall k :: i <= k < d ==> descs[k].inode != NIL
    decreases |descs| - i
  {
    if i == |descs| || descs[i].inode == NIL then i else FreeDesc(descs, i + 1)
  }

  predicate Mentioned(fs: Fs, proc: nat, fd: nat) {
    proc < |fs.filp| && fd < |fs.filp[proc]| && 0 <= fs.filp[proc][fd] < |fs.descs| &&
    0 <= fs.descs[fs.filp[proc][fd]].inode < |fs.table|
  }

  function SlotBehind(fs: Fs, proc: nat, fd: nat): (p: nat)
    requires Mentioned(fs, proc, fd)
  {
    fs.descs[fs.filp[proc][fd]].inode
  }

  /** The flags with which a handle was opened, and its position. */
  function ModeOf(fs: Fs, proc: nat, fd: nat): Flags
    requires Mentioned(fs, proc, fd)
  {
    fs.descs[fs.filp[proc][fd]].mode
  }

  function PosOf(fs: Fs, proc: nat, fd: nat): nat
    requires Mentioned(fs, proc, fd)
  {
    fs.descs[fs.filp[proc][fd]].pos
  }

  lemma HandleIsMentioned(fs: Fs, proc: nat, fd: nat)
    requires Inv(fs) && proc < |fs.filp| && fd < NR_FILES && fs.filp[proc][fd] != NIL
    ensures Mentioned(fs, proc, fd)
    ensures var s := fs.table[SlotBehind(fs, proc, fd)];
            s.cnt > (if SlotBehind(fs, proc, fd) == ROOT_SLOT then 1 else 0) && 1 <= s.num < NR_INODES &&
            s.rec == fs.inodes[s.num - 1] &&
            (s.num == ROOT_INODE || s.num in FileNums(fs))
  {
    assert HandleOk(fs.filp, fs.descs, proc, fd);
    var d := fs.filp[proc][fd];
    assert DescOk(fs.table, fs.descs[d]);
    var p := fs.descs[d].inode;
    RefsPositive(fs.descs, d);
    assert Counted(fs.table, fs.descs, p) && Coherent(fs.table, fs.inodes, FileNums(fs), p);
  }

  predicate HasSlash(path: seq<Byte>) {
    Stripped(path).None?
  }

  /** Whether `do_open` will call `create_file` and get past `strip_path`. */
  ghost predicate Creates(fs: Fs, path: seq<Byte>, flags: Flags)
    requires Inv(fs)
  {
    FoundIsLookup(fs, path);
    flags.create && Found(fs, path) == 0 && !HasSlash(path)
  }

  /** Whether `do_unlink` will get to its second half. */
  ghost predicate Removes(fs: Fs, path: seq<Byte>)
    requires Inv(fs)
  {
    FoundIsCached(fs, path);
    path != [SLASH] && Found(fs, path) in FileNums(fs) && Unused(fs.table, Found(fs, path))
  }

  /** The requests whose effect is determined: they meet the kernel's own assertions, open no
      terminal, have names that fit their field, and do not write into the directory. */
  ghost predicate Defined(fs: Fs, r: Request)
    requires Inv(fs)
  {
    match r
    case Open(proc, path, flags) =>
      FoundIsCached(fs, path);
      proc < |fs.filp| && NoNul(path) &&
      (flags.create || flags.Rdwr()) &&
      (flags.create || Found(fs, path) <= ROOT_INODE || Found(fs, path) >= RESERVED_INODES) &&
      (Creates(fs, path, flags) ==> CanAllocate(fs, Stripped(path).value))
    case Close(proc, fd) =>
      proc < |fs.filp| && fd < NR_FILES && fs.filp[proc][fd] != NIL
    case Rdwt(proc, fd, write, len) =>
      proc < |fs.filp| && fd < NR_FILES && fs.filp[proc][fd] != NIL &&
      (HandleIsMentioned(fs, proc, fd);
       write && ModeOf(fs, proc, fd).Rdwr() ==> fs.table[SlotBehind(fs, proc, fd)].rec.mode == I_REGULAR)
    case Unlink(path) => NoNul(path)
  }

  /** Those that besides create no file behind a full block, keep to the file's size or capacity,
      and shrink the directory only when no entry in use follows a hole. */
  ghost predicate Legal(fs: Fs, r: Request)
    requires Inv(fs)
  {
    Defined(fs, r) &&
    match r
    case Open(proc, path, flags) => Creates(fs, path, flags) ==> CanCreate(fs, Stripped(path).value)
    case Close(proc, fd) => true
    case Rdwt(proc, fd, write, len) =>
      HandleIsMentioned(fs, proc, fd);
      ModeOf(fs, proc, fd).Rdwr() ==>
        PosOf(fs, proc, fd) + len <= if write then CAPACITY else fs.table[SlotBehind(fs, proc, fd)].rec.size
    case Unlink(path) =>
      FoundIsCached(fs, path);
      Removes(fs, path) ==> CanErase(fs, Found(fs, path))
  }

  /** The middle of `do_open`: the inode to open, or NIL. */
  ghost function OpenedInode(fs: Fs, path: seq<Byte>, flags: Flags): (r: (Fs, int))
    requires Inv(fs) && (Creates(fs, path, flags) ==> CanAllocate(fs, Stripped(path).value))
    ensures |r.0.descs| == |fs.descs| && r.0.filp == fs.filp && r.1 >= NIL
  {
    FoundIsCached(fs, path);
    FoundIsLookup(fs, path);
    var num := Found(fs, path);
    if HasSlash(path) || (flags.create <==> num != 0) then (fs, NIL)
    else if flags.create then
      CreateReady(fs, Stripped(path).value);
      var new_ := FirstClear(fs.inodeMap, 0);
      (Entered(Allocated(fs), new_, Stripped(path).value), GotSlot(fs.table, new_))
    else
      GetKeeps(fs, num);
      (Gotten(fs, num), GotSlot(fs.table, num))
  }

  ghost function Opened(fs: Fs, proc: nat, path: seq<Byte>, flags: Flags): (Fs, Outcome)
    requires Inv(fs) && Defined(fs, Open(proc, path, flags))
  {
    var fd, d := FreeHandle(fs.filp[proc], 0), FreeDesc(fs.descs, 0);
    if fd == NR_FILES || d == NR_FILE_DESC then (fs, Stopped)
    else
      var (fs1, pin) := OpenedInode(fs, path, flags);
      if pin == NIL then (fs1, Returned(-1)) else (Attached(fs1, pin, proc, fd, d, flags), Returned(fd))
  }

  function Closed(fs: Fs, proc: nat, fd: nat): Fs
    requires Mentioned(fs, proc, fd) && fs.table[SlotBehind(fs, proc, fd)].cnt > 0
  {
    var d, p := fs.filp[proc][fd], SlotBehind(fs, proc, fd);
    fs.(table := fs.table[p := fs.table[p].(cnt := fs.table[p].cnt - 1)],
        descs := fs.descs[d := fs.descs[d].(inode := NIL)], filp := fs.filp[proc := fs.filp[proc][fd := NIL]])
  }

  function AtPos(fs: Fs, d: nat, pos: nat): Fs
    requires d < |fs.descs|
  {
    fs.(descs := fs.descs[d := fs.descs[d].(pos := pos)])
  }

  /** A new size in slot `p` and, by `sync_inode`, on disk. */
  function Grown(fs: Fs, p: nat, size: nat): Fs
    requires p < |fs.table| && 1 <= fs.table[p].num <= |fs.inodes|
  {
    var grown := fs.table[p].(rec := fs.table[p].rec.(size := size));
    fs.(table := fs.table[p := grown], inodes := fs.inodes[grown.num - 1 := grown.rec])
  }

  /** The end of `do_rdwt`: the new position, and a new size if it is beyond the old one. */
  function Repositioned(fs: Fs, d: nat, p: nat, pos: nat): Fs
    requires d < |fs.descs| && p < |fs.table| && 1 <= fs.table[p].num <= |fs.inodes|
  {
    AtPos(if pos <= fs.table[p].rec.size then fs else Grown(fs, p, pos), d, pos)
  }

  /** The end position that `do_rdwt` computes. */
  function EndOf(rec: Record, pos: nat, write: bool, len: nat): nat {
    Min(pos + len, if write then rec.sectors * SECTOR_SIZE else rec.size)
  }

  /** The number of bytes that `do_rdwt` moves, for a handle opened to read or write. */
  function BytesMoved(fs: Fs, proc: nat, fd: nat, write: bool, len: nat): nat
    requires Mentioned(fs, proc, fd) && fs.bufSectors > 0
  {
    var pos := PosOf(fs, proc, fd);
    Covered(pos, len, EndOf(fs.table[SlotBehind(fs, proc, fd)].rec, pos, write, len), fs.bufSectors)
  }

  /** What `do_rdwt` does to the descriptor and the inode. */
  function Advanced(fs: Fs, proc: nat, fd: nat, write: bool, len: nat): (Fs, Outcome)
    requires Mentioned(fs, proc, fd) && 1 <= fs.table[SlotBehind(fs, proc, fd)].num <= |fs.inodes| && fs.bufSectors > 0
  {
    var d, p := fs.filp[proc][fd], SlotBehind(fs, proc, fd);
    if !ModeOf(fs, proc, fd).Rdwr() then (fs, Returned(-1))
    else
      var n := BytesMoved(fs, proc, fd, write, len);
      (Repositioned(fs, d, p, PosOf(fs, proc, fd) + n), Returned(n))
  }

  ghost function Unlinked(fs: Fs, path: seq<Byte>): (Fs, Outcome)
    requires Inv(fs)
  {
    FoundIsCached(fs, path);
    var num := Found(fs, path);
    if path == [SLASH] || num == 0 then (fs, Returned(-1))
    else
      GetKeeps(fs, num);
      var p, got := GotSlot(fs.table, num), Gotten(fs, num);
      if got.table[p].rec.mode != I_REGULAR || got.table[p].cnt > 1 then (got, Returned(-1))
      else
        RemovesReady(fs, path);
        (Erased(Freed(got, num, p), num), Returned(0))
  }

  lemma ModeIsRegular(fs: Fs, num: nat)
    requires DiskOk(fs) && 0 < num && (num < RESERVED_INODES || num in FileNums(fs))
    ensures num <= |fs.inodes| && (fs.inodes[num - 1].mode == I_REGULAR <==> num in FileNums(fs))
  {
  }

  predicate Unused(table: seq<Slot>, num: nat) {
    forall q :: 0 <= q < |table| && table[q].num == num ==> table[q].cnt == 0
  }

  lemma OnlyReference(fs: Fs, num: nat)
    requires Inv(fs) && 0 < num < NR_INODES && (num < RESERVED_INODES || num in FileNums(fs))
    ensures HasRoom(fs.table, num)
    ensures var s := Gotten(fs, num).table[GotSlot(fs.table, num)];
            s.num == num && s.cnt > 0 && s.rec == fs.inodes[num - 1] && (s.cnt == 1 <==> Unused(fs.table, num))
  {
    GetKeeps(fs, num);
    var p, table := GotSlot(fs.table, num), Gotten(fs, num).table;
    forall q | 0 <= q < |fs.table| && fs.table[q].num == num && fs.table[q].cnt > 0 ensures q == p {
      assert OneSlot(table, p, q);
    }
  }

  /** `do_unlink` goes on with the inode it got exactly when it is a file that nobody else uses. */
  lemma GotToRemove(fs: Fs, path: seq<Byte>)
    requires Inv(fs) && path != [SLASH]
    ensures SearchLimit(fs.table[ROOT_SLOT].rec.size) <= |fs.dir| && Found(fs, path) < NR_INODES &&
            HasRoom(fs.table, Found(fs, path))
    ensures var num := Found(fs, path);
            num != 0 ==>
              var s := Gotten(fs, num).table[GotSlot(fs.table, num)];
              s.num == num && s.cnt > 0 && (s.rec.mode == I_REGULAR && s.cnt <= 1 <==> Removes(fs, path))
  {
    FoundIsCached(fs, path);
    var num := Found(fs, path);
    CacheFacts(fs, num);
    if num != 0 {
      ModeIsRegular(fs, num);
      OnlyReference(fs, num);
    }
  }

  lemma RemovesReady(fs: Fs, path: seq<Byte>)
    requires Inv(fs) && path != [SLASH]
    ensures SearchLimit(fs.table[ROOT_SLOT].rec.size) <= |fs.dir| && Found(fs, path) < NR_INODES &&
            HasRoom(fs.table, Found(fs, path))
    ensures var num := Found(fs, path);
            num != 0 ==>
              var got := Gotten(fs, num);
              var p := GotSlot(fs.table, num);
              p < |got.table| &&
              (got.table[p].rec.mode == I_REGULAR && got.table[p].cnt <= 1 <==> Removes(fs, path)) &&
              (Removes(fs, path) ==> UnlinkOk(got, num, p) && Refs(got.descs, p) == 0)
  {
    GotToRemove(fs, path);
    if Removes(fs, path) {
      var num := Found(fs, path);
      GetKeeps(fs, num);
      UnlinkReady(Gotten(fs, num), num, GotSlot(fs.table, num));
    }
  }

  /** One request. */
  ghost function Next(fs: Fs, r: Request): (Fs, Outcome)
    requires Inv(fs) && Defined(fs, r)
  {
    match r
    case Open(proc, path, flags) => Opened(fs, proc, path, flags)
    case Close(proc, fd) =>
      HandleIsMentioned(fs, proc, fd);
      (Closed(fs, proc, fd), Returned(0))
    case Rdwt(proc, fd, write, len) =>
      HandleIsMentioned(fs, proc, fd);
      Advanced(fs, proc, fd, write, len)
    case Unlink(path) => Unlinked(fs, path)
  }

  // ---------------------------------------------------------------- every request keeps the invariant

  lemma AttachKeeps(fs: Fs, p: nat, proc: nat, fd: nat, d: nat, flags: Flags)
    requires Inv(fs) && proc < |fs.filp| && fd < NR_FILES && fs.filp[proc][fd] == NIL
    requires d < |fs.descs| && fs.descs[d].inode == NIL && p < |fs.table|
    requires fs.table[p].num == ROOT_INODE || fs.table[p].num >= RESERVED_INODES
    requires fs.table[p].cnt >= Refs(fs.descs, p) + 1 + if p == ROOT_SLOT then 1 else 0
    ensures Inv(Attached(fs, p, proc, fd, d, flags)) && NameMap(Attached(fs, p, proc, fd, d, flags)) == NameMap(fs)
  {
    DescsAttach(fs.table, fs.descs, d, Desc(p, flags, 0));
    HandlesAttach(fs.filp, fs.descs, proc, fd, d, Desc(p, flags, 0));
  }

  lemma OpenKeeps(fs: Fs, proc: nat, path: seq<Byte>, flags: Flags)
    requires Inv(fs) && Legal(fs, Open(proc, path, flags))
    ensures Inv(Opened(fs, proc, path, flags).0)
    ensures NameMap(Opened(fs, proc, path, flags).0) ==
            if Creates(fs, path, flags) && Opened(fs, proc, path, flags).1 != Stopped
            then NameMap(fs)[Stripped(path).value := FirstClear(fs.inodeMap, 0)] else NameMap(fs)
  {
    FoundIsCached(fs, path);
    FoundIsLookup(fs, path);
    var fd, d, num := FreeHandle(fs.filp[proc], 0), FreeDesc(fs.descs, 0), Found(fs, path);
    var (fs1, pin) := OpenedInode(fs, path, flags);
    if fd < NR_FILES && d < NR_FILE_DESC && pin != NIL {
      if flags.create {
        CreateKeeps(fs, Stripped(path).value);
      } else {
        GetKeeps(fs, num);
      }
      AttachKeeps(fs1, pin, proc, fd, d, flags);
    }
  }

  lemma CloseKeeps(fs: Fs, proc: nat, fd: nat)
    requires Inv(fs) && Legal(fs, Close(proc, fd))
    ensures Mentioned(fs, proc, fd) && fs.table[SlotBehind(fs, proc, fd)].cnt > 0
    ensures Inv(Closed(fs, proc, fd)) && NameMap(Closed(fs, proc, fd)) == NameMap(fs)
  {
    HandleIsMentioned(fs, proc, fd);
    var d, p := fs.filp[proc][fd], SlotBehind(fs, proc, fd);
    var slot := fs.table[p].(cnt := fs.table[p].cnt - 1);
    DescsDetach(fs.table, fs.descs, d);
    HandlesDetach(fs.filp, fs.descs, proc, fd);
    OthersDiffer(fs, p);
    CacheUpdate(fs.table, fs.inodes, FileNums(fs), p, slot, FileNums(fs));
    assert fs.inodes[slot.num - 1 := slot.rec] == fs.inodes;
  }

  lemma OthersDiffer(fs: Fs, p: nat)
    requires Inv(fs) && p < |fs.table| && fs.table[p].cnt > 0
    ensures forall q :: 0 <= q < |fs.table| && q != p && fs.table[q].cnt > 0 ==> fs.table[q].num != fs.table[p].num
    ensures p == ROOT_SLOT <==> fs.table[p].num == ROOT_INODE
  {
    forall q | 0 <= q < |fs.table| && q != p && fs.table[q].cnt > 0 ensures fs.table[q].num != fs.table[p].num {
      assert OneSlot(fs.table, q, p);
    }
    assert OneSlot(fs.table, p, ROOT_SLOT);
  }

  lemma MoveKeeps(fs: Fs, d: nat, pos: nat)
    requires Inv(fs) && d < |fs.descs| && DescOk(fs.table, fs.descs[d].(pos := pos))
    ensures Inv(AtPos(fs, d, pos)) && NameMap(AtPos(fs, d, pos)) == NameMap(fs)
  {
    var descs1 := fs.descs[d := fs.descs[d].(pos := pos)];
    DescsMove(fs.table, fs.descs, d, pos);
    forall a, i | 0 <= a < |fs.filp| && 0 <= i < NR_FILES ensures HandleOk(fs.filp, descs1, a, i) {
      assert HandleOk(fs.filp, fs.descs, a, i);
    }
  }

  lemma GrowKeeps(fs: Fs, p: nat, size: nat)
    requires Inv(fs) && p < |fs.table| && fs.table[p].cnt > 0 && fs.table[p].num in FileNums(fs)
    requires fs.table[p].rec.size <= size <= CAPACITY
    ensures 1 <= fs.table[p].num <= |fs.inodes| && Inv(Grown(fs, p, size)) && NameMap(Grown(fs, p, size)) == NameMap(fs)
  {
    var s := fs.table[p];
    var grown := s.(rec := s.rec.(size := size));
    var nums := FileNums(fs);
    OthersDiffer(fs, p);
    assert IsFile(fs.nrSmap, fs.inodes, s.num) && Coherent(fs.table, fs.inodes, nums, p);
    CacheUpdate(fs.table, fs.inodes, nums, p, grown, nums);
    DescsGain(fs.table, fs.descs, p, grown);
    RecordsResize(fs.nrSmap, fs.inodes, nums, s.num, size);
  }

  /** A legal transfer moves exactly the bytes asked for, and only a write to a regular file makes
      it grow. */
  lemma LegalMoves(fs: Fs, proc: nat, fd: nat, write: bool, len: nat)
    requires Inv(fs) && Legal(fs, Rdwt(proc, fd, write, len))
    ensures Mentioned(fs, proc, fd)
    ensures ModeOf(fs, proc, fd).Rdwr() ==>
      BytesMoved(fs, proc, fd, write, len) == len &&
      (PosOf(fs, proc, fd) + len > fs.table[SlotBehind(fs, proc, fd)].rec.size ==>
        write && fs.table[SlotBehind(fs, proc, fd)].num in FileNums(fs) &&
        fs.table[SlotBehind(fs, proc, fd)].cnt > 0 && PosOf(fs, proc, fd) + len <= CAPACITY)
  {
    HandleIsMentioned(fs, proc, fd);
    var rec := fs.table[SlotBehind(fs, proc, fd)].rec;
    var num := fs.table[SlotBehind(fs, proc, fd)].num;
    assert num in FileNums(fs) ==> IsFile(fs.nrSmap, fs.inodes, num);
    if ModeOf(fs, proc, fd).Rdwr() {
      LimitHonoured(PosOf(fs, proc, fd), len, if write then rec.sectors * SECTOR_SIZE else rec.size, fs.bufSectors);
    }
  }

  /** A read within the size, or a write within the capacity, keeps the invariant; the position
      advances by what was asked for, and the size, in memory and on disk, becomes the larger of
      what it was and the new position. */
  lemma RdwtKeeps(fs: Fs, proc: nat, fd: nat, write: bool, len: nat)
    requires Inv(fs) && Legal(fs, Rdwt(proc, fd, write, len))
    ensures Mentioned(fs, proc, fd) && 1 <= fs.table[SlotBehind(fs, proc, fd)].num <= |fs.inodes|
    ensures var fs1 := Advanced(fs, proc, fd, write, len).0;
            Inv(fs1) && NameMap(fs1) == NameMap(fs) && Mentioned(fs1, proc, fd) &&
            SlotBehind(fs1, proc, fd) == SlotBehind(fs, proc, fd) &&
            (ModeOf(fs, proc, fd).Rdwr() ==>
              var s := fs.table[SlotBehind(fs, proc, fd)];
              var pos, size := PosOf(fs1, proc, fd), fs1.inodes[s.num - 1].size;
              Advanced(fs, proc, fd, write, len).1 == Returned(len) &&
              pos == PosOf(fs, proc, fd) + len && size == (if pos > s.rec.size then pos else s.rec.size) &&
              fs1.table[SlotBehind(fs, proc, fd)].rec.size == size && fs1.inodes[s.num - 1] == s.rec.(size := size))
  {
    LegalMoves(fs, proc, fd, write, len);
    HandleIsMentioned(fs, proc, fd);
    var d, p := fs.filp[proc][fd], SlotBehind(fs, proc, fd);
    var pos := fs.descs[d].pos + len;
    assert DescOk(fs.table, fs.descs[d]);
    if fs.descs[d].mode.Rdwr() {
      if pos <= fs.table[p].rec.size {
        MoveKeeps(fs, d, pos);
      } else {
        GrowKeeps(fs, p, pos);
        MoveKeeps(Grown(fs, p, pos), d, pos);
      }
    }
  }

  lemma UnlinkRequestKeeps(fs: Fs, path: seq<Byte>)
    requires Inv(fs) && Legal(fs, Unlink(path))
    ensures Inv(Unlinked(fs, path).0)
    ensures Unlinked(fs, path).1 == Returned(if Removes(fs, path) then 0 else -1)
    ensures NameMap(Unlinked(fs, path).0) ==
            if Removes(fs, path) then NameMap(fs) - {Stripped(path).value} else NameMap(fs)
  {
    FoundIsCached(fs, path);
    FoundIsLookup(fs, path);
    var num := Found(fs, path);
    if path != [SLASH] && num != 0 {
      GetKeeps(fs, num);
      RemovesReady(fs, path);
      if Removes(fs, path) {
        UnlinkKeeps(Gotten(fs, num), num, GotSlot(fs.table, num));
        MapIsInjective(fs.dir, NrEntries(fs), Stripped(path).value,
                       CStr(fs.dir[FindInode(fs.dir, 0, NrEntries(fs), num)].name));
      }
    }
  }

  lemma RequestKeeps(fs: Fs, r: Request)
    requires Inv(fs) && Legal(fs, r)
    ensures Inv(Next(fs, r).0)
  {
    match r
    case Open(proc, path, flags) => OpenKeeps(fs, proc, path, flags);
    case Close(proc, fd) => CloseKeeps(fs, proc, fd);
    case Rdwt(proc, fd, write, len) => RdwtKeeps(fs, proc, fd, write, len);
    case Unlink(path) => UnlinkRequestKeeps(fs, path);
  }

  // ---------------------------------------------------------------- runs

  /** Each request is legal in the state that those before it have led to, and returns: a panic
      can only come after a run. */
  ghost predicate IsRun(fs: Fs, rs: seq<Request>)
    requires Inv(fs)
    decreases |rs|
  {
    rs == [] ||
    (Legal(fs, rs[0]) && (RequestKeeps(fs, rs[0]); Next(fs, rs[0]).1 != Stopped && IsRun(Next(fs, rs[0]).0, rs[1..])))
  }

  /** The state after a run. */
  ghost function After(fs: Fs, rs: seq<Request>): (fs': Fs)
    requires Inv(fs) && IsRun(fs, rs)
    ensures Inv(fs')
    decreases |rs|
  {
    if rs == [] then fs else RequestKeeps(fs, rs[0]); After(Next(fs, rs[0]).0, rs[1..])
  }

  /** One more request at the end of a run. */
  lemma {:induction false} RunThen(fs: Fs, rs: seq<Request>, r: Request)
    requires Inv(fs) && IsRun(fs, rs)
    ensures IsRun(fs, rs + [r]) <==> Legal(After(fs, rs), r) && Next(After(fs, rs), r).1 != Stopped
    ensures IsRun(fs, rs + [r]) ==> After(fs, rs + [r]) == Next(After(fs, rs), r).0
    decreases |rs|
  {
    if rs == [] {
      assert [r][1..] == [];
      if Legal(fs, r) {
        RequestKeeps(fs, r);
        assert IsRun(Next(fs, r).0, []);
      }
    } else {
      TailOfSum(rs, [r]);
      RequestKeeps(fs, rs[0]);
      RunThen(Next(fs, rs[0]).0, rs[1..], r);
    }
  }

  lemma TailOfSum<T>(a: seq<T>, b: seq<T>)
    requires a != []
    ensures (a + b)[0] == a[0] && (a + b)[1..] == a[1..] + b
  {
  }

  /** One run after another. */
  lemma {:induction false} RunsJoin(fs: Fs, rs: seq<Request>, ss: seq<Request>)
    requires Inv(fs) && IsRun(fs, rs) && IsRun(After(fs, rs), ss)
    ensures IsRun(fs, rs + ss) && After(fs, rs + ss) == After(After(fs, rs), ss)
    decreases |rs|
  {
    if rs == [] {
      assert rs + ss == ss;
    } else {
      TailOfSum(rs, ss);
      RequestKeeps(fs, rs[0]);
      RunsJoin(Next(fs, rs[0]).0, rs[1..], ss);
    }
  }

  /** An open file is never freed: whatever run comes before, an unlink clears no inode that a
      file handle leads to. */
  lemma OpenFilesAreSafe(fs: Fs, path: seq<Byte>, proc: nat, fd: nat)
    requires Inv(fs) && proc < |fs.filp| && fd < NR_FILES && fs.filp[proc][fd] != NIL
    ensures Mentioned(fs, proc, fd)
    ensures Removes(fs, path) ==> (FoundIsCached(fs, path); Found(fs, path) != fs.table[SlotBehind(fs, proc, fd)].num)
  {
    HandleIsMentioned(fs, proc, fd);
  }

  /** Two handles never lead to the same descriptor, so that each file position has one owner. */
  lemma PositionsAreOwn(fs: Fs, a: nat, i: nat, b: nat, j: nat)
    requires Inv(fs) && a < |fs.filp| && b < |fs.filp| && i < NR_FILES && j < NR_FILES && (a != b || i != j)
    ensures fs.filp[a][i] == NIL || fs.filp[a][i] != fs.filp[b][j]
  {
    assert HandlesApart(fs.filp, a, i, b, j);
  }

  /** A set bit of the inode map is a reserved inode's, or that of exactly one entry of the directory. */
  lemma BitsAreEntries(fs: Fs, num: nat)
    requires DiskOk(fs) && num < |fs.inodeMap|
    ensures fs.inodeMap[num] <==> num < RESERVED_INODES || exists k :: 0 <= k < NrEntries(fs) && fs.dir[k].inode == num
    ensures num > 0 ==> forall j, k :: 0 <= j < k < NrEntries(fs) && fs.dir[j].inode == num ==> fs.dir[k].inode != num
  {
    NumsAreEntries(fs.dir, NrEntries(fs), num);
    forall j, k | 0 <= j < k < NrEntries(fs) && fs.dir[j].inode == num && num > 0 ensures fs.dir[k].inode != num {
      assert Apart(fs.dir, j, k);
    }
  }

  // ---------------------------------------------------------------- what users see

  /** Create and then search: the new inode is found under the new name, and under every other
      name what was found before. */
  lemma CreateThenSearch(fs: Fs, proc: nat, path: seq<Byte>, flags: Flags, other: seq<Byte>)
    requires Inv(fs) && proc < |fs.filp| && NoNul(path)
    requires Creates(fs, path, flags) && CanCreate(fs, Stripped(path).value)
    requires FreeHandle(fs.filp[proc], 0) < NR_FILES && FreeDesc(fs.descs, 0) < NR_FILE_DESC
    ensures var fs1 := Opened(fs, proc, path, flags).0;
            Inv(fs1) && (FoundIsCached(fs1, path); Found(fs1, path) == FirstClear(fs.inodeMap, 0) != 0) &&
            (Stripped(other) != Stripped(path) ==>
              (FoundIsCached(fs, other); FoundIsCached(fs1, other); Found(fs1, other) == Found(fs, other)))
  {
    OpenKeeps(fs, proc, path, flags);
    InodeIsFree(fs);
    var fs1 := Opened(fs, proc, path, flags).0;
    FoundIsLookup(fs1, path);
    FoundIsLookup(fs, other);
    FoundIsLookup(fs1, other);
  }

  /** Unlink and then search: the name is gone, and no other is. */
  lemma UnlinkThenSearch(fs: Fs, path: seq<Byte>, other: seq<Byte>)
    requires Inv(fs) && Legal(fs, Unlink(path)) && Removes(fs, path)
    ensures var fs1 := Unlinked(fs, path).0;
            Inv(fs1) && (FoundIsCached(fs1, path); Found(fs1, path) == 0) &&
            (Stripped(other) != Stripped(path) ==>
              (FoundIsCached(fs, other); FoundIsCached(fs1, other); Found(fs1, other) == Found(fs, other)))
  {
    UnlinkRequestKeeps(fs, path);
    var fs1 := Unlinked(fs, path).0;
    FoundIsLookup(fs1, path);
    FoundIsLookup(fs, other);
    FoundIsLookup(fs1, other);
  }
}
