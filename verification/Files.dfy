/** The file system between two requests: what the maps, the inode records, the directory, the
    cached inodes and the open files have to do with each other (`Inv`), what each request does
    to them, and what that means for each of these parts taken by itself. */
module Files {
  import opened Device
  import opened Volume
  import opened SectorMap
  import opened Records
  import opened InodeCache
  import opened Directory
  import opened Names
  import opened Extents

  const NR_FILES := 10
  const NR_FILE_DESC := 256
  const RESERVED_INODES := 5

  /** `inode_table[0]`, which `init_fs` gives to the root directory for good. */
  const ROOT_SLOT := 0

  /** NR_DEFAULT_FILE_SECTS * SECTOR_SIZE. */
  const CAPACITY := 0x10_0000

  /** O_CREAT, O_READ and O_WRITE. */
  datatype Flags = Flags(create: bool, read: bool, write: bool) {
    /** `flags & O_RDWR`: either bit will do, for a read as for a write. */
    predicate Rdwr() {
      read || write
    }
  }

  /** FILE_DESC; `inode` is a slot of the inode table, or NIL in a free descriptor. */
  datatype Desc = Desc(inode: int, mode: Flags, pos: nat)

  /** `bufSectors` is the size of `fsbuf`.  `filp` has a row of file handles per process, each a
      descriptor's index or NIL. */
  datatype Fs = Fs(nrSmap: nat, bufSectors: nat, inodeMap: seq<bool>, sectorMap: seq<bool>, inodes: seq<Record>,
                   dir: seq<Entry>, table: seq<Slot>, descs: seq<Desc>, filp: seq<seq<int>>)

  // ---------------------------------------------------------------- invariant

  ghost predicate Sized(fs: Fs) {
    |fs.inodeMap| == BITS_PER_SECTOR && |fs.sectorMap| == fs.nrSmap * BITS_PER_SECTOR && |fs.inodes| == NR_INODES &&
    |fs.table| == NR_INODES && |fs.descs| == NR_FILE_DESC &&
    0 < fs.nrSmap && 0 < fs.bufSectors && FirstSector(fs.nrSmap) + fs.nrSmap * BITS_PER_SECTOR < WORD_LIMIT
  }

  /** The inodes of regular files, the root directory and the terminals not being among them. */
  function Nums(dir: seq<Entry>, nr: nat): set<nat>
    requires nr <= |dir|
  {
    AsMap(dir, nr).Values - {1, 2, 3, 4}
  }

  ghost predicate DirOk(dir: seq<Entry>, size: nat) {
    var nr := size / DIR_ENTRY_SIZE;
    size == DIR_ENTRY_SIZE * nr && 4 <= nr && Tidy(dir, nr) &&
    dir[0].inode == 1 && dir[1].inode == 2 && dir[2].inode == 3 && dir[3].inode == 4
  }

  function SlotOf(nrSmap: nat, r: Record): nat {
    if r.start < FirstSector(nrSmap) then 0 else (r.start - FirstSector(nrSmap)) / NR_DEFAULT_FILE_SECTS
  }

  /** The record of a regular file: it owns one whole slot, which is not the root directory's. */
  predicate IsFile(nrSmap: nat, inodes: seq<Record>, n: nat) {
    RESERVED_INODES <= n < NR_INODES == |inodes| &&
    var r := inodes[n - 1];
    r.mode == I_REGULAR && r.sectors == NR_DEFAULT_FILE_SECTS && r.size <= CAPACITY &&
    SlotOf(nrSmap, r) > 0 && r.start == FirstSector(nrSmap) + NR_DEFAULT_FILE_SECTS * SlotOf(nrSmap, r) &&
    BitOfSlot(SlotOf(nrSmap, r) + 1) <= nrSmap * BITS_PER_SECTOR
  }

  function SlotAt(nrSmap: nat, inodes: seq<Record>, n: nat): nat {
    if 1 <= n <= |inodes| then SlotOf(nrSmap, inodes[n - 1]) else 0
  }

  predicate OwnSlots(nrSmap: nat, inodes: seq<Record>, a: nat, b: nat) {
    SlotAt(nrSmap, inodes, a) == SlotAt(nrSmap, inodes, b) ==> a == b
  }

  ghost predicate RecordsOk(nrSmap: nat, inodes: seq<Record>, nums: set<nat>) {
    |inodes| == NR_INODES &&
    inodes[0].mode == I_DIRECTORY && inodes[0].start == FirstSector(nrSmap) &&
    inodes[0].sectors == NR_DEFAULT_FILE_SECTS &&
    inodes[1].mode == I_CHAR_SPECIAL && inodes[2].mode == I_CHAR_SPECIAL && inodes[3].mode == I_CHAR_SPECIAL &&
    (forall n :: n in nums ==> IsFile(nrSmap, inodes, n)) &&
    forall a, b :: a in nums && b in nums ==> OwnSlots(nrSmap, inodes, a, b)
  }

  /** The slots in use: the root directory's and one per file. */
  function UsedSlots(nrSmap: nat, inodes: seq<Record>, nums: set<nat>): set<nat>
  {
    {0} + set n | n in nums :: SlotAt(nrSmap, inodes, n)
  }

  /** A cached inode exists and agrees with its record on disk. */
  predicate Coherent(table: seq<Slot>, inodes: seq<Record>, nums: set<nat>, p: nat)
    requires p < |table|
  {
    var s := table[p];
    s.cnt > 0 ==> (1 <= s.num < RESERVED_INODES || s.num in nums) && 1 <= s.num < |inodes| && s.rec == inodes[s.num - 1]
  }

  predicate OneSlot(table: seq<Slot>, p: nat, q: nat)
    requires p < |table| && q < |table|
  {
    table[p].cnt > 0 && table[q].cnt > 0 && table[p].num == table[q].num ==> p == q
  }

  ghost predicate CacheOk(table: seq<Slot>, inodes: seq<Record>, nums: set<nat>) {
    |table| > ROOT_SLOT && table[ROOT_SLOT].cnt > 0 && table[ROOT_SLOT].num == ROOT_INODE &&
    (forall p :: 0 <= p < |table| ==> Coherent(table, inodes, nums, p)) &&
    forall p, q :: 0 <= p < |table| && 0 <= q < |table| ==> OneSlot(table, p, q)
  }

  /** The number of descriptors that name slot `p`. */
  function Refs(descs: seq<Desc>, p: int): (n: nat) {
    if descs == [] then 0
    else Refs(descs[..|descs| - 1], p) + if descs[|descs| - 1].inode == p then 1 else 0
  }

  /** References are counted: a descriptor each, and one for `root_inode`. */
  predicate Counted(table: seq<Slot>, descs: seq<Desc>, p: nat)
    requires p < |table|
  {
    table[p].cnt >= Refs(descs, p) + if p == ROOT_SLOT then 1 else 0
  }

  /** A descriptor in use names a file, and its position is within it, or the root directory,
      and its position is within its block. */
  predicate DescOk(table: seq<Slot>, d: Desc) {
    d.inode == NIL ||
    (0 <= d.inode < |table| &&
     ((table[d.inode].num == ROOT_INODE && d.pos <= SECTOR_SIZE) ||
      (table[d.inode].num >= RESERVED_INODES && d.pos <= table[d.inode].rec.size)))
  }

  ghost predicate DescsOk(table: seq<Slot>, descs: seq<Desc>) {
    (forall p :: 0 <= p < |table| ==> Counted(table, descs, p)) &&
    forall d :: 0 <= d < |descs| ==> DescOk(table, descs[d])
  }

  predicate HandleOk(filp: seq<seq<int>>, descs: seq<Desc>, proc: nat, fd: nat)
    requires proc < |filp| && fd < |filp[proc]|
  {
    filp[proc][fd] == NIL || (0 <= filp[proc][fd] < |descs| && descs[filp[proc][fd]].inode != NIL)
  }

  predicate HandlesApart(filp: seq<seq<int>>, proc: nat, fd: nat, proc': nat, fd': nat)
    requires proc < |filp| && fd < |filp[proc]| && proc' < |filp| && fd' < |filp[proc']|
  {
    filp[proc][fd] != NIL && filp[proc][fd] == filp[proc'][fd'] ==> proc == proc' && fd == fd'
  }

  /** No two file handles share a descriptor. */
  ghost predicate HandlesOk(filp: seq<seq<int>>, descs: seq<Desc>) {
    (forall proc :: 0 <= proc < |filp| ==> |filp[proc]| == NR_FILES) &&
    (forall proc, fd :: 0 <= proc < |filp| && 0 <= fd < NR_FILES ==> HandleOk(filp, descs, proc, fd)) &&
    forall proc, fd, proc', fd' ::
      0 <= proc < |filp| && 0 <= fd < NR_FILES && 0 <= proc' < |filp| && 0 <= fd' < NR_FILES ==>
      HandlesApart(filp, proc, fd, proc', fd')
  }

  function NrEntries(fs: Fs): nat
    requires |fs.inodes| > 0
  {
    fs.inodes[0].size / DIR_ENTRY_SIZE
  }

  /** The part of the invariant that is about the disk alone. */
  ghost predicate DiskOk(fs: Fs) {
    Sized(fs) && DirOk(fs.dir, fs.inodes[0].size) &&
    var nums := Nums(fs.dir, NrEntries(fs));
    IsInodeMap(fs.inodeMap, RESERVED_INODES, nums) && RecordsOk(fs.nrSmap, fs.inodes, nums) &&
    IsSlotMap(fs.sectorMap, UsedSlots(fs.nrSmap, fs.inodes, nums))
  }

  ghost predicate Inv(fs: Fs) {
    DiskOk(fs) && CacheOk(fs.table, fs.inodes, Nums(fs.dir, NrEntries(fs))) &&
    DescsOk(fs.table, fs.descs) && HandlesOk(fs.filp, fs.descs)
  }

  // ---------------------------------------------------------------- what the requests do

  /** `search_file`, given the root directory's size. */
  function Found(fs: Fs, path: seq<Byte>): nat
    requires |fs.table| > ROOT_SLOT && SearchLimit(fs.table[ROOT_SLOT].rec.size) <= |fs.dir|
  {
    match Stripped(path)
    case None => 0
    case Some(name) => Lookup(fs.dir, 0, SearchLimit(fs.table[ROOT_SLOT].rec.size), name)
  }

  function WithRootSize(fs: Fs, size: nat): (r: Fs)
    requires |fs.table| > ROOT_SLOT && 1 <= fs.table[ROOT_SLOT].num <= |fs.inodes|
  {
    var root := fs.table[ROOT_SLOT].(rec := fs.table[ROOT_SLOT].rec.(size := size));
    fs.(table := fs.table[ROOT_SLOT := root], inodes := fs.inodes[root.num - 1 := root.rec])
  }

  /** What `create_file` needs so that none of the kernel's assertions fails in it and the name
      fits its field. */
  ghost predicate CanAllocate(fs: Fs, name: Name) {
    Storable(name) && CanAlloc(fs.sectorMap, NR_DEFAULT_FILE_SECTS)
  }

  /** What it needs besides, so that the new file can be found. */
  ghost predicate CanCreate(fs: Fs, name: Name)
    requires |fs.inodes| > 0 && NrEntries(fs) <= |fs.dir|
  {
    CanAllocate(fs, name) && name != [] && SlotInBlock(fs.dir, fs.inodes[0].size)
  }

  /** `create_file` up to `new_inode`. */
  function Allocated(fs: Fs): Fs
    requires var num := FirstClear(fs.inodeMap, 0);
             0 < num < |fs.inodeMap| && num <= |fs.inodes| && HasRoom(fs.table, num)
  {
    var num := FirstClear(fs.inodeMap, 0);
    var f := FirstClear(fs.sectorMap, 0);
    var rec := Record(I_REGULAR, 0, SectorOfBit(fs.nrSmap, f), NR_DEFAULT_FILE_SECTS);
    fs.(inodeMap := fs.inodeMap[num := true], sectorMap := WithRange(fs.sectorMap, f, NR_DEFAULT_FILE_SECTS, true),
        inodes := fs.inodes[num - 1 := rec], table := fs.table[GotSlot(fs.table, num) := Slot(1, num, rec)])
  }

  /** `new_dir_entry`: the entry goes into the slot found, unless that lies behind the last block
      read; then that block is written once more behind itself. */
  function Entered(fs: Fs, num: nat, name: Name): Fs
    requires |fs.table| > ROOT_SLOT && 1 <= fs.table[ROOT_SLOT].num <= |fs.inodes| && Storable(name)
    requires var size := fs.table[ROOT_SLOT].rec.size;
             var nr := size / DIR_ENTRY_SIZE;
             nr < |fs.dir| &&
             if SlotInBlock(fs.dir, size) then |fs.dir[FirstHole(fs.dir, 0, nr)].name| == MAX_FILENAME_LEN
             else ENTRIES_PER_SECTOR <= nr
  {
    var size := fs.table[ROOT_SLOT].rec.size;
    var nr := size / DIR_ENTRY_SIZE;
    var h := FirstHole(fs.dir, 0, nr);
    var dir := if SlotInBlock(fs.dir, size) then Inserted(fs.dir, h, num, name) else BlockRepeated(fs.dir, nr);
    WithRootSize(fs.(dir := dir), if h < nr then size else size + DIR_ENTRY_SIZE)
  }

  /** The end of a successful `do_open`. */
  function Attached(fs: Fs, p: nat, proc: nat, fd: nat, d: nat, flags: Flags): Fs
    requires d < |fs.descs| && proc < |fs.filp| && fd < |fs.filp[proc]|
  {
    fs.(descs := fs.descs[d := Desc(p, flags, 0)], filp := fs.filp[proc := fs.filp[proc][fd := d]])
  }

  /** `do_unlink` of a regular file, from the inode map to `put_inode`; slot `p` was taken by `get_inode`. */
  function Freed(fs: Fs, num: nat, p: nat): Fs
    requires num < |fs.inodeMap| && p < |fs.table| && fs.table[p].cnt > 0 && 1 <= num <= |fs.inodes|
  {
    var rec := fs.table[p].rec;
    var gone := Record(0, 0, 0, 0);
    fs.(inodeMap := fs.inodeMap[num := false],
        sectorMap := WithRange(fs.sectorMap, BitOfSector(fs.nrSmap, rec.start), rec.sectors, false),
        inodes := fs.inodes[num - 1 := gone], table := fs.table[p := Slot(fs.table[p].cnt - 1, num, gone)])
  }

  /** The rest of `do_unlink`. */
  function Erased(fs: Fs, num: nat): Fs
    requires |fs.table| > ROOT_SLOT && 1 <= fs.table[ROOT_SLOT].num <= |fs.inodes|
    requires var nr := fs.table[ROOT_SLOT].rec.size / DIR_ENTRY_SIZE;
             nr <= |fs.dir| && FindInode(fs.dir, 0, nr, num) < nr
  {
    var nr := fs.table[ROOT_SLOT].rec.size / DIR_ENTRY_SIZE;
    var e := FindInode(fs.dir, 0, nr, num);
    var erased := fs.(dir := fs.dir[e := ERASED]);
    if e + 1 == nr then WithRootSize(erased, DIR_ENTRY_SIZE * LiveBefore(fs.dir, e)) else erased
  }

  // ---------------------------------------------------------------- the directory part

  lemma NumsAreEntries(dir: seq<Entry>, nr: nat, num: nat)
    requires Tidy(dir, nr)
    ensures num in Nums(dir, nr) <==> num > 4 && FindInode(dir, 0, nr, num) < nr
  {
    var e := FindInode(dir, 0, nr, num);
    var m := AsMap(dir, nr);
    if num in Nums(dir, nr) {
      var name :| name in m && m[name] == num;
      var k := EntryOf(dir, nr, name);
      assert dir[k].inode == num;
    }
    if num > 4 && e < nr {
      TidyEntryInMap(dir, nr, e);
    }
  }

  lemma DirCreate(dir: seq<Entry>, size: nat, num: nat, name: Name)
    requires DirOk(dir, size) && SlotInBlock(dir, size) && num >= RESERVED_INODES &&
             num !in Nums(dir, size / DIR_ENTRY_SIZE)
    requires Storable(name) && name != [] && name !in AsMap(dir, size / DIR_ENTRY_SIZE)
    ensures var nr := size / DIR_ENTRY_SIZE;
            var h := FirstHole(dir, 0, nr);
            var nr1 := GrownTo(dir, nr);
            |dir[h].name| == MAX_FILENAME_LEN && DirOk(Inserted(dir, h, num, name), DIR_ENTRY_SIZE * nr1) &&
            AsMap(Inserted(dir, h, num, name), nr1) == AsMap(dir, nr)[name := num] &&
            Nums(Inserted(dir, h, num, name), nr1) == Nums(dir, nr) + {num}
  {
    var nr := size / DIR_ENTRY_SIZE;
    NumsAreEntries(dir, nr, num);
    CreateAddsName(dir, nr, num, name);
    var m := AsMap(dir, nr);
    var m1 := m[name := num];
    assert m1.Values == m.Values + {num} by {
      forall v | v in m.Values ensures v in m1.Values {
        var n :| n in m && m[n] == v;
        assert n in m1 && m1[n] == v;
      }
      assert name in m1 && m1[name] == num;
    }
  }

  lemma DirUnlink(dir: seq<Entry>, size: nat, num: nat)
    requires DirOk(dir, size) && num in Nums(dir, size / DIR_ENTRY_SIZE)
    requires var nr := size / DIR_ENTRY_SIZE;
             var e := FindInode(dir, 0, nr, num);
             e + 1 == nr ==> Packed(dir, e)
    ensures var nr := size / DIR_ENTRY_SIZE;
            var e := FindInode(dir, 0, nr, num);
            e < nr && var nr1 := ShrunkTo(dir, nr, e);
            DirOk(dir[e := ERASED], DIR_ENTRY_SIZE * nr1) &&
            AsMap(dir[e := ERASED], nr1) == AsMap(dir, nr) - {CStr(dir[e].name)} &&
            Nums(dir[e := ERASED], nr1) == Nums(dir, nr) - {num}
  {
    var nr := size / DIR_ENTRY_SIZE;
    var e := FindInode(dir, 0, nr, num);
    NumsAreEntries(dir, nr, num);
    UnlinkRemovesName(dir, nr, e);
    TidyEntryInMap(dir, nr, e);
    AllLive(dir, 4);
    LiveGrows(dir, 4, e);
    var m := AsMap(dir, nr);
    var name := CStr(dir[e].name);
    var m1 := m - {name};
    forall v ensures v in m1.Values <==> v in m.Values && v != num {
      if v in m.Values && v != num {
        var n :| n in m && m[n] == v;
        assert n in m1 && m1[n] == v;
      }
      if v in m1.Values {
        var n :| n in m1 && m1[n] == v;
        assert n in m && m[n] == v;
        MapIsInjective(dir, nr, n, name);
      }
    }
  }

  lemma {:induction false} LiveGrows(dir: seq<Entry>, m: nat, n: nat)
    requires m <= n <= |dir|
    ensures LiveBefore(dir, m) <= LiveBefore(dir, n)
    decreases n
  {
    if m < n {
      LiveGrows(dir, m, n - 1);
    }
  }

  // ---------------------------------------------------------------- the maps and the records

  lemma RecordsCreate(nrSmap: nat, inodes: seq<Record>, nums: set<nat>, num: nat, t: nat, root: Record)
    requires RecordsOk(nrSmap, inodes, nums) && num !in nums && RESERVED_INODES <= num < NR_INODES
    requires t !in UsedSlots(nrSmap, inodes, nums) && BitOfSlot(t + 1) <= nrSmap * BITS_PER_SECTOR
    requires root == inodes[0].(size := root.size)
    ensures var rec := Record(I_REGULAR, 0, SectorOfBit(nrSmap, BitOfSlot(t)), NR_DEFAULT_FILE_SECTS);
            var inodes1 := inodes[num - 1 := rec][0 := root];
            RecordsOk(nrSmap, inodes1, nums + {num}) &&
            UsedSlots(nrSmap, inodes1, nums + {num}) == UsedSlots(nrSmap, inodes, nums) + {t}
  {
  }

  lemma RecordsUnlink(nrSmap: nat, inodes: seq<Record>, nums: set<nat>, num: nat)
    requires RecordsOk(nrSmap, inodes, nums) && num in nums
    ensures var t := SlotAt(nrSmap, inodes, num);
            var inodes1 := inodes[num - 1 := Record(0, 0, 0, 0)];
            RecordsOk(nrSmap, inodes1, nums - {num}) &&
            UsedSlots(nrSmap, inodes1, nums - {num}) == UsedSlots(nrSmap, inodes, nums) - {t}
  {
    var t := SlotAt(nrSmap, inodes, num);
    var inodes1 := inodes[num - 1 := Record(0, 0, 0, 0)];
    assert IsFile(nrSmap, inodes, num);
    forall n | n in nums - {num}
      ensures IsFile(nrSmap, inodes1, n) && SlotAt(nrSmap, inodes1, n) == SlotAt(nrSmap, inodes, n) != t
    {
      assert IsFile(nrSmap, inodes, n) && OwnSlots(nrSmap, inodes, n, num);
    }
    forall a, b | a in nums - {num} && b in nums - {num} ensures OwnSlots(nrSmap, inodes1, a, b) {
      assert OwnSlots(nrSmap, inodes, a, b);
    }
    forall s ensures s in UsedSlots(nrSmap, inodes1, nums - {num}) <==> s in UsedSlots(nrSmap, inodes, nums) - {t} {
      if s in UsedSlots(nrSmap, inodes, nums) && s != 0 && s != t {
        var n :| n in nums && SlotAt(nrSmap, inodes, n) == s;
        assert n in nums - {num} && SlotAt(nrSmap, inodes1, n) == s;
      }
    }
  }

  /** The size of a file or of the directory may change without changing anything else here. */
  lemma RecordsResize(nrSmap: nat, inodes: seq<Record>, nums: set<nat>, num: nat, size: nat)
    requires RecordsOk(nrSmap, inodes, nums) && (num in nums || num == ROOT_INODE) && (num in nums ==> size <= CAPACITY)
    requires forall n :: n in nums ==> n >= RESERVED_INODES
    ensures 1 <= num <= |inodes|
    ensures var inodes1 := inodes[num - 1 := inodes[num - 1].(size := size)];
            RecordsOk(nrSmap, inodes1, nums) && UsedSlots(nrSmap, inodes1, nums) == UsedSlots(nrSmap, inodes, nums)
  {
    assert num in nums ==> IsFile(nrSmap, inodes, num);
    var inodes1 := inodes[num - 1 := inodes[num - 1].(size := size)];
    forall n | n in nums ensures IsFile(nrSmap, inodes1, n) && SlotAt(nrSmap, inodes1, n) == SlotAt(nrSmap, inodes, n) {
      assert IsFile(nrSmap, inodes, n);
    }
    forall a, b | a in nums && b in nums ensures OwnSlots(nrSmap, inodes1, a, b) {
      assert OwnSlots(nrSmap, inodes, a, b);
    }
  }

  // ---------------------------------------------------------------- the cached inodes

  /** The numbers of the first `k` cached inodes. */
  function Cached(table: seq<Slot>, k: nat): (s: set<nat>)
    requires k <= |table|
  {
    if k == 0 then {} else Cached(table, k - 1) + {table[k - 1].num}
  }

  lemma {:induction false} CachedElsewhere(table: seq<Slot>, k: nat, n: nat)
    requires k <= |table| && forall p :: 0 <= p < k ==> table[p].num != n
    ensures n !in Cached(table, k)
  {
    if k > 0 {
      CachedElsewhere(table, k - 1, n);
    }
  }

  lemma {:induction false} CachedSize(table: seq<Slot>, k: nat, n: nat)
    requires k <= |table| && forall p, q :: 0 <= p < |table| && 0 <= q < |table| ==> OneSlot(table, p, q)
    requires forall p :: 0 <= p < k ==> table[p].cnt > 0 && 1 <= table[p].num < n
    ensures |Cached(table, k)| == k && Cached(table, k) <= UpTo(n) - {0}
  {
    if k > 0 {
      CachedSize(table, k - 1, n);
      forall p | 0 <= p < k - 1 ensures table[p].num != table[k - 1].num {
        assert OneSlot(table, p, k - 1);
      }
      CachedElsewhere(table, k - 1, table[k - 1].num);
    }
  }

  /** The inode table has a slot for each inode that the inode map can number, so that
      `get_inode` never finds it full. */
  lemma TableHasRoom(table: seq<Slot>, inodes: seq<Record>, nums: set<nat>, num: nat)
    requires CacheOk(table, inodes, nums) && forall n :: n in nums ==> n < |table|
    requires |table| >= RESERVED_INODES
    ensures HasRoom(table, num)
  {
    var n := |table|;
    if forall p :: 0 <= p < n ==> table[p].cnt > 0 {
      forall p | 0 <= p < n ensures 1 <= table[p].num < n {
        assert Coherent(table, inodes, nums, p);
      }
      CachedSize(table, n, n);
      SubsetSize(Cached(table, n), UpTo(n) - {0});
    }
  }

  /** An inode that is not in use is not cached. */
  lemma NotCached(table: seq<Slot>, inodes: seq<Record>, nums: set<nat>, num: nat)
    requires CacheOk(table, inodes, nums) && num >= RESERVED_INODES && num !in nums && HasRoom(table, num)
    ensures var p := GotSlot(table, num);
            p < |table| && p != ROOT_SLOT && table[p].cnt == 0 &&
            forall q :: 0 <= q < |table| && table[q].cnt > 0 ==> table[q].num != num
  {
    var c := FindCached(table, num, 0);
    forall q | 0 <= q < |table| && table[q].cnt > 0 ensures table[q].num != num {
      assert Coherent(table, inodes, nums, q);
    }
  }

  lemma CacheGet(table: seq<Slot>, inodes: seq<Record>, nums: set<nat>, num: nat)
    requires CacheOk(table, inodes, nums) && HasRoom(table, num)
    requires 1 <= num < |inodes| && (num < RESERVED_INODES || num in nums)
    ensures CacheOk(GotTable(table, inodes, num), inodes, nums)
  {
    var t := GotTable(table, inodes, num);
    forall p | 0 <= p < |t| ensures Coherent(t, inodes, nums, p) {
      assert Coherent(table, inodes, nums, p);
    }
    forall p, q | 0 <= p < |t| && 0 <= q < |t| ensures OneSlot(t, p, q) {
      assert OneSlot(table, p, q);
    }
  }

  /** A record and the slot that holds it change together. */
  lemma CacheUpdate(table: seq<Slot>, inodes: seq<Record>, nums: set<nat>, p: nat, slot: Slot, nums1: set<nat>)
    requires CacheOk(table, inodes, nums) && p < |table| && 1 <= slot.num < |inodes|
    requires forall q :: 0 <= q < |table| && q != p && table[q].cnt > 0 ==> table[q].num != slot.num
    requires slot.cnt > 0 ==> slot.num < RESERVED_INODES || slot.num in nums1
    requires forall n :: n in nums && n != slot.num ==> n in nums1
    requires p == ROOT_SLOT ==> slot.cnt > 0 && slot.num == ROOT_INODE
    ensures CacheOk(table[p := slot], inodes[slot.num - 1 := slot.rec], nums1)
  {
    var t := table[p := slot];
    var inodes1 := inodes[slot.num - 1 := slot.rec];
    forall q | 0 <= q < |t| ensures Coherent(t, inodes1, nums1, q) {
      assert Coherent(table, inodes, nums, q);
    }
    forall q, r | 0 <= q < |t| && 0 <= r < |t| ensures OneSlot(t, q, r) {
      assert OneSlot(table, q, r);
    }
  }

  // ---------------------------------------------------------------- descriptors and handles

  lemma {:induction false} RefsUpdate(descs: seq<Desc>, d: nat, x: Desc, p: int)
    requires d < |descs|
    ensures Refs(descs[d := x], p) ==
      Refs(descs, p) - (if descs[d].inode == p then 1 else 0) + (if x.inode == p then 1 else 0)
  {
    var n := |descs| - 1;
    if d < n {
      RefsUpdate(descs[..n], d, x, p);
      assert descs[d := x][..n] == descs[..n][d := x];
    } else {
      assert descs[d := x][..n] == descs[..n];
    }
  }

  lemma {:induction false} RefsPositive(descs: seq<Desc>, d: nat)
    requires d < |descs|
    ensures Refs(descs, descs[d].inode) > 0
  {
    if d < |descs| - 1 {
      RefsPositive(descs[..|descs| - 1], d);
    }
  }

  predicate SameFile(old_: seq<Slot>, table: seq<Slot>, p: nat)
    requires p < |old_| == |table|
  {
    table[p].num == old_[p].num && (table[p].num >= RESERVED_INODES ==> table[p].rec.size >= old_[p].rec.size)
  }

  lemma DescsKept(table: seq<Slot>, table1: seq<Slot>, descs: seq<Desc>)
    requires DescsOk(table, descs) && |table1| == |table|
    requires forall p :: 0 <= p < |table| ==> Counted(table1, descs, p)
    requires forall p :: 0 <= p < |table| && Refs(descs, p) > 0 ==> SameFile(table, table1, p)
    ensures DescsOk(table1, descs)
  {
    forall d | 0 <= d < |descs| ensures DescOk(table1, descs[d]) {
      assert DescOk(table, descs[d]);
      RefsPositive(descs, d);
    }
  }

  /** A slot that gains references, or was free, leaves the descriptors right. */
  lemma DescsGain(table: seq<Slot>, descs: seq<Desc>, p: nat, slot: Slot)
    requires DescsOk(table, descs) && p < |table| && slot.cnt >= table[p].cnt
    requires table[p].cnt > 0 ==> SameFile(table, table[p := slot], p)
    ensures DescsOk(table[p := slot], descs)
  {
    var t := table[p := slot];
    forall q | 0 <= q < |table| ensures Counted(t, descs, q) && (Refs(descs, q) > 0 ==> SameFile(table, t, q)) {
      assert Counted(table, descs, q);
    }
    DescsKept(table, t, descs);
  }

  lemma DescsAttach(table: seq<Slot>, descs: seq<Desc>, d: nat, x: Desc)
    requires DescsOk(table, descs) && d < |descs| && descs[d].inode == NIL && DescOk(table, x) && x.inode != NIL
    requires table[x.inode].cnt >= Refs(descs, x.inode) + 1 + if x.inode == ROOT_SLOT then 1 else 0
    ensures DescsOk(table, descs[d := x])
  {
    var descs1 := descs[d := x];
    forall p | 0 <= p < |table| ensures Counted(table, descs1, p) {
      assert Counted(table, descs, p);
      RefsUpdate(descs, d, x, p);
    }
  }

  lemma DescsDetach(table: seq<Slot>, descs: seq<Desc>, d: nat)
    requires DescsOk(table, descs) && d < |descs| && descs[d].inode != NIL
    ensures var p := descs[d].inode;
            0 <= p < |table| && table[p].cnt > (if p == ROOT_SLOT then 1 else 0) &&
            DescsOk(table[p := table[p].(cnt := table[p].cnt - 1)], descs[d := descs[d].(inode := NIL)])
  {
    var p := descs[d].inode;
    assert DescOk(table, descs[d]) && Counted(table, descs, p);
    RefsPositive(descs, d);
    var t, descs1 := table[p := table[p].(cnt := table[p].cnt - 1)], descs[d := descs[d].(inode := NIL)];
    forall q | 0 <= q < |table| ensures Counted(t, descs1, q) {
      assert Counted(table, descs, q);
      RefsUpdate(descs, d, descs1[d], q);
    }
    forall e | 0 <= e < |descs| ensures DescOk(t, descs1[e]) {
      assert DescOk(table, descs[e]);
    }
  }

  lemma DescsMove(table: seq<Slot>, descs: seq<Desc>, d: nat, pos: nat)
    requires DescsOk(table, descs) && d < |descs| && DescOk(table, descs[d].(pos := pos))
    ensures DescsOk(table, descs[d := descs[d].(pos := pos)])
  {
    var descs1 := descs[d := descs[d].(pos := pos)];
    forall p | 0 <= p < |table| ensures Counted(table, descs1, p) {
      assert Counted(table, descs, p);
      RefsUpdate(descs, d, descs[d].(pos := pos), p);
    }
  }

  lemma HandlesAttach(filp: seq<seq<int>>, descs: seq<Desc>, proc: nat, fd: nat, d: nat, x: Desc)
    requires HandlesOk(filp, descs) && proc < |filp| && fd < NR_FILES && filp[proc][fd] == NIL
    requires d < |descs| && descs[d].inode == NIL && x.inode != NIL
    ensures HandlesOk(filp[proc := filp[proc][fd := d]], descs[d := x])
  {
    var filp1 := filp[proc := filp[proc][fd := d]];
    forall a, i | 0 <= a < |filp| && 0 <= i < NR_FILES
      ensures HandleOk(filp1, descs[d := x], a, i) && (filp[a][i] != d)
    {
      assert HandleOk(filp, descs, a, i);
    }
    forall a, i, b, j | 0 <= a < |filp| && 0 <= i < NR_FILES && 0 <= b < |filp| && 0 <= j < NR_FILES
      ensures HandlesApart(filp1, a, i, b, j)
    {
      assert HandlesApart(filp, a, i, b, j);
    }
  }

  lemma HandlesDetach(filp: seq<seq<int>>, descs: seq<Desc>, proc: nat, fd: nat)
    requires HandlesOk(filp, descs) && proc < |filp| && fd < NR_FILES && filp[proc][fd] != NIL
    ensures var d := filp[proc][fd];
            0 <= d < |descs| && descs[d].inode != NIL &&
            HandlesOk(filp[proc := filp[proc][fd := NIL]], descs[d := descs[d].(inode := NIL)])
  {
    var d := filp[proc][fd];
    assert HandleOk(filp, descs, proc, fd);
    var filp1, descs1 := filp[proc := filp[proc][fd := NIL]], descs[d := descs[d].(inode := NIL)];
    forall a, i | 0 <= a < |filp| && 0 <= i < NR_FILES ensures HandleOk(filp1, descs1, a, i) {
      assert HandleOk(filp, descs, a, i) && HandlesApart(filp, a, i, proc, fd);
    }
    forall a, i, b, j | 0 <= a < |filp| && 0 <= i < NR_FILES && 0 <= b < |filp| && 0 <= j < NR_FILES
      ensures HandlesApart(filp1, a, i, b, j)
    {
      assert HandlesApart(filp, a, i, b, j);
    }
  }
}
