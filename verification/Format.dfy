/** `mkfs`: the super block, the two maps, the reserved inodes and the root directory's first
    block are written through the buffer.  What is left on the disk is the empty file system,
    which satisfies the invariant. */
module Format {
  import opened Device
  import opened Volume
  import opened SectorMap
  import opened Records
  import opened InodeCache
  import opened SuperBlock
  import opened Directory
  import opened Names
  import opened Extents
  import opened Files
  import opened Requests

  // ---------------------------------------------------------------- names

  function ByteOf(code: nat): Byte { BitsOf(code, 8) }

  function Bytes(s: string): (n: Name)
    ensures |n| == |s|
  {
    seq<Byte>(|s|, i requires 0 <= i < |s| => ByteOf(s[i] as int))
  }

  lemma BitsDiffer(m: nat, n: nat, w: nat)
    requires m < Pow2(w) && n < Pow2(w)
    ensures BitsOf(m, w) == BitsOf(n, w) ==> m == n
    ensures (forall i :: 0 <= i < w ==> !BitsOf(m, w)[i]) ==> m == 0
  {
    ValueOfBits(m, w);
    ValueOfBits(n, w);
    if forall i :: 0 <= i < w ==> !BitsOf(m, w)[i] {
      ValueOfZeros(BitsOf(m, w), 0);
    }
  }

  lemma ByteLimit()
    ensures Pow2(8) == 256
  {
  }

  lemma BytesDiffer(m: nat, n: nat)
    requires 0 < m < 256 && 0 < n < 256
    ensures ByteOf(m) == ByteOf(n) ==> m == n
    ensures !IsNul(ByteOf(m))
  {
    ByteLimit();
    BitsDiffer(m, n, 8);
  }

  /** A name's bytes are the codes of its characters. */
  lemma {:induction false} BytesAreCodes(s: string, i: nat)
    requires i < |s| && (s[i] as int) < 256
    ensures ByteValue(Bytes(s)[i]) == s[i] as int
    ensures ByteValue(SLASH) == '/' as int
  {
    ByteLimit();
    ValueOfBits(s[i] as int, 8);
    ByteValueIs(Bytes(s)[i]);
  }

  const DOT := "."

  /** `sprintf(pde->name, "dev_tty%d", i)`. */
  function TtyName(i: nat): (s: string)
    requires i < NR_CONSOLES
    ensures |s| == 8
  {
    "dev_tty" + ["012"[i]]
  }

  // ---------------------------------------------------------------- what mkfs and init_fs leave

  /** MAKE_DEV(DEV_CHAR_TTY, i). */
  function TtyDevice(i: nat): nat { 4 * 256 + i }

  function RootRecord(nrSmap: nat): Record {
    Record(I_DIRECTORY, 4 * DIR_ENTRY_SIZE, FirstSector(nrSmap), NR_DEFAULT_FILE_SECTS)
  }

  function TtyRecord(i: nat): Record { Record(I_CHAR_SPECIAL, 0, TtyDevice(i), 0) }

  /** The reserved inodes 1 to 4 and their names. */
  function ReservedRecord(nrSmap: nat, k: nat): Record {
    if k == 0 then RootRecord(nrSmap) else TtyRecord(k - 1)
  }

  function ReservedName(k: nat): (n: Name)
    requires k <= NR_CONSOLES
  {
    if k == 0 then Bytes(DOT) else Bytes(TtyName(k - 1))
  }

  predicate IsEntry(e: Entry, num: nat, name: Name) {
    e.inode == num && |e.name| == MAX_FILENAME_LEN && CStr(e.name) == name
  }

  lemma NameIsStorable(k: nat)
    requires k <= NR_CONSOLES
    ensures Storable(ReservedName(k)) && ReservedName(k) != []
  {
    forall i | 0 <= i < |ReservedName(k)| ensures !IsNul(ReservedName(k)[i]) {
      BytesDiffer(if k == 0 then DOT[i] as int else TtyName(k - 1)[i] as int, 1);
    }
  }

  lemma NamesDiffer(j: nat, k: nat)
    requires j < k <= NR_CONSOLES
    ensures ReservedName(j) != ReservedName(k)
  {
    if j > 0 {
      BytesDiffer(TtyName(j - 1)[7] as int, TtyName(k - 1)[7] as int);
      assert Bytes(TtyName(j - 1))[7] != Bytes(TtyName(k - 1))[7];
    }
  }

  ghost predicate FreshDisk(nrSmap: nat, inodeMap: seq<bool>, sectorMap: seq<bool>, inodes: seq<Record>,
                            dir: seq<Entry>) {
    |inodes| == NR_INODES && |dir| == DIR_SLOTS &&
    (forall b :: 0 <= b < |inodeMap| ==> (inodeMap[b] <==> b < RESERVED_INODES)) &&
    (forall b :: 0 <= b < |sectorMap| ==> (sectorMap[b] <==> b < NR_DEFAULT_FILE_SECTS + 1)) &&
    (forall k :: 0 <= k <= NR_CONSOLES ==> inodes[k] == ReservedRecord(nrSmap, k)) &&
    (forall k :: 0 <= k <= NR_CONSOLES ==> IsEntry(dir[k], k + 1, ReservedName(k))) &&
    forall k :: 4 <= k < ENTRIES_PER_SECTOR ==> dir[k] == ERASED
  }

  ghost predicate Fresh(fs: Fs) {
    Sized(fs) && FreshDisk(fs.nrSmap, fs.inodeMap, fs.sectorMap, fs.inodes, fs.dir) &&
    fs.table[ROOT_SLOT] == Slot(1, ROOT_INODE, fs.inodes[0]) &&
    (forall p :: 0 < p < |fs.table| ==> fs.table[p].cnt == 0) &&
    (forall d :: 0 <= d < |fs.descs| ==> fs.descs[d].inode == NIL) &&
    forall proc :: 0 <= proc < |fs.filp| ==> fs.filp[proc] == seq(NR_FILES, _ => NIL)
  }

  lemma FreshSlot(fs: Fs, k: nat)
    requires Fresh(fs) && k < ENTRIES_PER_SECTOR
    ensures Kept(fs.dir, 4, k)
    ensures k < 4 ==> fs.dir[k].inode == k + 1
  {
  }

  lemma FreshSlotsApart(fs: Fs, j: nat, k: nat)
    requires Fresh(fs) && j < k < ENTRIES_PER_SECTOR
    ensures Apart(fs.dir, j, k)
  {
    if k < 4 {
      NamesDiffer(j, k);
      assert IsEntry(fs.dir[j], j + 1, ReservedName(j)) && IsEntry(fs.dir[k], k + 1, ReservedName(k));
    }
  }

  lemma FreshIsTidy(fs: Fs, nr: nat)
    requires Fresh(fs) && nr == 4
    ensures Tidy(fs.dir, nr)
  {
    forall k | 0 <= k < ENTRIES_PER_SECTOR ensures Kept(fs.dir, nr, k) {
      FreshSlot(fs, k);
    }
    forall j, k | 0 <= j < k < ENTRIES_PER_SECTOR ensures Apart(fs.dir, j, k) {
      FreshSlotsApart(fs, j, k);
    }
  }

  lemma FreshDirIsTidy(fs: Fs)
    requires Fresh(fs)
    ensures DirOk(fs.dir, fs.inodes[0].size) && Nums(fs.dir, NrEntries(fs)) == {}
  {
    assert fs.inodes[0] == ReservedRecord(fs.nrSmap, 0);
    FreshIsTidy(fs, NrEntries(fs));
    forall k | 0 <= k < 4 ensures fs.dir[k].inode == k + 1 {
      FreshSlot(fs, k);
    }
    NoFiles(fs.dir, NrEntries(fs));
  }

  lemma NoFiles(dir: seq<Entry>, nr: nat)
    requires nr <= |dir| && forall k :: 0 <= k < nr ==> dir[k].inode <= 4
    ensures Nums(dir, nr) == {}
  {
    var m := AsMap(dir, nr);
    forall v | v in m.Values ensures v in {1, 2, 3, 4} {
      var name :| name in m && m[name] == v;
      var k := EntryOf(dir, nr, name);
    }
  }

  lemma {:induction false} NoRefs(descs: seq<Desc>, p: nat)
    requires forall d :: 0 <= d < |descs| ==> descs[d].inode == NIL
    ensures Refs(descs, p) == 0
  {
    if descs != [] {
      NoRefs(descs[..|descs| - 1], p);
    }
  }

  /** The records of the root directory and of the terminals. */
  lemma FreshRecords(fs: Fs)
    requires Fresh(fs)
    ensures fs.inodes[0] == Record(0x040000, 64, fs.nrSmap + 259, 2048)
    ensures fs.inodes[1] == Record(0x020000, 0, 0x400, 0) && fs.inodes[2] == Record(0x020000, 0, 0x401, 0) &&
            fs.inodes[3] == Record(0x020000, 0, 0x402, 0)
  {
    forall k | 0 <= k < 4 ensures fs.inodes[k] == ReservedRecord(fs.nrSmap, k) {
    }
  }

  lemma FourEntries(dir: seq<Entry>)
    requires |dir| >= 4 && forall k :: 0 <= k < 4 ==> dir[k].inode > 0
    ensures AsMap(dir, 4) == map[][CStr(dir[0].name) := dir[0].inode][CStr(dir[1].name) := dir[1].inode]
                                  [CStr(dir[2].name) := dir[2].inode][CStr(dir[3].name) := dir[3].inode]
  {
    assert AsMap(dir, 1) == map[][CStr(dir[0].name) := dir[0].inode];
    assert AsMap(dir, 3) == AsMap(dir, 1)[CStr(dir[1].name) := dir[1].inode][CStr(dir[2].name) := dir[2].inode];
  }

  /** The names that a fresh file system has. */
  lemma FreshNames(fs: Fs)
    requires Fresh(fs)
    ensures Inv(fs)
    ensures NameMap(fs) == map[Bytes(".") := 1, Bytes("dev_tty0") := 2, Bytes("dev_tty1") := 3, Bytes("dev_tty2") := 4]
  {
    FreshIsGood(fs);
    FreshDirIsTidy(fs);
    assert TtyName(0) == "dev_tty0" && TtyName(1) == "dev_tty1" && TtyName(2) == "dev_tty2";
    forall k | 0 <= k < 4 ensures IsEntry(fs.dir[k], k + 1, ReservedName(k)) {
    }
    FourEntries(fs.dir);
  }

  /** The invariant holds when the file system starts. */
  lemma FreshIsGood(fs: Fs)
    requires Fresh(fs)
    ensures Inv(fs)
  {
    FreshDirIsTidy(fs);
    forall b | 0 <= b < |fs.sectorMap|
      ensures fs.sectorMap[b] <==> b == 0 || SlotOfBit(b) in UsedSlots(fs.nrSmap, fs.inodes, {})
    {
      SlotBits(0, b);
    }
    forall p | 0 <= p < |fs.table| ensures Counted(fs.table, fs.descs, p) {
      NoRefs(fs.descs, p);
    }
  }

  /** Over every run from an empty file system: the counts of the two maps, no full inode table
      or inode map, and an allocator whose assertions hold exactly while a whole slot is left. */
  lemma MapsOverRuns(fs: Fs, rs: seq<Request>)
    requires Fresh(fs)
    requires (FreshIsGood(fs); IsRun(fs, rs))
    ensures Inv(fs)
    ensures var fs' := After(fs, rs);
            Ones(fs'.inodeMap) == RESERVED_INODES + |FileNums(fs')| &&
            Ones(fs'.sectorMap) == 1 + NR_DEFAULT_FILE_SECTS * (1 + |FileNums(fs')|) &&
            FirstClear(fs'.inodeMap, 0) < NR_INODES && (forall num :: HasRoom(fs'.table, num)) &&
            (CanAlloc(fs'.sectorMap, NR_DEFAULT_FILE_SECTS) <==> BitOfSlot(|FileNums(fs')| + 2) <= |fs'.sectorMap|)
  {
    FreshIsGood(fs);
    var fs' := After(fs, rs);
    BitCounts(fs');
    InodeIsFree(fs');
    CanAllocWhileRoom(fs');
    forall num ensures HasRoom(fs'.table, num) {
      CacheFacts(fs', num);
    }
  }

  // ---------------------------------------------------------------- mkfs

  /** `kmemset(fsbuf, 0, SECTOR_SIZE)`. */
  method Clear(dev: Device)
    requires dev.Valid()
    modifies dev.fsbuf
    ensures forall x :: 0 <= x < SECTOR_SIZE ==> dev.fsbuf[x] == NUL
  {
    forall x | 0 <= x < SECTOR_SIZE {
      dev.fsbuf[x] := NUL;
    }
  }

  method WriteInodeMap(dev: Device)
    requires dev.Valid() && IMAP_SECTOR < |dev.disk|
    modifies dev`disk, dev.fsbuf
    ensures |dev.disk| == old(|dev.disk|)
    ensures forall k :: 0 <= k < |dev.disk| && k != IMAP_SECTOR ==> dev.disk[k] == old(dev.disk)[k]
    ensures forall b :: 0 <= b < BITS_PER_SECTOR ==> (Bits(dev.disk, IMAP_SECTOR, 1)[b] <==> b < RESERVED_INODES)
  {
    Clear(dev);
    var i := 0;
    while i < NR_CONSOLES + 2
      invariant i <= NR_CONSOLES + 2 && dev.disk == old(dev.disk)
      invariant forall x :: 0 < x < SECTOR_SIZE ==> dev.fsbuf[x] == NUL
      invariant forall y :: 0 <= y < 8 ==> (dev.fsbuf[0][y] <==> y < i)
    {
      dev.fsbuf[0] := dev.fsbuf[0][i := true];
      i := i + 1;
    }
    dev.WrSect(IMAP_SECTOR);
    forall b | 0 <= b < BITS_PER_SECTOR ensures Bits(dev.disk, IMAP_SECTOR, 1)[b] <==> b < RESERVED_INODES {
      assert BitAt(dev.disk, IMAP_SECTOR, b) == dev.fsbuf[b / 8][b % 8];
    }
  }

  /** The first sector of the sector map: bit 0 and the root directory's extent. */
  method WriteFirstMapSector(dev: Device)
    requires dev.Valid() && SMAP_SECTOR < |dev.disk|
    modifies dev`disk, dev.fsbuf
    ensures |dev.disk| == old(|dev.disk|)
    ensures forall k :: 0 <= k < |dev.disk| && k != SMAP_SECTOR ==> dev.disk[k] == old(dev.disk)[k]
    ensures forall x :: 0 <= x < BITS_PER_SECTOR ==>
      (BufBit(dev.disk[SMAP_SECTOR], x) <==> x < NR_DEFAULT_FILE_SECTS + 1)
  {
    Clear(dev);
    var nrSectors := NR_DEFAULT_FILE_SECTS + 1;
    var i := 0;
    while i < nrSectors / 8
      invariant i <= nrSectors / 8 && dev.disk == old(dev.disk)
      invariant forall x :: 0 <= x < i ==> dev.fsbuf[x] == ONES
      invariant forall x :: i <= x < SECTOR_SIZE ==> dev.fsbuf[x] == NUL
    {
      dev.fsbuf[i] := ONES;
      i := i + 1;
    }
    var j := 0;
    while j < nrSectors % 8
      invariant j <= nrSectors % 8 && dev.disk == old(dev.disk)
      invariant forall x :: 0 <= x < i ==> dev.fsbuf[x] == ONES
      invariant forall x :: i < x < SECTOR_SIZE ==> dev.fsbuf[x] == NUL
      invariant forall y :: 0 <= y < 8 ==> (dev.fsbuf[i][y] <==> y < j)
    {
      dev.fsbuf[i] := dev.fsbuf[i][j := true];
      j := j + 1;
    }
    ghost var buf := dev.fsbuf[..];
    dev.WrSect(SMAP_SECTOR);
    forall x | 0 <= x < BITS_PER_SECTOR ensures BufBit(dev.disk[SMAP_SECTOR], x) <==> x < NR_DEFAULT_FILE_SECTS + 1 {
      assert BufBit(dev.disk[SMAP_SECTOR], x) == buf[x / 8][x % 8];
    }
  }

  predicate IsClear(s: Sector) {
    forall x :: 0 <= x < SECTOR_SIZE ==> s[x] == NUL
  }

  method WriteSectorMap(dev: Device, nrSmap: nat)
    requires dev.Valid() && HasLayout(nrSmap, dev.disk)
    modifies dev`disk, dev.fsbuf
    ensures |dev.disk| == old(|dev.disk|)
    ensures forall k :: 0 <= k < |dev.disk| && !(SMAP_SECTOR <= k < SMAP_SECTOR + nrSmap) ==>
      dev.disk[k] == old(dev.disk)[k]
    ensures forall b :: 0 <= b < nrSmap * BITS_PER_SECTOR ==>
      (Bits(dev.disk, SMAP_SECTOR, nrSmap)[b] <==> b < NR_DEFAULT_FILE_SECTS + 1)
  {
    WriteFirstMapSector(dev);
    ghost var first := dev.disk[SMAP_SECTOR];
    Clear(dev);
    var i := 1;
    while i < nrSmap
      invariant 1 <= i <= nrSmap && |dev.disk| == old(|dev.disk|) && dev.disk[SMAP_SECTOR] == first
      invariant forall x :: 0 <= x < SECTOR_SIZE ==> dev.fsbuf[x] == NUL
      invariant forall s :: SMAP_SECTOR < s < SMAP_SECTOR + i ==> IsClear(dev.disk[s])
      invariant forall k :: 0 <= k < |dev.disk| && !(SMAP_SECTOR <= k < SMAP_SECTOR + nrSmap) ==>
        dev.disk[k] == old(dev.disk)[k]
    {
      dev.WrSect(SMAP_SECTOR + i);
      i := i + 1;
    }
    forall b | 0 <= b < nrSmap * BITS_PER_SECTOR
      ensures BitAt(dev.disk, SMAP_SECTOR, b) <==> b < NR_DEFAULT_FILE_SECTS + 1
    {
      var s := SMAP_SECTOR + b / BITS_PER_SECTOR;
      assert s == SMAP_SECTOR || dev.disk[s][b % BITS_PER_SECTOR / 8] == NUL;
    }
  }

  const NO_RECORD := Record(0, 0, 0, 0)

  lemma {:induction false} ZeroBits(w: nat)
    ensures forall i :: 0 <= i < w ==> !BitsOf(0, w)[i]
  {
    if w > 0 {
      ZeroBits(w - 1);
    }
  }

  lemma ZeroRecordBytes(bytes: seq<Byte>)
    requires |bytes| == 16 && forall x :: 0 <= x < 16 ==> bytes[x] == NUL
    ensures bytes == RecordBytes(NO_RECORD)
  {
    ZeroBits(32);
    var zero := WordBytes(0);
    assert zero[0] == NUL && zero[1] == NUL && zero[2] == NUL && zero[3] == NUL;
    assert RecordBytes(NO_RECORD) == zero + zero + zero + zero;
  }

  /** The first sector of inode records while it is filled: `n` of the reserved ones, then zeros. */
  ghost function FirstRecords(nrSmap: nat, n: nat): (r: seq<seq<Byte>>) {
    seq(INODES_PER_SECTOR, k requires 0 <= k < INODES_PER_SECTOR =>
      RecordBytes(if k < n then ReservedRecord(nrSmap, k) else NO_RECORD))
  }

  ghost function RecordsIn(buf: seq<Byte>): (r: seq<seq<Byte>>)
    requires |buf| >= SECTOR_SIZE
  {
    seq(INODES_PER_SECTOR, k requires 0 <= k < INODES_PER_SECTOR => buf[INODE_SIZE * k..INODE_SIZE * k + 16])
  }

  lemma SliceKept(a: seq<Byte>, b: seq<Byte>, o: nat)
    requires |a| == |b| && o + 16 <= |a| && forall x :: o <= x < o + 16 ==> a[x] == b[x]
    ensures a[o..o + 16] == b[o..o + 16]
  {
  }

  lemma OneMoreRecord(before: seq<Byte>, buf: seq<Byte>, nrSmap: nat, i: nat)
    requires i <= NR_CONSOLES && |buf| == |before| >= SECTOR_SIZE && RecordsIn(before) == FirstRecords(nrSmap, i)
    requires buf[INODE_SIZE * i..INODE_SIZE * i + 16] == RecordBytes(ReservedRecord(nrSmap, i))
    requires forall x :: 0 <= x < |buf| && !(INODE_SIZE * i <= x < INODE_SIZE * i + 16) ==> buf[x] == before[x]
    ensures RecordsIn(buf) == FirstRecords(nrSmap, i + 1)
  {
    var after, expected := RecordsIn(buf), FirstRecords(nrSmap, i + 1);
    forall k | 0 <= k < INODES_PER_SECTOR ensures after[k] == expected[k] {
      if k != i {
        assert RecordsIn(before)[k] == FirstRecords(nrSmap, i)[k];
        SliceKept(before, buf, INODE_SIZE * k);
      }
    }
  }

  lemma NoRecords(buf: seq<Byte>, nrSmap: nat)
    requires |buf| >= SECTOR_SIZE && forall x :: 0 <= x < SECTOR_SIZE ==> buf[x] == NUL
    ensures RecordsIn(buf) == FirstRecords(nrSmap, 0)
  {
    forall k | 0 <= k < INODES_PER_SECTOR ensures RecordsIn(buf)[k] == RecordBytes(NO_RECORD) {
      ZeroRecordBytes(buf[INODE_SIZE * k..INODE_SIZE * k + 16]);
    }
  }

  method PutFreshRecord(dev: Device, ghost nrSmap: nat, i: nat, r: Record)
    requires dev.Valid() && i <= NR_CONSOLES && r == ReservedRecord(nrSmap, i)
    requires RecordsIn(dev.fsbuf[..]) == FirstRecords(nrSmap, i)
    modifies dev.fsbuf
    ensures RecordsIn(dev.fsbuf[..]) == FirstRecords(nrSmap, i + 1)
  {
    ghost var before := dev.fsbuf[..];
    var o := INODE_SIZE * i;
    PutRecord(dev, o, r);
    ghost var buf := dev.fsbuf[..];
    assert buf[o..o + 16] == dev.fsbuf[o..o + 16];
    OneMoreRecord(before, buf, nrSmap, i);
  }

  method FillInodes(dev: Device, nrSmap: nat)
    requires dev.Valid()
    modifies dev.fsbuf
    ensures RecordsIn(dev.fsbuf[..]) == FirstRecords(nrSmap, NR_CONSOLES + 1)
  {
    Clear(dev);
    NoRecords(dev.fsbuf[..], nrSmap);
    PutFreshRecord(dev, nrSmap, 0, RootRecord(nrSmap));
    var i := 0;
    while i < NR_CONSOLES
      invariant i <= NR_CONSOLES && RecordsIn(dev.fsbuf[..]) == FirstRecords(nrSmap, i + 1)
    {
      PutFreshRecord(dev, nrSmap, i + 1, TtyRecord(i));
      i := i + 1;
    }
  }

  /** What a record's place holds once the sector in the buffer is on disk. */
  lemma RecordInBuffer(dev: Device, nrSmap: nat, n: nat, i: nat)
    requires dev.Valid() && HasLayout(nrSmap, dev.disk) && i < INODES_PER_SECTOR && FirstSector(nrSmap) < WORD_LIMIT
    requires dev.disk[InodeSector(nrSmap)] == dev.fsbuf[..SECTOR_SIZE] && n <= NR_CONSOLES + 1
    requires RecordsIn(dev.fsbuf[..]) == FirstRecords(nrSmap, n)
    ensures Inodes(nrSmap, dev.disk)[i] == if i < n then ReservedRecord(nrSmap, i) else NO_RECORD
  {
    RecordRoundTrip(if i < n then ReservedRecord(nrSmap, i) else NO_RECORD);
    SliceOfFront(dev.fsbuf[..], INODE_SIZE * i);
    assert RawInodes(nrSmap, dev.disk)[i] == RecordsIn(dev.fsbuf[..])[i];
  }

  method WriteInodes(dev: Device, nrSmap: nat)
    requires dev.Valid() && HasLayout(nrSmap, dev.disk) && FirstSector(nrSmap) < WORD_LIMIT
    modifies dev`disk, dev.fsbuf
    ensures |dev.disk| == old(|dev.disk|)
    ensures forall k :: 0 <= k < |dev.disk| && k != InodeSector(nrSmap) ==> dev.disk[k] == old(dev.disk)[k]
    ensures forall k :: 0 <= k <= NR_CONSOLES ==> Inodes(nrSmap, dev.disk)[k] == ReservedRecord(nrSmap, k)
    ensures forall k :: NR_CONSOLES < k < INODES_PER_SECTOR ==> Inodes(nrSmap, dev.disk)[k] == NO_RECORD
  {
    FillInodes(dev, nrSmap);
    dev.WrSect(InodeSector(nrSmap));
    forall k | 0 <= k < INODES_PER_SECTOR
      ensures Inodes(nrSmap, dev.disk)[k] == if k <= NR_CONSOLES then ReservedRecord(nrSmap, k) else NO_RECORD
    {
      RecordInBuffer(dev, nrSmap, NR_CONSOLES + 1, k);
    }
  }

  /** The 16 bytes of an entry. */
  ghost predicate HoldsEntry(buf: seq<Byte>, k: nat, num: nat, name: Name) {
    DIR_ENTRY_SIZE * k + 16 <= |buf| && Storable(name) &&
    buf[DIR_ENTRY_SIZE * k..DIR_ENTRY_SIZE * k + 16] == WordBytes(num) + Copied(ERASED.name, name)
  }

  method PutFreshEntry(dev: Device, k: nat, num: nat, name: Name)
    requires dev.Valid() && k < ENTRIES_PER_SECTOR && Storable(name)
    requires forall x :: DIR_ENTRY_SIZE * k <= x < SECTOR_SIZE ==> dev.fsbuf[x] == NUL
    modifies dev.fsbuf
    ensures HoldsEntry(dev.fsbuf[..], k, num, name)
    ensures forall x :: DIR_ENTRY_SIZE * (k + 1) <= x < SECTOR_SIZE ==> dev.fsbuf[x] == NUL
    ensures dev.fsbuf[..DIR_ENTRY_SIZE * k] == old(dev.fsbuf[..DIR_ENTRY_SIZE * k])
  {
    var o := DIR_ENTRY_SIZE * k;
    assert dev.fsbuf[o + 4..o + 16] == ERASED.name;
    PutEntry(dev, o, num, name);
    assert dev.fsbuf[..][o..o + 16] == dev.fsbuf[o..o + 16];
  }

  lemma EntryKept(a: seq<Byte>, b: seq<Byte>, n: nat, k: nat, num: nat, name: Name)
    requires HoldsEntry(a, k, num, name) && k < n && DIR_ENTRY_SIZE * n <= |a| <= |b|
    requires a[..DIR_ENTRY_SIZE * n] == b[..DIR_ENTRY_SIZE * n]
    ensures HoldsEntry(b, k, num, name)
  {
    var o := DIR_ENTRY_SIZE * k;
    assert a[o..o + 16] == a[..DIR_ENTRY_SIZE * n][o..o + 16] == b[o..o + 16];
  }

  lemma EntryInBuffer(dev: Device, nrSmap: nat, k: nat, num: nat, name: Name)
    requires HasLayout(nrSmap, dev.disk) && HoldsBlock(dev, nrSmap, 0) && k < ENTRIES_PER_SECTOR && num < WORD_LIMIT
    requires HoldsEntry(dev.fsbuf[..], k, num, name)
    ensures IsEntry(Dir(nrSmap, dev.disk)[k], num, name)
  {
    var o := DIR_ENTRY_SIZE * k;
    EntryInBlock(dev, nrSmap, 0, k);
    assert dev.fsbuf[..][o..o + 16] == dev.fsbuf[o..o + 16];
    EntryRoundTrip(Entry(num, Copied(ERASED.name, name)));
    StoredName(ERASED.name, name);
  }

  lemma ErasedInBuffer(dev: Device, nrSmap: nat, k: nat)
    requires HasLayout(nrSmap, dev.disk) && HoldsBlock(dev, nrSmap, 0) && k < ENTRIES_PER_SECTOR
    requires forall x :: k * DIR_ENTRY_SIZE <= x < SECTOR_SIZE ==> dev.fsbuf[x] == NUL
    ensures Dir(nrSmap, dev.disk)[k] == ERASED
  {
    EntryInBlock(dev, nrSmap, 0, k);
    ZeroBytesAreErased(dev.fsbuf[k * DIR_ENTRY_SIZE..k * DIR_ENTRY_SIZE + 16]);
  }

  ghost predicate HoldsReserved(buf: seq<Byte>, k: nat) {
    k <= NR_CONSOLES && HoldsEntry(buf, k, k + 1, ReservedName(k))
  }

  method PutReserved(dev: Device, k: nat, name: Name)
    requires dev.Valid() && k <= NR_CONSOLES && name == ReservedName(k)
    requires forall j :: 0 <= j < k ==> HoldsReserved(dev.fsbuf[..], j)
    requires forall x :: DIR_ENTRY_SIZE * k <= x < SECTOR_SIZE ==> dev.fsbuf[x] == NUL
    modifies dev.fsbuf
    ensures forall j :: 0 <= j <= k ==> HoldsReserved(dev.fsbuf[..], j)
    ensures forall x :: DIR_ENTRY_SIZE * (k + 1) <= x < SECTOR_SIZE ==> dev.fsbuf[x] == NUL
  {
    ghost var before := dev.fsbuf[..];
    NameIsStorable(k);
    PutFreshEntry(dev, k, k + 1, name);
    ghost var buf := dev.fsbuf[..];
    assert before[..DIR_ENTRY_SIZE * k] == buf[..DIR_ENTRY_SIZE * k];
    forall j | 0 <= j < k ensures HoldsReserved(buf, j) {
      assert HoldsReserved(before, j);
      EntryKept(before, buf, k, j, j + 1, ReservedName(j));
    }
  }

  method FillDirectory(dev: Device)
    requires dev.Valid()
    modifies dev.fsbuf
    ensures forall k :: 0 <= k <= NR_CONSOLES ==> HoldsReserved(dev.fsbuf[..], k)
    ensures forall x :: 4 * DIR_ENTRY_SIZE <= x < SECTOR_SIZE ==> dev.fsbuf[x] == NUL
  {
    Clear(dev);
    PutReserved(dev, 0, Bytes(DOT));
    var i := 0;
    while i < NR_CONSOLES
      invariant i <= NR_CONSOLES
      invariant forall k :: 0 <= k <= i ==> HoldsReserved(dev.fsbuf[..], k)
      invariant forall x :: DIR_ENTRY_SIZE * (i + 1) <= x < SECTOR_SIZE ==> dev.fsbuf[x] == NUL
    {
      PutReserved(dev, i + 1, Bytes(TtyName(i)));
      i := i + 1;
    }
  }

  method WriteDirectory(dev: Device, nrSmap: nat)
    requires dev.Valid() && HasLayout(nrSmap, dev.disk)
    modifies dev`disk, dev.fsbuf
    ensures |dev.disk| == old(|dev.disk|)
    ensures forall k :: 0 <= k < |dev.disk| && k != FirstSector(nrSmap) ==> dev.disk[k] == old(dev.disk)[k]
    ensures forall k :: 0 <= k <= NR_CONSOLES ==> IsEntry(Dir(nrSmap, dev.disk)[k], k + 1, ReservedName(k))
    ensures forall k :: 4 <= k < ENTRIES_PER_SECTOR ==> Dir(nrSmap, dev.disk)[k] == ERASED
  {
    FillDirectory(dev);
    dev.WrSect(FirstSector(nrSmap));
    forall k | 0 <= k <= NR_CONSOLES ensures IsEntry(Dir(nrSmap, dev.disk)[k], k + 1, ReservedName(k)) {
      assert HoldsReserved(dev.fsbuf[..], k);
      EntryInBuffer(dev, nrSmap, k, k + 1, ReservedName(k));
    }
    forall k | 4 <= k < ENTRIES_PER_SECTOR ensures Dir(nrSmap, dev.disk)[k] == ERASED {
      ErasedInBuffer(dev, nrSmap, k);
    }
  }

  /** The sectors that `mkfs` writes behind the super block: the two maps, and one sector each of
      inode records and of the directory. */
  predicate Formatted(nrSmap: nat, k: int) {
    k == 2 || 3 <= k < 3 + nrSmap || k == 3 + nrSmap || k == FirstSector(nrSmap)
  }

  /** `mkfs` behind the super block. */
  method WriteVolume(dev: Device, nrSmap: nat)
    requires dev.Valid() && HasLayout(nrSmap, dev.disk) && FirstSector(nrSmap) < WORD_LIMIT
    modifies dev`disk, dev.fsbuf
    ensures |dev.disk| == old(|dev.disk|)
    ensures forall k :: 0 <= k < |dev.disk| && !Formatted(nrSmap, k) ==> dev.disk[k] == old(dev.disk)[k]
    ensures forall k :: NR_CONSOLES < k < INODES_PER_SECTOR ==> Inodes(nrSmap, dev.disk)[k] == NO_RECORD
    ensures FreshDisk(nrSmap, Bits(dev.disk, IMAP_SECTOR, 1), Bits(dev.disk, SMAP_SECTOR, nrSmap),
                      Inodes(nrSmap, dev.disk), Dir(nrSmap, dev.disk))
  {
    WriteInodeMap(dev);
    ghost var a := dev.disk;
    WriteSectorMap(dev, nrSmap);
    ghost var b := dev.disk;
    RegionsAreApart(nrSmap, a, b);
    WriteInodes(dev, nrSmap);
    ghost var c := dev.disk;
    RegionsAreApart(nrSmap, b, c);
    WriteDirectory(dev, nrSmap);
    RegionsAreApart(nrSmap, c, dev.disk);
  }

  /** `mkfs`. */
  method Mkfs(dev: Device)
    requires dev.Valid() && |dev.disk| < WORD_LIMIT
    requires var nrSmap := SuperFor(|dev.disk|).nrSmap;
             HasLayout(nrSmap, dev.disk) && FirstSector(nrSmap) < WORD_LIMIT
    modifies dev`disk, dev.fsbuf
    ensures |dev.disk| == old(|dev.disk|) && SuperAt(dev.disk[SUPER_SECTOR]) == SuperFor(|dev.disk|)
    ensures var nrSmap := SuperFor(|dev.disk|).nrSmap;
            FreshDisk(nrSmap, Bits(dev.disk, IMAP_SECTOR, 1), Bits(dev.disk, SMAP_SECTOR, nrSmap),
                      Inodes(nrSmap, dev.disk), Dir(nrSmap, dev.disk)) &&
            (forall k :: NR_CONSOLES < k < INODES_PER_SECTOR ==> Inodes(nrSmap, dev.disk)[k] == NO_RECORD) &&
            forall k :: 0 <= k < |dev.disk| && k != SUPER_SECTOR && !Formatted(nrSmap, k) ==>
              dev.disk[k] == old(dev.disk)[k]
  {
    LayoutAgrees(|dev.disk|);
    var sb := WriteSuper(dev);
    WriteVolume(dev, sb.nrSmap);
  }
}
