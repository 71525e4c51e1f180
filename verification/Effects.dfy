/** What each request of the file system returns and leaves behind, spelled out field by field. */
module Effects {
  import opened Device
  import opened Volume
  import opened FileData
  import opened Records
  import opened InodeCache
  import opened Directory
  import opened Files
  import opened Requests

  // ---------------------------------------------------------------- open

  /** The two panics. */
  ghost predicate OutOfHandles(fs: Fs, proc: nat)
    requires proc < |fs.filp|
  {
    (forall i :: 0 <= i < |fs.filp[proc]| ==> fs.filp[proc][i] != NIL) ||
    forall d :: 0 <= d < |fs.descs| ==> fs.descs[d].inode != NIL
  }

  /** A path that leads nowhere, a create of a name that exists, or a plain open of one that does not. */
  ghost predicate Refused(fs: Fs, path: seq<Byte>, flags: Flags)
    requires DiskOk(fs)
  {
    Stripped(path) == None || (flags.create <==> Stripped(path).value in NameMap(fs))
  }

  /** The tables after an open that returned handle `fd`: the first free handle of the process and
      the first free descriptor, at position 0 and with the flags asked for; all others as before. */
  ghost predicate HandleGiven(fs: Fs, fs1: Fs, proc: nat, fd: int, flags: Flags)
    requires proc < |fs.filp|
  {
    0 <= fd < |fs.filp[proc]| && fs.filp[proc][fd] == NIL && (forall i :: 0 <= i < fd ==> fs.filp[proc][i] != NIL) &&
    Mentioned(fs1, proc, fd) && PosOf(fs1, proc, fd) == 0 && ModeOf(fs1, proc, fd) == flags &&
    var d := fs1.filp[proc][fd];
    d < |fs.descs| && fs.descs[d].inode == NIL && (forall e :: 0 <= e < d ==> fs.descs[e].inode != NIL) &&
    fs1.filp == fs.filp[proc := fs.filp[proc][fd := d]] && fs1.descs == fs.descs[d := fs1.descs[d]]
  }

  lemma FreeHandleIs(row: seq<int>)
    ensures FreeHandle(row, 0) == |row| <==> forall i :: 0 <= i < |row| ==> row[i] != NIL
  {
  }

  lemma FreeDescIs(descs: seq<Desc>)
    ensures FreeDesc(descs, 0) == |descs| <==> forall d :: 0 <= d < |descs| ==> descs[d].inode != NIL
  {
  }

  /** An open panics exactly without a free handle or descriptor, returns -1 exactly when it is
      refused, changes nothing then, and otherwise gives a handle that leads to the inode under
      the name. */
  lemma OpenEffect(fs: Fs, proc: nat, path: seq<Byte>, flags: Flags)
    requires Inv(fs) && Defined(fs, Open(proc, path, flags))
    ensures var (fs1, out) := Next(fs, Open(proc, path, flags));
            (out == Stopped <==> OutOfHandles(fs, proc)) &&
            (out == Returned(-1) <==> !OutOfHandles(fs, proc) && Refused(fs, path, flags)) &&
            if OutOfHandles(fs, proc) || Refused(fs, path, flags) then fs1 == fs
            else out.Returned? && HandleGiven(fs, fs1, proc, out.value, flags)
  {
    FreeHandleIs(fs.filp[proc]);
    FreeDescIs(fs.descs);
    FoundIsLookup(fs, path);
    OpenedSlot(fs, path, flags);
  }

  /** The slot that an open uses is in the table. */
  lemma OpenedSlot(fs: Fs, path: seq<Byte>, flags: Flags)
    requires Inv(fs) && (Creates(fs, path, flags) ==> CanAllocate(fs, Stripped(path).value))
    ensures var (fs1, pin) := OpenedInode(fs, path, flags);
            (pin == NIL <==> Refused(fs, path, flags)) && (pin == NIL ==> fs1 == fs) && pin < |fs1.table|
  {
    FoundIsLookup(fs, path);
    FoundIsCached(fs, path);
    if !Refused(fs, path, flags) {
      if flags.create {
        CreateReady(fs, Stripped(path).value);
      } else {
        GetKeeps(fs, Found(fs, path));
      }
    }
  }

  /** One reference more to inode `num`: in the slot that has it, or else in the first free slot,
      filled from the record on disk. */
  ghost predicate OneMore(table: seq<Slot>, inodes: seq<Record>, num: nat, table1: seq<Slot>, p: int) {
    1 <= num <= |inodes| && 0 <= p < |table| == |table1| && table1 == table[p := table1[p]] &&
    table1[p].num == num && table1[p].rec == inodes[num - 1] &&
    if table[p].cnt > 0 then table[p].num == num && table1[p].cnt == table[p].cnt + 1
    else table1[p].cnt == 1 && (forall q :: 0 <= q < |table| && table[q].cnt > 0 ==> table[q].num != num) &&
         forall q :: 0 <= q < p ==> table[q].cnt > 0
  }

  lemma GottenIs(fs: Fs, num: nat)
    requires Inv(fs) && 1 <= num < NR_INODES && (num < RESERVED_INODES || num in FileNums(fs))
    ensures HasRoom(fs.table, num)
    ensures OneMore(fs.table, fs.inodes, num, Gotten(fs, num).table, GotSlot(fs.table, num))
  {
    CacheFacts(fs, num);
    var p := GotSlot(fs.table, num);
    assert Coherent(fs.table, fs.inodes, FileNums(fs), p);
  }

  /** A plain open that succeeds: the handle leads to the inode under the name, which has one
      reference more, and nothing changes on the disk. */
  lemma PlainOpenEffect(fs: Fs, proc: nat, path: seq<Byte>, flags: Flags)
    requires Inv(fs) && Defined(fs, Open(proc, path, flags)) && !OutOfHandles(fs, proc) && !Refused(fs, path, flags)
    requires !flags.create
    ensures var (fs1, out) := Next(fs, Open(proc, path, flags));
            fs1 == fs.(table := fs1.table, descs := fs1.descs, filp := fs1.filp) &&
            out.Returned? && out.value >= 0 && Mentioned(fs1, proc, out.value) &&
            OneMore(fs.table, fs.inodes, NameMap(fs)[Stripped(path).value], fs1.table, SlotBehind(fs1, proc, out.value))
  {
    OpenEffect(fs, proc, path, flags);
    FoundIsLookup(fs, path);
    FoundIsCached(fs, path);
    GottenIs(fs, Found(fs, path));
  }

  /** `bits` with exactly the `n` bits from `from` changed to `value`. */
  ghost predicate OnlyBits(bits: seq<bool>, bits1: seq<bool>, from: int, n: int, value: bool) {
    0 <= from && from + n <= |bits| == |bits1| && (forall b :: from <= b < from + n ==> bits[b] != value == bits1[b]) &&
    forall b :: 0 <= b < |bits| && !(from <= b < from + n) ==> bits1[b] == bits[b]
  }

  /** The maps and records after `create_file`: the first clear bit of the inode map is set, the first
      2048 clear bits of the sector map are, and the record is that of an empty regular file there. */
  ghost predicate FileAllocated(fs: Fs, fs1: Fs, num: nat, b: int) {
    RESERVED_INODES <= num < |fs.inodeMap| && OnlyBits(fs.inodeMap, fs1.inodeMap, num, 1, true) &&
    (forall i :: 0 <= i < num ==> fs.inodeMap[i]) &&
    OnlyBits(fs.sectorMap, fs1.sectorMap, b, 2048, true) && (forall i :: 0 <= i < b ==> fs.sectorMap[i]) &&
    num <= |fs.inodes| == |fs1.inodes| &&
    fs1.inodes[num - 1] == Record(I_REGULAR, 0, FirstSector(fs.nrSmap) + b - 1, 2048) &&
    forall i :: 1 <= i < |fs.inodes| && i != num - 1 ==> fs1.inodes[i] == fs.inodes[i]
  }

  /** The directory afterwards: the entry is in the first hole, or behind the last entry if there is none. */
  ghost predicate NameEntered(fs: Fs, fs1: Fs, num: nat, name: Name, e: nat)
    requires |fs.inodes| > 0 && |fs1.inodes| > 0
  {
    var nr := NrEntries(fs);
    e <= nr && e < |fs.dir| == |fs1.dir| && (forall k :: 0 <= k < e ==> fs.dir[k].inode != 0) &&
    (e < nr ==> fs.dir[e].inode == 0) && fs1.dir == fs.dir[e := fs1.dir[e]] && fs1.dir[e].inode == num &&
    |fs.dir[e].name| == |fs1.dir[e].name| == MAX_FILENAME_LEN && |name| < MAX_FILENAME_LEN &&
    fs1.dir[e].name[..|name|] == name && IsNul(fs1.dir[e].name[|name|]) &&
    fs1.dir[e].name[|name| + 1..] == fs.dir[e].name[|name| + 1..] &&
    fs1.inodes[0] == fs.inodes[0].(size := if e == nr then fs.inodes[0].size + 16 else fs.inodes[0].size)
  }

  /** The directory after a create in a block without a hole: the entry is lost, and the block
      is written once more behind itself. */
  ghost predicate BlockWrittenTwice(fs: Fs, fs1: Fs)
    requires |fs.inodes| > 0 && |fs1.inodes| > 0
  {
    NrEntries(fs) == 32 && |fs.dir| == |fs1.dir| >= 64 && (forall k :: 0 <= k < 32 ==> fs.dir[k].inode != 0) &&
    (forall k :: 32 <= k < 64 ==> fs1.dir[k] == fs.dir[k - 32]) &&
    (forall k :: 0 <= k < |fs.dir| && !(32 <= k < 64) ==> fs1.dir[k] == fs.dir[k]) &&
    fs1.inodes[0] == fs.inodes[0].(size := fs.inodes[0].size + 16)
  }

  lemma AllocatedIs(fs: Fs, name: Name)
    requires Inv(fs) && CanAllocate(fs, name)
    ensures CreateOk(fs, name)
    ensures FileAllocated(fs, Entered(Allocated(fs), FirstClear(fs.inodeMap, 0), name), FirstClear(fs.inodeMap, 0),
                          FirstClear(fs.sectorMap, 0))
  {
    CreateReady(fs, name);
    InodeIsFree(fs);
    CacheFacts(fs, FirstClear(fs.inodeMap, 0));
  }

  lemma EnteredIs(fs: Fs, name: Name)
    requires Inv(fs) && CanAllocate(fs, name)
    ensures CreateOk(fs, name)
    ensures var fs1, e := Entered(Allocated(fs), FirstClear(fs.inodeMap, 0), name), FirstHole(fs.dir, 0, NrEntries(fs));
            |fs.inodes| == |fs1.inodes| > 0 &&
            if e < ENTRIES_PER_SECTOR then NameEntered(fs, fs1, FirstClear(fs.inodeMap, 0), name, e)
            else BlockWrittenTwice(fs, fs1)
  {
    CreateReady(fs, name);
    InodeIsFree(fs);
    CacheFacts(fs, FirstClear(fs.inodeMap, 0));
    var e := FirstHole(fs.dir, 0, NrEntries(fs));
    if e < ENTRIES_PER_SECTOR {
      EnteredName(fs, name, e);
    } else {
      EnteredTwice(fs, name);
    }
  }

  /** The same on values, for a directory of at most one block. */
  ghost predicate OneBlock(fs: Fs, name: Name) {
    CreateOk(fs, name) && FirstClear(fs.inodeMap, 0) >= RESERVED_INODES && fs.table[ROOT_SLOT].rec == fs.inodes[0] &&
    fs.inodes[0].size == 16 * NrEntries(fs) && 1 <= NrEntries(fs) <= 32 && |fs.dir| >= 64
  }

  lemma EnteredName(fs: Fs, name: Name, e: nat)
    requires OneBlock(fs, name) && e == FirstHole(fs.dir, 0, NrEntries(fs)) < ENTRIES_PER_SECTOR
    ensures var fs1 := Entered(Allocated(fs), FirstClear(fs.inodeMap, 0), name);
            |fs.inodes| == |fs1.inodes| && NameEntered(fs, fs1, FirstClear(fs.inodeMap, 0), name, e)
  {
    assert SlotInBlock(fs.dir, fs.inodes[0].size);
    StoredName(fs.dir[e].name, name);
  }

  lemma EnteredTwice(fs: Fs, name: Name)
    requires OneBlock(fs, name) && FirstHole(fs.dir, 0, NrEntries(fs)) >= ENTRIES_PER_SECTOR
    ensures var fs1 := Entered(Allocated(fs), FirstClear(fs.inodeMap, 0), name);
            |fs.inodes| == |fs1.inodes| && BlockWrittenTwice(fs, fs1)
  {
    assert !SlotInBlock(fs.dir, fs.inodes[0].size);
  }

  /** The inode table afterwards: the first free slot has the new inode, the root directory's slot has
      the new size, and all others are as before. */
  ghost predicate SlotFilled(fs: Fs, fs1: Fs, num: nat, p: int) {
    0 < p < |fs.table| == |fs1.table| && 1 <= num <= |fs1.inodes| && fs.table[p].cnt == 0 &&
    (forall q :: 0 <= q < p ==> fs.table[q].cnt > 0) && fs1.table[p] == Slot(1, num, fs1.inodes[num - 1]) &&
    fs1.table[0] == fs.table[0].(rec := fs1.inodes[0]) &&
    forall q :: 1 <= q < |fs.table| && q != p ==> fs1.table[q] == fs.table[q]
  }

  lemma FilledIs(fs: Fs, name: Name)
    requires Inv(fs) && CanAllocate(fs, name)
    ensures CreateOk(fs, name)
    ensures SlotFilled(fs, Entered(Allocated(fs), FirstClear(fs.inodeMap, 0), name), FirstClear(fs.inodeMap, 0),
                       GotSlot(fs.table, FirstClear(fs.inodeMap, 0)))
  {
    var num := FirstClear(fs.inodeMap, 0);
    CreateReady(fs, name);
    InodeIsFree(fs);
    CacheFacts(fs, num);
    NotCached(fs.table, fs.inodes, FileNums(fs), num);
  }

  /** A create that succeeds. */
  lemma CreateEffect(fs: Fs, proc: nat, path: seq<Byte>, flags: Flags) returns (num: nat, b: nat, e: nat)
    requires Inv(fs) && Defined(fs, Open(proc, path, flags)) && !OutOfHandles(fs, proc) && !Refused(fs, path, flags)
    requires flags.create
    ensures var (fs1, out) := Next(fs, Open(proc, path, flags));
            out.Returned? && out.value >= 0 && Mentioned(fs1, proc, out.value) && |fs1.inodes| > 0 &&
            FileAllocated(fs, fs1, num, b) &&
            (if e < 32 then NameEntered(fs, fs1, num, Stripped(path).value, e) else BlockWrittenTwice(fs, fs1)) &&
            SlotFilled(fs, fs1, num, SlotBehind(fs1, proc, out.value)) &&
            fs1.nrSmap == fs.nrSmap && fs1.bufSectors == fs.bufSectors
    ensures num == FirstClear(fs.inodeMap, 0)
  {
    OpenEffect(fs, proc, path, flags);
    FoundIsLookup(fs, path);
    var name := Stripped(path).value;
    AllocatedIs(fs, name);
    EnteredIs(fs, name);
    FilledIs(fs, name);
    num, b, e := FirstClear(fs.inodeMap, 0), FirstClear(fs.sectorMap, 0), FirstHole(fs.dir, 0, NrEntries(fs));
  }

  lemma CreatedNumber(fs: Fs, proc: nat, path: seq<Byte>, flags: Flags)
    requires Inv(fs) && Defined(fs, Open(proc, path, flags)) && !OutOfHandles(fs, proc) && !Refused(fs, path, flags)
    requires flags.create
    ensures var (fs1, out) := Next(fs, Open(proc, path, flags));
            out.Returned? && out.value >= 0 && Mentioned(fs1, proc, out.value) &&
            fs1.table[SlotBehind(fs1, proc, out.value)].num == FirstClear(fs.inodeMap, 0)
  {
    var num, b, e := CreateEffect(fs, proc, path, flags);
  }

  /** The inode behind the new handle. */
  lemma OpenedNumber(fs: Fs, proc: nat, path: seq<Byte>, flags: Flags)
    requires Inv(fs) && Legal(fs, Open(proc, path, flags)) && !OutOfHandles(fs, proc) && !Refused(fs, path, flags)
    ensures var (fs1, out) := Next(fs, Open(proc, path, flags));
            out.Returned? && out.value >= 0 && Mentioned(fs1, proc, out.value) &&
            fs1.table[SlotBehind(fs1, proc, out.value)].num ==
              if flags.create then FirstClear(fs.inodeMap, 0) else NameMap(fs)[Stripped(path).value]
  {
    if flags.create {
      CreatedNumber(fs, proc, path, flags);
    } else {
      PlainOpenEffect(fs, proc, path, flags);
    }
  }

  /** Either way the handle leads to the inode that the directory then has under the name. */
  lemma OpenLeadsToName(fs: Fs, proc: nat, path: seq<Byte>, flags: Flags)
    requires Inv(fs) && Legal(fs, Open(proc, path, flags)) && !OutOfHandles(fs, proc) && !Refused(fs, path, flags)
    ensures var (fs1, out) := Next(fs, Open(proc, path, flags));
            out.Returned? && out.value >= 0 && Mentioned(fs1, proc, out.value) &&
            (RequestKeeps(fs, Open(proc, path, flags));
             Stripped(path).value in NameMap(fs1) &&
             fs1.table[SlotBehind(fs1, proc, out.value)].num == NameMap(fs1)[Stripped(path).value])
  {
    OpenKeeps(fs, proc, path, flags);
    FoundIsLookup(fs, path);
    OpenedNumber(fs, proc, path, flags);
  }

  // ---------------------------------------------------------------- close

  /** A close frees the handle and its descriptor, gives back one reference, and returns 0. */
  lemma CloseEffect(fs: Fs, proc: nat, fd: nat)
    requires Inv(fs) && Defined(fs, Close(proc, fd))
    ensures Mentioned(fs, proc, fd)
    ensures var (fs1, out) := Next(fs, Close(proc, fd));
            var d, p := fs.filp[proc][fd], SlotBehind(fs, proc, fd);
            out == Returned(0) && fs1 == fs.(table := fs1.table, descs := fs1.descs, filp := fs1.filp) &&
            fs1.filp == fs.filp[proc := fs.filp[proc][fd := NIL]] &&
            |fs1.descs| == |fs.descs| && fs1.descs[d].inode == NIL && fs1.descs == fs.descs[d := fs1.descs[d]] &&
            fs.table[p].cnt > 0 &&
            fs1.table == fs.table[p := Slot(fs.table[p].cnt - 1, fs.table[p].num, fs.table[p].rec)]
  {
    HandleIsMentioned(fs, proc, fd);
  }

  // ---------------------------------------------------------------- read and write

  /** How many bytes a transfer moves: its end position is cut at the size, or for a write at the
      capacity, but the sectors up to the one of the end are moved in whole chunks. */
  function Movable(pos: nat, len: nat, limit: nat, bufSectors: nat): nat
    requires bufSectors > 0
  {
    var first, last := pos / SECTOR_SIZE, (if pos + len < limit then pos + len else limit) / SECTOR_SIZE;
    if last < first then 0
    else
      var bytes: nat := WholeChunks(last - first + 1, bufSectors) * SECTOR_SIZE - pos % SECTOR_SIZE;
      if len < bytes then len else bytes
  }

  lemma MovableIs(pos: nat, len: nat, limit: nat, bufSectors: nat)
    requires bufSectors > 0
    ensures Covered(pos, len, Min(pos + len, limit), bufSectors) == Movable(pos, len, limit, bufSectors)
  {
    if pos / SECTOR_SIZE <= Min(pos + len, limit) / SECTOR_SIZE {
      TouchedIs(pos, Min(pos + len, limit), bufSectors);
    }
  }

  /** The outcome of a transfer through a handle.  Opened neither to read nor to write, it gives -1
      and changes nothing; any other returns the number of bytes moved, moves the position by it,
      and if the position is then beyond the size, makes it the size, in memory and on disk. */
  ghost predicate Moved(fs: Fs, proc: nat, fd: nat, write: bool, len: nat, fs1: Fs, out: Outcome)
    requires Mentioned(fs, proc, fd) && fs.bufSectors > 0
  {
    var d, p, mode := fs.filp[proc][fd], SlotBehind(fs, proc, fd), ModeOf(fs, proc, fd);
    var s, pos := fs.table[p], PosOf(fs, proc, fd);
    if !mode.read && !mode.write then fs1 == fs && out == Returned(-1)
    else
      var n := Movable(pos, len, if write then s.rec.sectors * SECTOR_SIZE else s.rec.size, fs.bufSectors);
      out == Returned(n) && 1 <= s.num <= |fs.inodes| &&
      fs1 == fs.(table := fs1.table, descs := fs1.descs, inodes := fs1.inodes) &&
      fs1.descs == fs.descs[d := Desc(p, mode, pos + n)] &&
      if pos + n <= s.rec.size then fs1.table == fs.table && fs1.inodes == fs.inodes
      else fs1.table == fs.table[p := Slot(s.cnt, s.num, s.rec.(size := pos + n))] &&
           fs1.inodes == fs.inodes[s.num - 1 := s.rec.(size := pos + n)]
  }

  lemma AdvancedIs(fs: Fs, proc: nat, fd: nat, write: bool, len: nat)
    requires Mentioned(fs, proc, fd) && 1 <= fs.table[SlotBehind(fs, proc, fd)].num <= |fs.inodes| && fs.bufSectors > 0
    ensures var (fs1, out) := Advanced(fs, proc, fd, write, len);
            Moved(fs, proc, fd, write, len, fs1, out)
  {
    var s := fs.table[SlotBehind(fs, proc, fd)];
    MovableIs(PosOf(fs, proc, fd), len, if write then s.rec.sectors * SECTOR_SIZE else s.rec.size, fs.bufSectors);
  }

  lemma RdwtEffect(fs: Fs, proc: nat, fd: nat, write: bool, len: nat)
    requires Inv(fs) && Defined(fs, Rdwt(proc, fd, write, len))
    ensures Mentioned(fs, proc, fd)
    ensures var (fs1, out) := Next(fs, Rdwt(proc, fd, write, len));
            Moved(fs, proc, fd, write, len, fs1, out)
  {
    HandleIsMentioned(fs, proc, fd);
    AdvancedIs(fs, proc, fd, write, len);
  }

  /** A read past the end of a file stops behind the sector of the end, if the buffer takes all. */
  lemma ReadStopsAtEnd(fs: Fs, proc: nat, fd: nat, len: nat)
    requires Inv(fs) && Defined(fs, Rdwt(proc, fd, false, len))
    requires (HandleIsMentioned(fs, proc, fd);
              var size, pos := fs.table[SlotBehind(fs, proc, fd)].rec.size, PosOf(fs, proc, fd);
              var mode := ModeOf(fs, proc, fd);
              (mode.read || mode.write) && pos <= size < pos + len &&
              size / SECTOR_SIZE - pos / SECTOR_SIZE < fs.bufSectors)
    ensures Mentioned(fs, proc, fd)
    ensures var size, pos := fs.table[SlotBehind(fs, proc, fd)].rec.size, PosOf(fs, proc, fd);
            var rest := (size / SECTOR_SIZE + 1) * SECTOR_SIZE - pos;
            Next(fs, Rdwt(proc, fd, false, len)).1 == Returned(if len < rest then len else rest)
  {
    RdwtEffect(fs, proc, fd, false, len);
  }

  // ---------------------------------------------------------------- unlink

  /** The inode that the directory has under a path's name, or 0. */
  ghost function NumberUnder(fs: Fs, path: seq<Byte>): nat
    requires DiskOk(fs)
  {
    if Stripped(path).Some? && Stripped(path).value in NameMap(fs) then NameMap(fs)[Stripped(path).value] else 0
  }

  /** The path "/", or one that leads nowhere: nothing changes. */
  lemma UnlinkOfNothing(fs: Fs, path: seq<Byte>)
    requires Inv(fs) && NoNul(path) && (path == [SLASH] || NumberUnder(fs, path) == 0)
    ensures Next(fs, Unlink(path)) == (fs, Returned(-1))
  {
    FoundIsLookup(fs, path);
  }

  /** Somebody refers to inode `num`. */
  predicate InUse(table: seq<Slot>, num: nat) {
    exists q :: 0 <= q < |table| && table[q].num == num && table[q].cnt > 0
  }

  lemma RemovesWhen(fs: Fs, path: seq<Byte>)
    requires Inv(fs) && path != [SLASH]
    ensures Removes(fs, path) <==> NumberUnder(fs, path) >= RESERVED_INODES && !InUse(fs.table, NumberUnder(fs, path))
  {
    FoundIsLookup(fs, path);
    FoundIsCached(fs, path);
    if Found(fs, path) in FileNums(fs) {
      assert IsFile(fs.nrSmap, fs.inodes, Found(fs, path));
    }
  }

  /** A path to the directory or a terminal, or to a file that somebody refers to: the unlink fails
      too, but it keeps the reference that it took. */
  lemma UnlinkInUse(fs: Fs, path: seq<Byte>)
    requires Inv(fs) && NoNul(path) && path != [SLASH] && NumberUnder(fs, path) > 0
    requires NumberUnder(fs, path) < RESERVED_INODES || InUse(fs.table, NumberUnder(fs, path))
    ensures HasRoom(fs.table, NumberUnder(fs, path))
    ensures var (fs1, out) := Next(fs, Unlink(path));
            out == Returned(-1) && fs1 == fs.(table := fs1.table) &&
            OneMore(fs.table, fs.inodes, NumberUnder(fs, path), fs1.table, GotSlot(fs.table, NumberUnder(fs, path)))
  {
    FoundIsLookup(fs, path);
    FoundIsCached(fs, path);
    RemovesWhen(fs, path);
    GotToRemove(fs, path);
    GottenIs(fs, NumberUnder(fs, path));
  }

  /** The disk after a removal: the file's bit in the inode map and the 2048 bits of its extent, all set
      before, are clear, its record is zero, and the first entry with its number is. */
  ghost predicate FileRemoved(fs: Fs, fs1: Fs, num: nat, e: nat) {
    1 <= num <= |fs.inodes| == |fs1.inodes| && e < |fs.dir| == |fs1.dir| &&
    OnlyBits(fs.inodeMap, fs1.inodeMap, num, 1, false) &&
    OnlyBits(fs.sectorMap, fs1.sectorMap, fs.inodes[num - 1].start - FirstSector(fs.nrSmap) + 1, 2048, false) &&
    fs1.inodes[num - 1] == Record(0, 0, 0, 0) &&
    (forall i :: 1 <= i < |fs.inodes| && i != num - 1 ==> fs1.inodes[i] == fs.inodes[i]) &&
    fs.dir[e].inode == num && (forall k :: 0 <= k < e ==> fs.dir[k].inode != num) &&
    fs1.dir == fs.dir[e := fs1.dir[e]] && fs1.dir[e].inode == 0 && |fs1.dir[e].name| == MAX_FILENAME_LEN &&
    forall j :: 0 <= j < MAX_FILENAME_LEN ==> IsNul(fs1.dir[e].name[j])
  }

  /** The size of the directory: if the entry was the last one, 16 bytes for every other entry in use. */
  ghost predicate SizeAfterRemoval(fs: Fs, fs1: Fs, e: nat)
    requires |fs.inodes| > 0 && |fs1.inodes| > 0
  {
    e < NrEntries(fs) <= |fs.dir| &&
    fs1.inodes[0] == fs.inodes[0].(size :=
      if e + 1 == NrEntries(fs) then 16 * |set k | 0 <= k < e && fs.dir[k].inode != 0| else fs.inodes[0].size)
  }

  /** The inode table: the reference taken was given back, and the root directory's slot has the new size. */
  ghost predicate SlotEmptied(fs: Fs, fs1: Fs, num: nat, p: int) {
    0 < p < |fs.table| == |fs1.table| && |fs1.inodes| > 0 && fs.table[p].cnt == 0 &&
    fs1.table[p] == Slot(0, num, Record(0, 0, 0, 0)) &&
    fs1.table[0] == fs.table[0].(rec := fs1.inodes[0]) &&
    forall q :: 1 <= q < |fs.table| && q != p ==> fs1.table[q] == fs.table[q]
  }

  /** An unlink that succeeds. */
  lemma UnlinkDone(fs: Fs, path: seq<Byte>) returns (e: nat, p: nat)
    requires Inv(fs) && NoNul(path) && path != [SLASH]
    requires NumberUnder(fs, path) >= RESERVED_INODES && !InUse(fs.table, NumberUnder(fs, path))
    ensures var (fs1, out) := Next(fs, Unlink(path));
            out == Returned(0) && fs1.descs == fs.descs && fs1.filp == fs.filp &&
            fs1.nrSmap == fs.nrSmap && fs1.bufSectors == fs.bufSectors &&
            FileRemoved(fs, fs1, NumberUnder(fs, path), e) && SizeAfterRemoval(fs, fs1, e) &&
            SlotEmptied(fs, fs1, NumberUnder(fs, path), p)
  {
    FoundIsLookup(fs, path);
    FoundIsCached(fs, path);
    RemovesWhen(fs, path);
    RemovesReady(fs, path);
    var num := NumberUnder(fs, path);
    p := GotSlot(fs.table, num);
    e := FindInode(fs.dir, 0, NrEntries(fs), num);
    RemovedIs(fs, num);
  }

  lemma RemovedIs(fs: Fs, num: nat)
    requires Inv(fs) && num in FileNums(fs) && !InUse(fs.table, num)
    ensures HasRoom(fs.table, num) && num < NR_INODES && UnlinkOk(Gotten(fs, num), num, GotSlot(fs.table, num))
    ensures var p, e := GotSlot(fs.table, num), FindInode(fs.dir, 0, NrEntries(fs), num);
            var fs1 := Erased(Freed(Gotten(fs, num), num, p), num);
            FileRemoved(fs, fs1, num, e) && SizeAfterRemoval(fs, fs1, e) && SlotEmptied(fs, fs1, num, p)
  {
    RemovedReady(fs, num);
    var e, p := FindInode(fs.dir, 0, NrEntries(fs), num), GotSlot(fs.table, num);
    LiveIsCount(fs.dir, e);
    RemovedParts(fs, num, p);
    RemovedSlot(fs, num, p);
  }

  lemma RemovedReady(fs: Fs, num: nat)
    requires Inv(fs) && num in FileNums(fs) && !InUse(fs.table, num)
    ensures HasRoom(fs.table, num) && num < NR_INODES
    ensures GotSlot(fs.table, num) > 0 && fs.table[GotSlot(fs.table, num)].cnt == 0
    ensures UnlinkOk(Gotten(fs, num), num, GotSlot(fs.table, num))
  {
    assert IsFile(fs.nrSmap, fs.inodes, num);
    CacheFacts(fs, num);
    GetKeeps(fs, num);
    UnlinkReady(Gotten(fs, num), num, GotSlot(fs.table, num));
  }

  /** The same two on values, for a slot that was free. */
  lemma RemovedParts(fs: Fs, num: nat, p: nat)
    requires HasRoom(fs.table, num) && 1 <= num <= |fs.inodes| && p == GotSlot(fs.table, num) && fs.table[p].cnt == 0
    requires UnlinkOk(Gotten(fs, num), num, p)
    ensures var fs1, e := Erased(Freed(Gotten(fs, num), num, p), num), FindInode(fs.dir, 0, NrEntries(fs), num);
            FileRemoved(fs, fs1, num, e) && SizeAfterRemoval(fs, fs1, e)
  {
    LiveIsCount(fs.dir, FindInode(fs.dir, 0, NrEntries(fs), num));
  }

  lemma RemovedSlot(fs: Fs, num: nat, p: nat)
    requires HasRoom(fs.table, num) && 1 <= num <= |fs.inodes| && p == GotSlot(fs.table, num) && fs.table[p].cnt == 0
    requires UnlinkOk(Gotten(fs, num), num, p)
    ensures SlotEmptied(fs, Erased(Freed(Gotten(fs, num), num, p), num), num, p)
  {
  }

  /** A path with a slash in front leads where the name alone does. */
  lemma SlashLeadsToSame(fs: Fs, name: Name)
    requires Inv(fs) && NoSlash(name) && |name| <= MAX_FILENAME_LEN
    ensures SearchLimit(fs.table[ROOT_SLOT].rec.size) <= |fs.dir|
    ensures Found(fs, [SLASH] + name) == Found(fs, name) == if name in NameMap(fs) then NameMap(fs)[name] else 0
  {
    SlashIsDropped(name);
    FoundIsLookup(fs, name);
  }
}
