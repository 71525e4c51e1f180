/** The file system server: the requests carried out on the disk, the inode table, the
    descriptors and the file handles, each tied to what `Requests` says of it. */
module FileSystem {
  import opened Device
  import opened Volume
  import opened SectorMap
  import opened FileData
  import opened Records
  import opened InodeCache
  import opened SuperBlock
  import opened Directory
  import opened Files
  import opened Requests
  import opened Format
  import opened Contents

  /** What a transfer has done: a write to the disk, or a read to the caller's buffer. */
  ghost predicate Transferred(nrSmap: nat, write: bool, disk0: seq<Sector>, disk: seq<Sector>,
                              buf0: seq<Byte>, buf: seq<Byte>, a: nat, n: nat) {
    |buf| == |buf0| && n <= |buf| &&
    if write then buf == buf0 && DataWritten(nrSmap, disk0, disk, a, n, buf)
    else SameData(nrSmap, disk0, disk) && buf[n..] == buf0[n..] && Fetched(buf, disk0, a, n)
  }

  lemma SameDataJoins(nrSmap: nat, a: seq<Sector>, b: seq<Sector>, c: seq<Sector>)
    requires SameData(nrSmap, a, b) && SameData(nrSmap, b, c)
    ensures SameData(nrSmap, a, c)
  {
  }

  lemma SameDataIs(nrSmap: nat, a: seq<Sector>)
    ensures SameData(nrSmap, a, a)
  {
  }

  /** A write behind the metadata leaves the metadata alone. */
  lemma WriteIsData(nrSmap: nat, disk0: seq<Sector>, disk: seq<Sector>, a: nat, n: nat, data: seq<Byte>)
    requires HasLayout(nrSmap, disk0) && Overwritten(disk0, disk, a, n, data)
    requires a >= (FirstSector(nrSmap) + NR_DEFAULT_FILE_SECTS) * SECTOR_SIZE
    ensures HasLayout(nrSmap, disk) && DataWritten(nrSmap, disk0, disk, a, n, data)
    ensures forall k :: 0 <= k < FirstSector(nrSmap) + NR_DEFAULT_FILE_SECTS ==> disk[k] == disk0[k]
  {
    forall k | 0 <= k < FirstSector(nrSmap) + NR_DEFAULT_FILE_SECTS ensures disk[k] == disk0[k] {
      forall i | 0 <= i < SECTOR_SIZE ensures disk[k][i] == disk0[k][i] {
        assert (k * SECTOR_SIZE + i) / SECTOR_SIZE == k;
        assert ByteAt(disk, k * SECTOR_SIZE + i) == ByteAt(disk0, k * SECTOR_SIZE + i);
      }
    }
  }

  lemma WrittenThenSame(nrSmap: nat, disk0: seq<Sector>, disk1: seq<Sector>, disk: seq<Sector>, a: nat, n: nat,
                        data: seq<Byte>)
    requires DataWritten(nrSmap, disk0, disk1, a, n, data) && SameData(nrSmap, disk1, disk)
    ensures DataWritten(nrSmap, disk0, disk, a, n, data)
  {
    forall x: nat | FirstSector(nrSmap) + NR_DEFAULT_FILE_SECTS <= x / SECTOR_SIZE < |disk|
      ensures ByteAt(disk, x) == if a <= x < a + n then data[x - a] else ByteAt(disk0, x)
    {
      assert ByteAt(disk1, x) == if a <= x < a + n then data[x - a] else ByteAt(disk0, x);
    }
  }

  lemma MovedThenSame(nrSmap: nat, write: bool, disk0: seq<Sector>, disk1: seq<Sector>, disk: seq<Sector>,
                      buf0: seq<Byte>, buf: seq<Byte>, a: nat, n: nat)
    requires Transferred(nrSmap, write, disk0, disk1, buf0, buf, a, n) && SameData(nrSmap, disk1, disk)
    ensures Transferred(nrSmap, write, disk0, disk, buf0, buf, a, n)
  {
    if write {
      WrittenThenSame(nrSmap, disk0, disk1, disk, a, n, buf);
    } else {
      SameDataJoins(nrSmap, disk0, disk1, disk);
    }
  }

  /** What the inode behind a handle is like, when the kernel's assertions hold for a transfer. */
  ghost predicate TransferOk(fs: Fs, proc: nat, fd: nat, write: bool) {
    Mentioned(fs, proc, fd) &&
    var s := fs.table[SlotBehind(fs, proc, fd)];
    1 <= s.num <= |fs.inodes| && Fits(s.rec) && s.rec.size <= CAPACITY && PosOf(fs, proc, fd) <= CAPACITY &&
    s.rec.sectors == NR_DEFAULT_FILE_SECTS &&
    (write && ModeOf(fs, proc, fd).Rdwr() ==> s.rec.start >= FirstSector(fs.nrSmap) + NR_DEFAULT_FILE_SECTS)
  }

  lemma TransferIsOk(fs: Fs, proc: nat, fd: nat, write: bool, len: nat)
    requires Inv(fs) && Defined(fs, Rdwt(proc, fd, write, len))
    ensures TransferOk(fs, proc, fd, write)
  {
    HandleIsMentioned(fs, proc, fd);
    var s := fs.table[SlotBehind(fs, proc, fd)];
    assert DescOk(fs.table, fs.descs[fs.filp[proc][fd]]);
    if s.num in FileNums(fs) {
      assert IsFile(fs.nrSmap, fs.inodes, s.num);
    }
  }

  /** Positions stay within 32 bits. */
  lemma EndFits(rec: Record, pos: nat, write: bool, len: nat, bufSectors: nat)
    requires bufSectors > 0 && rec.size <= CAPACITY && pos <= CAPACITY && rec.sectors == NR_DEFAULT_FILE_SECTS
    ensures pos + Covered(pos, len, EndOf(rec, pos, write, len), bufSectors) < WORD_LIMIT
  {
  }

  lemma NothingMoved(fs: Fs, r: Request, disk0: seq<Sector>, disk: seq<Sector>, buf: seq<Byte>)
    requires Inv(fs) && Defined(fs, r) && !r.Rdwt? && SameData(fs.nrSmap, disk0, disk)
    ensures DiskStep(fs, r, buf, disk0, disk) && Answered(fs, r, disk0, buf, buf)
  {
  }

  // ---------------------------------------------------------------- where a run of requests stands

  /** The first `i` requests of a run from `fs0` have been served and have led to `fs`. */
  ghost predicate UpTo(fs0: Fs, rs: seq<Request>, i: nat, fs: Fs, outs: seq<Outcome>, datas: seq<seq<Byte>>,
                       answers: seq<seq<Byte>>, disks: seq<seq<Sector>>) {
    i <= |rs| && Inv(fs0) && IsRun(fs0, rs[..i]) && After(fs0, rs[..i]) == fs && Inv(fs) && IsRun(fs, rs[i..]) &&
    Served(fs0, rs[..i], outs, datas, answers, disks) && Compact(fs) && fs.nrSmap == fs0.nrSmap
  }

  lemma RunSplit(rs: seq<Request>, i: nat)
    requires i < |rs|
    ensures rs[..i] + [rs[i]] == rs[..i + 1] && rs[i..][0] == rs[i] && rs[i..][1..] == rs[i + 1..]
  {
  }

  /** The next request of the run is legal and returns. */
  lemma NextOfRun(fs: Fs, rs: seq<Request>, i: nat)
    requires Inv(fs) && i < |rs| && IsRun(fs, rs[i..])
    ensures Legal(fs, rs[i]) && Next(fs, rs[i]).1 != Stopped
    ensures (RequestKeeps(fs, rs[i]); IsRun(Next(fs, rs[i]).0, rs[i + 1..]))
  {
    RunSplit(rs, i);
  }

  lemma OneFurther(fs0: Fs, rs: seq<Request>, i: nat, fs: Fs, outs: seq<Outcome>, datas: seq<seq<Byte>>,
                   answers: seq<seq<Byte>>, disks: seq<seq<Sector>>,
                   out: Outcome, data: seq<Byte>, answer: seq<Byte>, disk: seq<Sector>)
    requires UpTo(fs0, rs, i, fs, outs, datas, answers, disks) && i < |rs|
    requires ServedNext(fs, rs[i], out, data, answer, disks[i], disk)
    ensures UpTo(fs0, rs, i + 1, Next(fs, rs[i]).0, outs + [out], datas + [data], answers + [answer], disks + [disk])
  {
    NextOfRun(fs, rs, i);
    RunSplit(rs, i);
    RequestKeeps(fs, rs[i]);
    CompactKeeps(fs, rs[i]);
    SameVolume(fs, rs[i]);
    ServedThen(fs0, rs[..i], outs, datas, answers, disks, fs, rs[i], out, data, answer, disk);
  }

  lemma AtStart(fs0: Fs, rs: seq<Request>, disk: seq<Sector>)
    requires Inv(fs0) && IsRun(fs0, rs) && Compact(fs0)
    ensures UpTo(fs0, rs, 0, fs0, [], [], [], [disk])
  {
    assert rs[..0] == [] && rs[0..] == rs;
  }

  lemma AtEnd(fs0: Fs, rs: seq<Request>, fs: Fs, outs: seq<Outcome>, datas: seq<seq<Byte>>, answers: seq<seq<Byte>>,
              disks: seq<seq<Sector>>)
    requires UpTo(fs0, rs, |rs|, fs, outs, datas, answers, disks)
    ensures Inv(fs0) && IsRun(fs0, rs) && After(fs0, rs) == fs && Served(fs0, rs, outs, datas, answers, disks)
  {
    assert rs[..|rs|] == rs;
  }

  // ---------------------------------------------------------------- the server

  /** The state as the disk and the tables have it. */
  ghost function OnDisk(nrSmap: nat, bufSectors: nat, disk: seq<Sector>, table: seq<Slot>, descs: seq<Desc>,
                        filp: seq<seq<int>>): Fs
    requires HasLayout(nrSmap, disk)
  {
    Fs(nrSmap, bufSectors, Bits(disk, IMAP_SECTOR, 1), Bits(disk, SMAP_SECTOR, nrSmap), Inodes(nrSmap, disk),
       Dir(nrSmap, disk), table, descs, filp)
  }

  /** An empty inode table gives out its first slot. */
  lemma FirstGet(table: seq<Slot>, inodes: seq<Record>, num: nat)
    requires table != [] && (forall p :: 0 <= p < |table| ==> table[p].cnt == 0) && 1 <= num <= |inodes|
    ensures HasRoom(table, num) && GotTable(table, inodes, num) == table[ROOT_SLOT := Slot(1, num, inodes[num - 1])]
  {
  }

  class FileSystem {
    const dev: Device
    const nrSmap: nat
    const table: array<Slot>
    const descs: array<Desc>
    var filp: seq<seq<int>>

    ghost predicate Valid()
      reads this, dev
    {
      dev.fsbuf.Length >= 2 * SECTOR_SIZE && HasLayout(nrSmap, dev.disk)
    }

    ghost function State(): Fs
      reads this, dev, table, descs
      requires Valid()
    {
      OnDisk(nrSmap, dev.fsbuf.Length / SECTOR_SIZE, dev.disk, table[..], descs[..], filp)
    }

    /** `init_fs`: free tables, `mkfs`, the super block read back, and the root directory's inode
        for good. */
    constructor (dev: Device, nrProcs: nat)
      requires dev.fsbuf.Length >= 2 * SECTOR_SIZE && |dev.disk| < WORD_LIMIT
      requires var nrSmap := SuperFor(|dev.disk|).nrSmap;
               HasLayout(nrSmap, dev.disk) && FirstSector(nrSmap) + nrSmap * BITS_PER_SECTOR < WORD_LIMIT
      modifies dev`disk, dev.fsbuf
      ensures this.dev == dev && |dev.disk| == old(|dev.disk|)
      ensures SuperAt(dev.disk[SUPER_SECTOR]) == SuperFor(|dev.disk|) && nrSmap == SuperFor(|dev.disk|).nrSmap
      ensures Valid() && |filp| == nrProcs && Fresh(State()) && Inv(State())
      ensures fresh(table) && fresh(descs)
    {
      this.dev := dev;
      table := new Slot[NR_INODES](_ => Slot(0, 0, Record(0, 0, 0, 0)));
      descs := new Desc[NR_FILE_DESC](_ => Desc(NIL, Flags(false, false, false), 0));
      filp := seq(nrProcs, _ => seq(NR_FILES, _ => NIL));
      Mkfs(dev);
      var sb := ReadSuper(dev);
      assert sb.magic == MAGIC_V1;
      nrSmap := sb.nrSmap;
      new;
      KeepRoot();
      FreshIsGood(State());
    }

    /** The root directory's inode, for good. */
    method KeepRoot()
      requires Valid() && FirstSector(nrSmap) + nrSmap * BITS_PER_SECTOR < WORD_LIMIT
      requires var fs := State(); FreshDisk(nrSmap, fs.inodeMap, fs.sectorMap, fs.inodes, fs.dir)
      requires table.Length == NR_INODES && forall p :: 0 <= p < table.Length ==> table[p].cnt == 0
      requires descs.Length == NR_FILE_DESC && forall d :: 0 <= d < descs.Length ==> descs[d].inode == NIL
      requires forall proc :: 0 <= proc < |filp| ==> filp[proc] == seq(NR_FILES, _ => NIL)
      modifies dev.fsbuf, table
      ensures Valid() && Fresh(State())
    {
      FirstGet(table[..], Inodes(nrSmap, dev.disk), ROOT_INODE);
      var root := GetInode(dev, nrSmap, table, ROOT_INODE);
    }

    // ---------------------------------------------------------------- create_file

    /** A new size of the root directory, in memory and by `sync_inode` on disk. */
    method SetRootSize(size: nat)
      requires Valid() && table.Length > ROOT_SLOT && table[ROOT_SLOT].num == ROOT_INODE && Fits(table[ROOT_SLOT].rec)
      requires size < WORD_LIMIT
      modifies dev`disk, dev.fsbuf, table
      ensures Valid() && SameData(nrSmap, old(dev.disk), dev.disk)
      ensures State() == WithRootSize(old(State()), size)
    {
      ghost var disk0 := dev.disk;
      table[ROOT_SLOT] := table[ROOT_SLOT].(rec := table[ROOT_SLOT].rec.(size := size));
      SyncInode(dev, nrSmap, table[ROOT_SLOT]);
      RegionsAreApart(nrSmap, disk0, dev.disk);
    }

    /** The entry itself. */
    method InsertName(size: nat, inodeNr: nat, name: Name) returns (newSize: nat)
      requires Valid() && DIR_ENTRY_SIZE <= size && size + SECTOR_SIZE <= CAPACITY
      requires Storable(name) && inodeNr < WORD_LIMIT
      modifies dev`disk, dev.fsbuf
      ensures Valid() && SameData(nrSmap, old(dev.disk), dev.disk)
      ensures var fs, nr := old(State()), size / DIR_ENTRY_SIZE;
              var h := FirstHole(fs.dir, 0, nr);
              nr < |fs.dir| && |fs.dir[h].name| == MAX_FILENAME_LEN &&
              newSize == (if h < nr then size else size + DIR_ENTRY_SIZE) &&
              if SlotInBlock(fs.dir, size) then State() == fs.(dir := Inserted(fs.dir, h, inodeNr, name))
              else ENTRIES_PER_SECTOR <= nr && State() == fs.(dir := BlockRepeated(fs.dir, nr))
    {
      ghost var disk0 := dev.disk;
      newSize := InsertEntry(dev, nrSmap, size, inodeNr, name);
      RegionsAreApart(nrSmap, disk0, dev.disk);
    }

    /** `new_dir_entry`. */
    method NewDirEntry(inodeNr: nat, name: Name)
      requires Valid() && table.Length > ROOT_SLOT && table[ROOT_SLOT].num == ROOT_INODE && Fits(table[ROOT_SLOT].rec)
      requires var size := table[ROOT_SLOT].rec.size;
               DIR_ENTRY_SIZE <= size && size + SECTOR_SIZE <= CAPACITY
      requires Storable(name) && inodeNr < WORD_LIMIT
      modifies dev`disk, dev.fsbuf, table
      ensures Valid() && SameData(nrSmap, old(dev.disk), dev.disk)
      ensures var fs := old(State());
              var nr := fs.table[ROOT_SLOT].rec.size / DIR_ENTRY_SIZE;
              nr < |fs.dir| && |fs.dir[FirstHole(fs.dir, 0, nr)].name| == MAX_FILENAME_LEN &&
              (SlotInBlock(fs.dir, fs.table[ROOT_SLOT].rec.size) || ENTRIES_PER_SECTOR <= nr) &&
              State() == Entered(fs, inodeNr, name)
    {
      var size := InsertName(table[ROOT_SLOT].rec.size, inodeNr, name);
      ghost var disk1 := dev.disk;
      SetRootSize(size);
      SameDataJoins(nrSmap, old(dev.disk), disk1, dev.disk);
    }

    method TakeInodeBit() returns (inodeNr: nat)
      requires Valid() && FirstClear(State().inodeMap, 0) < |State().inodeMap|
      modifies dev`disk, dev.fsbuf
      ensures Valid() && SameData(nrSmap, old(dev.disk), dev.disk)
      ensures var fs := old(State());
              inodeNr == FirstClear(fs.inodeMap, 0) && State() == fs.(inodeMap := fs.inodeMap[inodeNr := true])
    {
      ghost var disk0 := dev.disk;
      inodeNr := AllocImapBit(dev);
      RegionsAreApart(nrSmap, disk0, dev.disk);
    }

    method TakeSectors() returns (freeSectNr: nat)
      requires Valid() && CanAlloc(State().sectorMap, NR_DEFAULT_FILE_SECTS)
      modifies dev`disk, dev.fsbuf
      ensures Valid() && SameData(nrSmap, old(dev.disk), dev.disk)
      ensures var fs := old(State());
              var f := FirstClear(fs.sectorMap, 0);
              freeSectNr == SectorOfBit(nrSmap, f) &&
              State() == fs.(sectorMap := WithRange(fs.sectorMap, f, NR_DEFAULT_FILE_SECTS, true))
    {
      ghost var disk0 := dev.disk;
      freeSectNr := AllocSmapBit(dev, nrSmap, NR_DEFAULT_FILE_SECTS);
      RegionsAreApart(nrSmap, disk0, dev.disk);
    }

    method TakeInode(inodeNr: nat, start: nat) returns (p: nat)
      requires Valid() && 1 <= inodeNr <= NR_INODES && start < WORD_LIMIT && HasRoom(table[..], inodeNr)
      modifies dev`disk, dev.fsbuf, table
      ensures Valid() && SameData(nrSmap, old(dev.disk), dev.disk)
      ensures var fs := old(State());
              var rec := Record(I_REGULAR, 0, start, NR_DEFAULT_FILE_SECTS);
              p == GotSlot(fs.table, inodeNr) < table.Length &&
              State() == fs.(inodes := fs.inodes[inodeNr - 1 := rec], table := fs.table[p := Slot(1, inodeNr, rec)])
    {
      ghost var disk0 := dev.disk;
      p := NewInode(dev, nrSmap, table, inodeNr, start);
      RegionsAreApart(nrSmap, disk0, dev.disk);
    }

    /** The allocations of `create_file`. */
    method AllocateFile() returns (p: nat)
      requires Valid() && FirstSector(nrSmap) + nrSmap * BITS_PER_SECTOR < WORD_LIMIT
      requires var fs := State();
               var num := FirstClear(fs.inodeMap, 0);
               0 < num < |fs.inodeMap| && num <= NR_INODES && HasRoom(fs.table, num) &&
               CanAlloc(fs.sectorMap, NR_DEFAULT_FILE_SECTS)
      modifies dev`disk, dev.fsbuf, table
      ensures Valid() && SameData(nrSmap, old(dev.disk), dev.disk)
      ensures var fs := old(State());
              p == GotSlot(fs.table, FirstClear(fs.inodeMap, 0)) < table.Length &&
              table[p].num == FirstClear(fs.inodeMap, 0) && State() == Allocated(fs)
    {
      var inodeNr := TakeInodeBit();
      var freeSectNr := TakeSectors();
      p := TakeInode(inodeNr, freeSectNr);
    }

    /** `create_file`. */
    method CreateFile(path: seq<Byte>) returns (p: int)
      requires Valid() && Inv(State())
      requires var name := Stripped(path);
               name.Some? ==> CanAllocate(State(), name.value)
      modifies dev`disk, dev.fsbuf, table
      ensures Valid() && SameData(nrSmap, old(dev.disk), dev.disk)
      ensures match Stripped(path)
              case None => p == NIL && State() == old(State())
              case Some(name) =>
                var fs := old(State());
                CreateOk(fs, name) && p == GotSlot(fs.table, FirstClear(fs.inodeMap, 0)) &&
                State() == Entered(Allocated(fs), FirstClear(fs.inodeMap, 0), name)
    {
      ghost var fs := State();
      var filename := StripPath(path);
      if filename.None? {
        return NIL;
      }
      CreateReady(fs, filename.value);
      InodeIsFree(fs);
      CacheFacts(fs, FirstClear(fs.inodeMap, 0));
      p := AllocateFile();
      ghost var disk1 := dev.disk;
      NewDirEntry(table[p].num, filename.value);
      SameDataJoins(nrSmap, old(dev.disk), disk1, dev.disk);
    }

    /** `search_file`. */
    method Search(path: seq<Byte>) returns (num: nat)
      requires Valid() && NoNul(path) && table.Length > ROOT_SLOT
      requires table[ROOT_SLOT].rec.size <= CAPACITY && SearchLimit(table[ROOT_SLOT].rec.size) <= DIR_SLOTS
      modifies dev.fsbuf
      ensures num == Found(State(), path)
    {
      var filename := StripPath(path);
      if filename.None? {
        return 0;
      }
      num := SearchFile(dev, nrSmap, table[ROOT_SLOT].rec.size, filename.value);
    }

    // ---------------------------------------------------------------- do_open

    method PickHandle(proc: nat) returns (fd: nat)
      requires proc < |filp|
      ensures fd == FreeHandle(filp[proc], 0)
    {
      fd := 0;
      while fd < |filp[proc]|
        invariant fd <= |filp[proc]| && FreeHandle(filp[proc], 0) == FreeHandle(filp[proc], fd)
      {
        if filp[proc][fd] == NIL {
          break;
        }
        fd := fd + 1;
      }
    }

    method PickDesc() returns (d: nat)
      ensures d == FreeDesc(descs[..], 0)
    {
      d := 0;
      while d < descs.Length
        invariant d <= descs.Length && FreeDesc(descs[..], 0) == FreeDesc(descs[..], d)
      {
        if descs[d].inode == NIL {
          break;
        }
        d := d + 1;
      }
    }

    /** The middle of `do_open`: the inode to open, if there is one. */
    method OpenInode(path: seq<Byte>, flags: Flags, inodeNr: nat) returns (pin: int)
      requires Valid() && Inv(State())
      requires (FoundIsCached(State(), path); inodeNr == Found(State(), path))
      requires Creates(State(), path, flags) ==> CanAllocate(State(), Stripped(path).value)
      modifies dev`disk, dev.fsbuf, table
      ensures Valid() && SameData(nrSmap, old(dev.disk), dev.disk)
      ensures (State(), pin) == OpenedInode(old(State()), path, flags)
    {
      ghost var fs := State();
      FoundIsCached(fs, path);
      FoundIsLookup(fs, path);
      CacheFacts(fs, inodeNr);
      if flags.create {
        if inodeNr != 0 {
          return NIL;
        }
        pin := CreateFile(path);
      } else {
        var filename := StripPath(path);
        if filename.None? {
          return NIL;
        }
        pin := GetInode(dev, nrSmap, table, inodeNr);
      }
    }

    /** The search and what follows it. */
    method SearchAndOpen(path: seq<Byte>, flags: Flags) returns (pin: int)
      requires Valid() && Inv(State()) && NoNul(path)
      requires Creates(State(), path, flags) ==> CanAllocate(State(), Stripped(path).value)
      modifies dev`disk, dev.fsbuf, table
      ensures Valid() && SameData(nrSmap, old(dev.disk), dev.disk)
      ensures (State(), pin) == OpenedInode(old(State()), path, flags)
    {
      CacheFacts(State(), 1);
      var inodeNr := Search(path);
      pin := OpenInode(path, flags, inodeNr);
    }

    method Attach(pin: nat, proc: nat, fd: nat, i: nat, flags: Flags)
      requires Valid() && i < descs.Length && proc < |filp| && fd < |filp[proc]|
      modifies this`filp, descs
      ensures State() == Attached(old(State()), pin, proc, fd, i, flags)
    {
      filp := filp[proc := filp[proc][fd := i]];
      descs[i] := Desc(pin, flags, 0);
    }

    /** `do_open` once it has a handle and a descriptor. */
    method OpenAt(proc: nat, fd: nat, i: nat, path: seq<Byte>, flags: Flags) returns (r: Outcome)
      requires Valid() && Inv(State()) && NoNul(path) && proc < |filp| && fd < |filp[proc]| && i < descs.Length
      requires Creates(State(), path, flags) ==> CanAllocate(State(), Stripped(path).value)
      modifies this`filp, dev`disk, dev.fsbuf, table, descs
      ensures Valid() && SameData(nrSmap, old(dev.disk), dev.disk)
      ensures var (fs1, pin) := OpenedInode(old(State()), path, flags);
              if pin == NIL then State() == fs1 && r == Returned(-1)
              else State() == Attached(fs1, pin, proc, fd, i, flags) && r == Returned(fd)
    {
      var pin := SearchAndOpen(path, flags);
      if pin == NIL {
        return Returned(-1);
      }
      Attach(pin, proc, fd, i, flags);
      return Returned(fd);
    }

    /** `do_open`. */
    method DoOpen(proc: nat, path: seq<Byte>, flags: Flags) returns (r: Outcome)
      requires Valid() && Inv(State()) && Defined(State(), Open(proc, path, flags))
      modifies this`filp, dev`disk, dev.fsbuf, table, descs
      ensures Valid() && SameData(nrSmap, old(dev.disk), dev.disk)
      ensures (State(), r) == Opened(old(State()), proc, path, flags)
    {
      var fd := PickHandle(proc);
      if fd >= NR_FILES {
        return Stopped;
      }
      var i := PickDesc();
      if i >= NR_FILE_DESC {
        return Stopped;
      }
      r := OpenAt(proc, fd, i, path, flags);
    }

    // ---------------------------------------------------------------- do_close

    /** `do_close`. */
    method DoClose(proc: nat, fd: nat) returns (r: Outcome)
      requires Valid() && Mentioned(State(), proc, fd) && table[SlotBehind(State(), proc, fd)].cnt > 0
      modifies this`filp, table, descs
      ensures Valid() && State() == Closed(old(State()), proc, fd) && r == Returned(0)
    {
      var i := filp[proc][fd];
      PutInode(table, descs[i].inode);
      descs[i] := descs[i].(inode := NIL);
      filp := filp[proc := filp[proc][fd := NIL]];
      return Returned(0);
    }

    // ---------------------------------------------------------------- do_unlink

    method GiveInodeBit(inodeNr: nat)
      requires Valid() && inodeNr < |State().inodeMap| && State().inodeMap[inodeNr]
      modifies dev`disk, dev.fsbuf
      ensures Valid() && SameData(nrSmap, old(dev.disk), dev.disk)
      ensures var fs := old(State()); State() == fs.(inodeMap := fs.inodeMap[inodeNr := false])
    {
      ghost var disk0 := dev.disk;
      FreeImapBit(dev, inodeNr);
      RegionsAreApart(nrSmap, disk0, dev.disk);
    }

    method GiveSectors(start: nat, n: nat)
      requires Valid()
      requires var b := BitOfSector(nrSmap, start);
               var bits := State().sectorMap;
               n > 0 && 0 <= b && b + n <= |bits| && forall x :: b <= x < b + n ==> bits[x]
      modifies dev`disk, dev.fsbuf
      ensures Valid() && SameData(nrSmap, old(dev.disk), dev.disk)
      ensures var fs := old(State());
              State() == fs.(sectorMap := WithRange(fs.sectorMap, BitOfSector(nrSmap, start), n, false))
    {
      ghost var disk0 := dev.disk;
      FreeSmapBits(dev, nrSmap, start, n);
      RegionsAreApart(nrSmap, disk0, dev.disk);
    }

    /** The inode is cleared, in memory and on disk, and put back. */
    method GiveInode(inodeNr: nat, p: nat)
      requires Valid() && p < table.Length && table[p].cnt > 0 && 1 <= inodeNr <= NR_INODES
      modifies dev`disk, dev.fsbuf, table
      ensures Valid() && SameData(nrSmap, old(dev.disk), dev.disk)
      ensures var fs := old(State());
              var gone := Record(0, 0, 0, 0);
              State() == fs.(inodes := fs.inodes[inodeNr - 1 := gone],
                             table := fs.table[p := Slot(fs.table[p].cnt - 1, inodeNr, gone)])
    {
      ghost var disk0 := dev.disk;
      table[p] := Slot(table[p].cnt, inodeNr, Record(0, 0, 0, 0));
      SyncInode(dev, nrSmap, table[p]);
      RegionsAreApart(nrSmap, disk0, dev.disk);
      PutInode(table, p);
    }

    /** `do_unlink` from the inode map to `put_inode`. */
    method FreeInode(inodeNr: nat, p: nat)
      requires Valid() && p < table.Length && UnlinkOk(State(), inodeNr, p)
      modifies dev`disk, dev.fsbuf, table
      ensures Valid() && SameData(nrSmap, old(dev.disk), dev.disk)
      ensures State() == Freed(old(State()), inodeNr, p)
    {
      GiveInodeBit(inodeNr);
      GiveSectors(table[p].rec.start, table[p].rec.sectors);
      GiveInode(inodeNr, p);
    }

    /** The entry itself. */
    method RemoveName(size: nat, inodeNr: nat) returns (newSize: nat, last: bool)
      requires Valid() && size <= CAPACITY
      requires FindInode(State().dir, 0, size / DIR_ENTRY_SIZE, inodeNr) < size / DIR_ENTRY_SIZE
      modifies dev`disk, dev.fsbuf
      ensures Valid() && SameData(nrSmap, old(dev.disk), dev.disk)
      ensures var fs, nr := old(State()), size / DIR_ENTRY_SIZE;
              var e := FindInode(fs.dir, 0, nr, inodeNr);
              State() == fs.(dir := fs.dir[e := ERASED]) && last == (e + 1 == nr) &&
              (last ==> newSize == DIR_ENTRY_SIZE * LiveBefore(fs.dir, e) <= size)
    {
      ghost var disk0 := dev.disk;
      newSize, last := RemoveEntry(dev, nrSmap, size, inodeNr);
      RegionsAreApart(nrSmap, disk0, dev.disk);
    }

    /** The rest of `do_unlink`. */
    method EraseName(inodeNr: nat)
      requires Valid() && table.Length > ROOT_SLOT && table[ROOT_SLOT].num == ROOT_INODE && Fits(table[ROOT_SLOT].rec)
      requires var size := table[ROOT_SLOT].rec.size;
               size <= CAPACITY && FindInode(State().dir, 0, size / DIR_ENTRY_SIZE, inodeNr) < size / DIR_ENTRY_SIZE
      modifies dev`disk, dev.fsbuf, table
      ensures Valid() && SameData(nrSmap, old(dev.disk), dev.disk)
      ensures State() == Erased(old(State()), inodeNr)
    {
      var size, last := RemoveName(table[ROOT_SLOT].rec.size, inodeNr);
      if last {
        ghost var disk1 := dev.disk;
        SetRootSize(size);
        SameDataJoins(nrSmap, old(dev.disk), disk1, dev.disk);
      }
    }

    method FreeAndErase(inodeNr: nat, p: nat)
      requires Valid() && p < table.Length && UnlinkOk(State(), inodeNr, p)
      requires Fits(table[ROOT_SLOT].rec) && table[ROOT_SLOT].rec.size <= CAPACITY
      modifies dev`disk, dev.fsbuf, table
      ensures Valid() && SameData(nrSmap, old(dev.disk), dev.disk)
      ensures State() == Erased(Freed(old(State()), inodeNr, p), inodeNr)
    {
      FreeInode(inodeNr, p);
      ghost var disk1 := dev.disk;
      EraseName(inodeNr);
      SameDataJoins(nrSmap, old(dev.disk), disk1, dev.disk);
    }

    /** `do_unlink`. */
    method DoUnlink(path: seq<Byte>) returns (r: Outcome)
      requires Valid() && Inv(State()) && NoNul(path)
      modifies dev`disk, dev.fsbuf, table
      ensures Valid() && SameData(nrSmap, old(dev.disk), dev.disk)
      ensures (State(), r) == Unlinked(old(State()), path)
    {
      ghost var fs := State();
      SameDataIs(nrSmap, dev.disk);
      if path == [SLASH] {
        return Returned(-1);
      }
      CacheFacts(fs, 1);
      var inodeNr := Search(path);
      if inodeNr == 0 {
        return Returned(-1);
      }
      RemovesReady(fs, path);
      var filename := StripPath(path);
      if filename.None? {
        return Returned(-1);
      }
      var pin := GetInode(dev, nrSmap, table, inodeNr);
      if table[pin].rec.mode != I_REGULAR {
        return Returned(-1);
      }
      if table[pin].cnt > 1 {
        return Returned(-1);
      }
      FreeAndErase(inodeNr, pin);
      return Returned(0);
    }

    // ---------------------------------------------------------------- do_rdwt

    /** The transfer itself, which changes no metadata. */
    method Move(p: nat, write: bool, pos: nat, len: nat, buf: array<Byte>) returns (n: nat)
      requires Valid() && p < table.Length && buf != dev.fsbuf && len <= buf.Length
      requires var rec, bufSectors := table[p].rec, dev.fsbuf.Length / SECTOR_SIZE;
               rec.start + Touched(pos, EndOf(rec, pos, write, len), bufSectors) <= |dev.disk| &&
               (write ==> rec.start >= FirstSector(nrSmap) + NR_DEFAULT_FILE_SECTS)
      modifies dev`disk, dev.fsbuf, buf
      ensures Valid() && State() == old(State())
      ensures n == Covered(pos, len, EndOf(table[p].rec, pos, write, len), dev.fsbuf.Length / SECTOR_SIZE)
      ensures Transferred(nrSmap, write, old(dev.disk), dev.disk, old(buf[..]), buf[..],
                          table[p].rec.start * SECTOR_SIZE + pos, n)
    {
      var rec := table[p].rec;
      var posEnd := if write then Min(pos + len, rec.sectors * SECTOR_SIZE) else Min(pos + len, rec.size);
      ghost var disk0 := dev.disk;
      n := FileData.Transfer(dev, write, rec.start, pos, len, posEnd, buf);
      if write {
        WriteIsData(nrSmap, disk0, dev.disk, rec.start * SECTOR_SIZE + pos, n, buf[..]);
        RegionsAreApart(nrSmap, disk0, dev.disk);
      }
    }

    /** `sync_inode` of a larger size. */
    method Grow(p: nat, size: nat)
      requires Valid() && p < table.Length && 1 <= table[p].num <= NR_INODES && Fits(table[p].rec) && size < WORD_LIMIT
      modifies dev`disk, dev.fsbuf, table
      ensures Valid() && SameData(nrSmap, old(dev.disk), dev.disk) && State() == Grown(old(State()), p, size)
    {
      ghost var disk0 := dev.disk;
      table[p] := table[p].(rec := table[p].rec.(size := size));
      SyncInode(dev, nrSmap, table[p]);
      RegionsAreApart(nrSmap, disk0, dev.disk);
    }

    /** The end of `do_rdwt`: the new position, and a new size if it is beyond the old one. */
    method SetPosition(i: nat, pin: nat, pos: nat)
      requires Valid() && i < descs.Length && pin < table.Length && pos < WORD_LIMIT
      requires 1 <= table[pin].num <= NR_INODES && Fits(table[pin].rec)
      modifies dev`disk, dev.fsbuf, table, descs
      ensures Valid() && SameData(nrSmap, old(dev.disk), dev.disk)
      ensures State() == Repositioned(old(State()), i, pin, pos)
    {
      descs[i] := descs[i].(pos := pos);
      if descs[i].pos > table[pin].rec.size {
        Grow(pin, descs[i].pos);
      }
    }

    /** `do_rdwt` from the end position on, with descriptor `i` and its inode in slot `pin`;
        `moved` is the disk before the inode is synced, `data` the buffer. */
    method MoveAndAdvance(i: nat, pin: nat, write: bool, len: nat, buf: array<Byte>)
      returns (bytesRw: nat, ghost moved: seq<Sector>, ghost data: seq<Byte>)
      requires Valid() && i < descs.Length && pin < table.Length && buf != dev.fsbuf && len <= buf.Length
      requires 1 <= table[pin].num <= NR_INODES && Fits(table[pin].rec)
      requires var rec, pos, bufSectors := table[pin].rec, descs[i].pos, dev.fsbuf.Length / SECTOR_SIZE;
               rec.size <= CAPACITY && pos <= CAPACITY && rec.sectors == NR_DEFAULT_FILE_SECTS &&
               rec.start + Touched(pos, EndOf(rec, pos, write, len), bufSectors) <= |dev.disk| &&
               (write ==> rec.start >= FirstSector(nrSmap) + NR_DEFAULT_FILE_SECTS)
      modifies dev`disk, dev.fsbuf, buf, table, descs
      ensures Valid() && SameData(nrSmap, moved, dev.disk)
      ensures var rec, pos := old(table[pin].rec), old(descs[i].pos);
              bytesRw == Covered(pos, len, EndOf(rec, pos, write, len), dev.fsbuf.Length / SECTOR_SIZE) &&
              Transferred(nrSmap, write, old(dev.disk), moved, old(buf[..]), data,
                          rec.start * SECTOR_SIZE + pos, bytesRw)
      ensures buf[..] == data && State() == Repositioned(old(State()), i, pin, old(descs[i].pos) + bytesRw)
    {
      EndFits(table[pin].rec, descs[i].pos, write, len, dev.fsbuf.Length / SECTOR_SIZE);
      bytesRw := Move(pin, write, descs[i].pos, len, buf);
      moved, data := dev.disk, buf[..];
      SetPosition(i, pin, descs[i].pos + bytesRw);
    }

    /** `do_rdwt`, for a file or the root directory: what the handle's position and the inode's size
        become, and which bytes are moved.  Exactly these change on the disk. */
    method DoRdwt(proc: nat, fd: nat, write: bool, len: nat, buf: array<Byte>) returns (r: Outcome)
      requires Valid() && TransferOk(State(), proc, fd, write) && buf != dev.fsbuf && len <= buf.Length
      requires Reachable(State(), proc, fd, write, len, |dev.disk|)
      modifies dev`disk, dev.fsbuf, buf, table, descs
      ensures Valid() && (State(), r) == Advanced(old(State()), proc, fd, write, len)
      ensures var fs := old(State());
              if !ModeOf(fs, proc, fd).Rdwr() then dev.disk == old(dev.disk) && buf[..] == old(buf[..])
              else Transferred(nrSmap, write, old(dev.disk), dev.disk, old(buf[..]), buf[..],
                               FirstByte(fs, proc, fd), BytesMoved(fs, proc, fd, write, len))
    {
      var i := filp[proc][fd];
      if !descs[i].mode.Rdwr() {
        return Returned(-1);
      }
      ghost var a := FirstByte(State(), proc, fd);
      var bytesRw; ghost var moved, data;
      bytesRw, moved, data := MoveAndAdvance(i, descs[i].inode, write, len, buf);
      MovedThenSame(nrSmap, write, old(dev.disk), moved, dev.disk, old(buf[..]), data, a, bytesRw);
      return Returned(bytesRw);
    }

    // ---------------------------------------------------------------- task_fs

    /** The requests that move no data. */
    method ServeOther(request: Request) returns (r: Outcome)
      requires Valid() && Inv(State()) && Defined(State(), request) && !request.Rdwt?
      modifies this`filp, dev`disk, dev.fsbuf, table, descs
      ensures Valid() && (State(), r) == Next(old(State()), request)
      ensures SameData(nrSmap, old(dev.disk), dev.disk)
    {
      match request {
        case Open(proc, path, flags) =>
          r := DoOpen(proc, path, flags);
        case Close(proc, fd) =>
          HandleIsMentioned(State(), proc, fd);
          r := DoClose(proc, fd);
          SameDataIs(nrSmap, dev.disk);
        case Unlink(path) =>
          r := DoUnlink(path);
      }
    }

    /** READ and WRITE. */
    method ServeRdwt(request: Request, buf: array<Byte>) returns (r: Outcome)
      requires Valid() && Inv(State()) && Defined(State(), request) && request.Rdwt?
      requires buf != dev.fsbuf && request.len <= buf.Length
      requires (HandleIsMentioned(State(), request.proc, request.fd);
                Reachable(State(), request.proc, request.fd, request.write, request.len, |dev.disk|))
      modifies dev`disk, dev.fsbuf, buf, table, descs
      ensures Valid() && (State(), r) == Next(old(State()), request)
      ensures DiskStep(old(State()), request, old(buf[..]), old(dev.disk), dev.disk)
      ensures Answered(old(State()), request, old(dev.disk), old(buf[..]), buf[..])
    {
      TransferIsOk(State(), request.proc, request.fd, request.write, request.len);
      r := DoRdwt(request.proc, request.fd, request.write, request.len, buf);
    }

    /** The switch in the loop of `task_fs`: each request does what `Next` says to the state, what
        `DiskStep` says to the disk, and what `Answered` says to the caller's buffer. */
    method Serve(request: Request, buf: array<Byte>) returns (r: Outcome)
      requires Valid() && Inv(State()) && Defined(State(), request) && buf != dev.fsbuf
      requires request.Rdwt? ==> request.len <= buf.Length
      requires request.Rdwt? ==>
        (HandleIsMentioned(State(), request.proc, request.fd);
         Reachable(State(), request.proc, request.fd, request.write, request.len, |dev.disk|))
      modifies this`filp, dev`disk, dev.fsbuf, buf, table, descs
      ensures Valid() && (State(), r) == Next(old(State()), request)
      ensures DiskStep(old(State()), request, old(buf[..]), old(dev.disk), dev.disk)
      ensures Answered(old(State()), request, old(dev.disk), old(buf[..]), buf[..])
    {
      if request.Rdwt? {
        r := ServeRdwt(request, buf);
      } else {
        ghost var fs, disk0, data := State(), dev.disk, buf[..];
        r := ServeOther(request);
        assert buf[..] == data;
        NothingMoved(fs, request, disk0, dev.disk, data);
      }
    }

    /** One turn, in a run that has come to request `i`. */
    method Turn(request: Request, buf: array<Byte>, ghost fs0: Fs, ghost requests: seq<Request>, ghost i: nat,
                ghost outs: seq<Outcome>, ghost datas: seq<seq<Byte>>, ghost answers: seq<seq<Byte>>,
                ghost disks: seq<seq<Sector>>)
      returns (out: Outcome, ghost data: seq<Byte>, ghost answer: seq<Byte>)
      requires Valid() && UpTo(fs0, requests, i, State(), outs, datas, answers, disks)
      requires i < |requests| && request == requests[i] && disks[i] == dev.disk && Roomy(nrSmap, |dev.disk|)
      requires buf != dev.fsbuf && (request.Rdwt? ==> request.len <= buf.Length)
      modifies this`filp, dev`disk, dev.fsbuf, buf, table, descs
      ensures Valid() && |dev.disk| == old(|dev.disk|)
      ensures UpTo(fs0, requests, i + 1, State(), outs + [out], datas + [data], answers + [answer], disks + [dev.disk])
    {
      ghost var fs, disk := State(), dev.disk;
      data := buf[..];
      NextOfRun(fs, requests, i);
      if request.Rdwt? {
        TransfersFit(fs, request.proc, request.fd, request.write, request.len, |disk|);
      }
      out := Serve(request, buf);
      answer := buf[..];
      OneFurther(fs0, requests, i, fs, outs, datas, answers, disks, out, data, answer, dev.disk);
    }

    /** Turns of the loop of `task_fs`, one for each request of a run, with the callers' buffers. */
    method ServeRun(requests: seq<Request>, bufs: seq<array<Byte>>)
      returns (outs: seq<Outcome>, ghost datas: seq<seq<Byte>>, ghost answers: seq<seq<Byte>>,
               ghost disks: seq<seq<Sector>>)
      requires Valid() && Inv(State()) && IsRun(State(), requests) && Compact(State()) && Roomy(nrSmap, |dev.disk|)
      requires |bufs| == |requests| && forall i :: 0 <= i < |bufs| ==> bufs[i] != dev.fsbuf
      requires forall i :: 0 <= i < |bufs| && requests[i].Rdwt? ==> requests[i].len <= bufs[i].Length
      modifies this`filp, dev`disk, dev.fsbuf, table, descs, set b | b in bufs
      ensures Valid() && State() == After(old(State()), requests)
      ensures Served(old(State()), requests, outs, datas, answers, disks)
      ensures OnDisks(old(State()), requests, datas, disks)
      ensures disks[0] == old(dev.disk) && disks[|requests|] == dev.disk
    {
      ghost var fs0 := State();
      outs, datas, answers, disks := [], [], [], [dev.disk];
      AtStart(fs0, requests, dev.disk);
      var i := 0;
      while i < |requests|
        invariant Valid() && |dev.disk| == old(|dev.disk|) && i <= |requests|
        invariant UpTo(fs0, requests, i, State(), outs, datas, answers, disks)
        invariant |disks| == i + 1 && disks[0] == old(dev.disk) && disks[i] == dev.disk
      {
        var out; ghost var data, answer;
        out, data, answer := Turn(requests[i], bufs[i], fs0, requests, i, outs, datas, answers, disks);
        outs := outs + [out];
        datas, answers, disks := datas + [data], answers + [answer], disks + [dev.disk];
        i := i + 1;
      }
      AtEnd(fs0, requests, State(), outs, datas, answers, disks);
      ServedOnDisks(fs0, requests, outs, datas, answers, disks);
    }
  }
}
