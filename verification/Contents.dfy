/** Over runs of requests: a file's bytes are those last written to it, and its record changes only by writing to it. */
module Contents {
  import opened Device
  import opened Volume
  import opened FileData
  import opened Records
  import opened InodeCache
  import opened SuperBlock
  import opened Directory
  import opened Names
  import opened Extents
  import opened Files
  import opened Requests
  import opened Format

  // ---------------------------------------------------------------- records over one request

  /** The request writes to the file with inode `n`. */
  ghost predicate WritesTo(fs: Fs, r: Request, n: nat)
    requires Inv(fs) && Defined(fs, r)
  {
    r.Rdwt? && r.write &&
    (HandleIsMentioned(fs, r.proc, r.fd);
     ModeOf(fs, r.proc, r.fd).Rdwr() && fs.table[SlotBehind(fs, r.proc, r.fd)].num == n)
  }

  /** The request removes the file with inode `n`. */
  ghost predicate RemovesInode(fs: Fs, r: Request, n: nat)
    requires Inv(fs)
  {
    r.Unlink? && Removes(fs, r.path) && (FoundIsCached(fs, r.path); Found(fs, r.path) == n)
  }

  /** Record `b` is record `a`, except that a write may have made the file larger. */
  predicate SameButSize(a: Record, b: Record) {
    b == a.(size := b.size) && a.size <= b.size
  }

  lemma NumsAfterCreate(m: map<Name, nat>, name: Name, num: nat)
    requires name !in m && num >= RESERVED_INODES
    ensures m[name := num].Values - {1, 2, 3, 4} == m.Values - {1, 2, 3, 4} + {num}
  {
    var m1 := m[name := num];
    forall v | v in m.Values ensures v in m1.Values {
      var k :| k in m && m[k] == v;
      assert k in m1 && m1[k] == v;
    }
    assert name in m1 && m1[name] == num;
  }

  lemma NumsAfterUnlink(m: map<Name, nat>, name: Name)
    requires name in m && forall k :: k in m && m[k] == m[name] ==> k == name
    ensures (m - {name}).Values - {1, 2, 3, 4} == m.Values - {1, 2, 3, 4} - {m[name]}
  {
    var m1 := m - {name};
    forall v | v in m.Values && v != m[name] ensures v in m1.Values {
      var k :| k in m && m[k] == v;
      assert k in m1 && m1[k] == v;
    }
    forall v | v in m1.Values ensures v in m.Values && v != m[name] {
      var k :| k in m1 && m1[k] == v;
      assert k in m && m[k] == v;
    }
  }

  lemma OpenedNums(fs: Fs, proc: nat, path: seq<Byte>, flags: Flags)
    requires Inv(fs) && Legal(fs, Open(proc, path, flags))
    ensures (OpenKeeps(fs, proc, path, flags);
             FileNums(Opened(fs, proc, path, flags).0) ==
             if Creates(fs, path, flags) && Opened(fs, proc, path, flags).1 != Stopped
             then FileNums(fs) + {FirstClear(fs.inodeMap, 0)} else FileNums(fs))
  {
    OpenKeeps(fs, proc, path, flags);
    if Creates(fs, path, flags) {
      InodeIsFree(fs);
      FoundIsLookup(fs, path);
      NumsAfterCreate(NameMap(fs), Stripped(path).value, FirstClear(fs.inodeMap, 0));
    }
  }

  lemma CreatedRecords(fs: Fs, name: Name, n: nat)
    requires Inv(fs) && CanCreate(fs, name) && n in FileNums(fs)
    ensures CreateOk(fs, name)
    ensures var fs1 := Entered(Allocated(fs), FirstClear(fs.inodeMap, 0), name);
            1 <= n <= |fs.inodes| == |fs1.inodes| && fs1.inodes[n - 1] == fs.inodes[n - 1]
  {
    assert IsFile(fs.nrSmap, fs.inodes, n);
    InodeIsFree(fs);
    CreatedParts(fs, name);
  }

  lemma OpenedInodeRecords(fs: Fs, path: seq<Byte>, flags: Flags, n: nat)
    requires Inv(fs) && n in FileNums(fs)
    requires Creates(fs, path, flags) ==> CanCreate(fs, Stripped(path).value)
    ensures var fs1 := OpenedInode(fs, path, flags).0;
            1 <= n <= |fs.inodes| == |fs1.inodes| && fs1.inodes[n - 1] == fs.inodes[n - 1]
  {
    assert IsFile(fs.nrSmap, fs.inodes, n);
    FoundIsCached(fs, path);
    var num := Found(fs, path);
    if !HasSlash(path) && !(flags.create <==> num != 0) {
      if flags.create {
        CreatedRecords(fs, Stripped(path).value, n);
      } else {
        GetKeeps(fs, num);
      }
    }
  }

  lemma OpenedRecords(fs: Fs, proc: nat, path: seq<Byte>, flags: Flags, n: nat)
    requires Inv(fs) && Legal(fs, Open(proc, path, flags)) && n in FileNums(fs)
    ensures var fs1 := Opened(fs, proc, path, flags).0;
            1 <= n <= |fs.inodes| == |fs1.inodes| && fs1.inodes[n - 1] == fs.inodes[n - 1]
  {
    OpenedInodeRecords(fs, path, flags, n);
  }

  lemma RdwtRecords(fs: Fs, proc: nat, fd: nat, write: bool, len: nat, n: nat)
    requires Inv(fs) && Legal(fs, Rdwt(proc, fd, write, len)) && n in FileNums(fs)
    ensures var r := Rdwt(proc, fd, write, len);
            var fs1 := Next(fs, r).0;
            fs1.dir == fs.dir && 1 <= n <= |fs.inodes| == |fs1.inodes| &&
            SameButSize(fs.inodes[n - 1], fs1.inodes[n - 1]) &&
            (!WritesTo(fs, r, n) ==> fs1.inodes[n - 1] == fs.inodes[n - 1])
  {
    LegalMoves(fs, proc, fd, write, len);
    HandleIsMentioned(fs, proc, fd);
    assert IsFile(fs.nrSmap, fs.inodes, n);
  }

  lemma UnlinkedNums(fs: Fs, path: seq<Byte>)
    requires Inv(fs) && Legal(fs, Unlink(path))
    ensures (UnlinkRequestKeeps(fs, path); FoundIsCached(fs, path);
             FileNums(Unlinked(fs, path).0) ==
             if Removes(fs, path) then FileNums(fs) - {Found(fs, path)} else FileNums(fs))
  {
    UnlinkRequestKeeps(fs, path);
    FoundIsLookup(fs, path);
    if Removes(fs, path) {
      var m, name := NameMap(fs), Stripped(path).value;
      forall k | k in m && m[k] == m[name] ensures k == name {
        MapIsInjective(fs.dir, NrEntries(fs), k, name);
      }
      NumsAfterUnlink(m, name);
    }
  }

  lemma UnlinkedRecords(fs: Fs, path: seq<Byte>, n: nat)
    requires Inv(fs) && Legal(fs, Unlink(path)) && n in FileNums(fs)
    ensures var fs1 := Unlinked(fs, path).0;
            1 <= n <= |fs.inodes| == |fs1.inodes| &&
            (!RemovesInode(fs, Unlink(path), n) ==> fs1.inodes[n - 1] == fs.inodes[n - 1])
  {
    assert IsFile(fs.nrSmap, fs.inodes, n);
    FoundIsCached(fs, path);
    var num := Found(fs, path);
    if path != [SLASH] && num != 0 {
      GetKeeps(fs, num);
      RemovesReady(fs, path);
    }
  }

  /** A file's record: no request changes its mode, its place on the disk or its capacity, only a
      write to the file changes its size, and only an unlink of the file takes it away. */
  lemma RecordFrame(fs: Fs, r: Request, n: nat)
    requires Inv(fs) && Legal(fs, r) && n in FileNums(fs)
    ensures var fs1 := Next(fs, r).0;
            (RequestKeeps(fs, r); n in FileNums(fs1) <==> !RemovesInode(fs, r, n)) &&
            1 <= n <= |fs.inodes| == |fs1.inodes| &&
            (!RemovesInode(fs, r, n) ==>
              SameButSize(fs.inodes[n - 1], fs1.inodes[n - 1]) &&
              (!WritesTo(fs, r, n) ==> fs1.inodes[n - 1] == fs.inodes[n - 1]))
  {
    RequestKeeps(fs, r);
    match r
    case Open(proc, path, flags) =>
      OpenedNums(fs, proc, path, flags);
      OpenedRecords(fs, proc, path, flags, n);
    case Close(proc, fd) =>
      assert IsFile(fs.nrSmap, fs.inodes, n);
    case Rdwt(proc, fd, write, len) =>
      RdwtKeeps(fs, proc, fd, write, len);
      RdwtRecords(fs, proc, fd, write, len, n);
    case Unlink(path) =>
      UnlinkedNums(fs, path);
      UnlinkedRecords(fs, path, n);
  }

  // ---------------------------------------------------------------- where the files lie

  /** ENTRIES_PER_SECTOR - 4. */
  const MAX_FILES := 28

  lemma FilesAreFew(fs: Fs)
    requires DiskOk(fs)
    ensures |FileNums(fs)| + 4 <= NrEntries(fs)
  {
    var nr := NrEntries(fs);
    var m := AsMap(fs.dir, nr);
    FewValues(fs.dir, nr);
    TidyEntryInMap(fs.dir, nr, 0);
    TidyEntryInMap(fs.dir, nr, 1);
    TidyEntryInMap(fs.dir, nr, 2);
    TidyEntryInMap(fs.dir, nr, 3);
    SubsetSize(FileNums(fs) + {1, 2, 3, 4}, m.Values);
  }

  /** First fit keeps all extents at the front of the volume. */
  ghost predicate Compact(fs: Fs)
    requires DiskOk(fs)
  {
    forall n :: n in FileNums(fs) ==> SlotAt(fs.nrSmap, fs.inodes, n) <= MAX_FILES
  }

  /** Room for 31 extents: as many files as the directory can name, the root directory, and the
      sectors behind the last extent that a transfer may touch. */
  predicate Roomy(nrSmap: nat, sectors: nat) {
    FirstSector(nrSmap) + 31 * NR_DEFAULT_FILE_SECTS <= sectors
  }

  lemma {:induction false} FrontSlots(used: set<nat>, t: nat)
    requires forall s: nat :: s < t ==> s in used
    ensures t <= |used|
  {
    SubsetSize(UpTo(t), used);
  }

  /** The slot that a new file gets. */
  lemma NewSlotIsLow(fs: Fs, name: Name)
    requires Inv(fs) && CanCreate(fs, name) && name !in NameMap(fs)
    ensures CreateOk(fs, name)
    ensures var num := FirstClear(fs.inodeMap, 0);
            var fs1 := Entered(Allocated(fs), num, name);
            SlotAt(fs1.nrSmap, fs1.inodes, num) <= MAX_FILES
  {
    var num := FirstClear(fs.inodeMap, 0);
    var used := UsedSlots(fs.nrSmap, fs.inodes, FileNums(fs));
    CreateKeepsDisk(fs, name);
    CreatedParts(fs, name);
    InodeIsFree(fs);
    FilesAreFew(Entered(Allocated(fs), num, name));
    UsedSlotsCount(fs.nrSmap, fs.inodes, FileNums(fs));
    FirstFit(fs.sectorMap, used);
    FrontSlots(used, SlotOfBit(FirstClear(fs.sectorMap, 0)));
  }

  /** A file that was not there before the request was created by it. */
  lemma NewFiles(fs: Fs, r: Request, n: nat)
    requires Inv(fs) && Legal(fs, r)
    requires (RequestKeeps(fs, r); n in FileNums(Next(fs, r).0)) && n !in FileNums(fs)
    ensures r.Open? && Creates(fs, r.path, r.flags) && n == FirstClear(fs.inodeMap, 0) && Next(fs, r).1 != Stopped
  {
    match r
    case Open(proc, path, flags) => OpenedNums(fs, proc, path, flags);
    case Close(proc, fd) => CloseKeeps(fs, proc, fd);
    case Rdwt(proc, fd, write, len) => RdwtKeeps(fs, proc, fd, write, len);
    case Unlink(path) => UnlinkedNums(fs, path);
  }

  lemma SameVolume(fs: Fs, r: Request)
    requires Inv(fs) && Defined(fs, r)
    ensures Next(fs, r).0.nrSmap == fs.nrSmap && Next(fs, r).0.bufSectors == fs.bufSectors
  {
  }

  lemma NewFileIsLow(fs: Fs, proc: nat, path: seq<Byte>, flags: Flags)
    requires Inv(fs) && Legal(fs, Open(proc, path, flags)) && Creates(fs, path, flags)
    requires Opened(fs, proc, path, flags).1 != Stopped
    ensures var fs1 := Opened(fs, proc, path, flags).0;
            SlotAt(fs1.nrSmap, fs1.inodes, FirstClear(fs.inodeMap, 0)) <= MAX_FILES
  {
    FoundIsLookup(fs, path);
    NewSlotIsLow(fs, Stripped(path).value);
  }

  lemma CompactKeeps(fs: Fs, r: Request)
    requires Inv(fs) && Legal(fs, r) && Compact(fs)
    ensures (RequestKeeps(fs, r); Compact(Next(fs, r).0))
  {
    var fs1 := Next(fs, r).0;
    RequestKeeps(fs, r);
    SameVolume(fs, r);
    forall n | n in FileNums(fs1) ensures SlotAt(fs1.nrSmap, fs1.inodes, n) <= MAX_FILES {
      if n in FileNums(fs) {
        RecordFrame(fs, r, n);
      } else {
        NewFiles(fs, r, n);
        NewFileIsLow(fs, r.proc, r.path, r.flags);
      }
    }
  }

  lemma FreshIsCompact(fs: Fs)
    requires Fresh(fs)
    ensures Inv(fs) && Compact(fs)
  {
    FreshIsGood(fs);
    FreshDirIsTidy(fs);
  }

  lemma {:induction false} CompactAfter(fs: Fs, rs: seq<Request>)
    requires Inv(fs) && IsRun(fs, rs) && Compact(fs)
    ensures Compact(After(fs, rs)) && After(fs, rs).nrSmap == fs.nrSmap
    decreases |rs|
  {
    if rs != [] {
      RequestKeeps(fs, rs[0]);
      CompactKeeps(fs, rs[0]);
      SameVolume(fs, rs[0]);
      CompactAfter(Next(fs, rs[0]).0, rs[1..]);
    }
  }

  /** Some run leads from the empty file system `empty` to `fs`. */
  ghost predicate Arises(empty: Fs, rs: seq<Request>, fs: Fs) {
    Inv(fs) && Fresh(empty) && (FreshIsGood(empty); IsRun(empty, rs) && After(empty, rs) == fs)
  }

  /** So all extents are at the front of the volume in every state that a run leads to. */
  lemma ArisesCompact(empty: Fs, rs: seq<Request>, fs: Fs)
    requires Arises(empty, rs, fs)
    ensures Compact(fs)
  {
    FreshIsCompact(empty);
    CompactAfter(empty, rs);
  }

  /** So the extents of all files lie on the disk. */
  lemma FilesFit(fs: Fs, sectors: nat, n: nat)
    requires DiskOk(fs) && Compact(fs) && Roomy(fs.nrSmap, sectors) && n in FileNums(fs)
    ensures 1 <= n <= |fs.inodes| && fs.inodes[n - 1].sectors == NR_DEFAULT_FILE_SECTS
    ensures fs.inodes[n - 1].start >= FirstSector(fs.nrSmap) + NR_DEFAULT_FILE_SECTS
    ensures fs.inodes[n - 1].start + fs.inodes[n - 1].sectors <= sectors
  {
  }

  /** The sectors that a transfer goes over, which may be more than those of the extent, exist. */
  predicate Reachable(fs: Fs, proc: nat, fd: nat, write: bool, len: nat, sectors: nat)
    requires Mentioned(fs, proc, fd) && fs.bufSectors > 0
  {
    var rec, pos := fs.table[SlotBehind(fs, proc, fd)].rec, PosOf(fs, proc, fd);
    rec.start + Touched(pos, EndOf(rec, pos, write, len), fs.bufSectors) <= sectors
  }

  lemma TransfersFit(fs: Fs, proc: nat, fd: nat, write: bool, len: nat, sectors: nat)
    requires Inv(fs) && Defined(fs, Rdwt(proc, fd, write, len)) && Compact(fs) && Roomy(fs.nrSmap, sectors)
    ensures Mentioned(fs, proc, fd) && Reachable(fs, proc, fd, write, len, sectors)
  {
    HandleIsMentioned(fs, proc, fd);
    var s := fs.table[SlotBehind(fs, proc, fd)];
    var pos := PosOf(fs, proc, fd);
    if s.num in FileNums(fs) {
      FilesFit(fs, sectors, s.num);
      assert IsFile(fs.nrSmap, fs.inodes, s.num);
    }
    assert EndOf(s.rec, pos, write, len) <= CAPACITY;
  }

  // ---------------------------------------------------------------- one request on the disk

  /** No sector behind the root directory's extent, where the files are, has changed, and neither
      has what is no part of the state: the boot sector, the super block and the spare bytes of
      the inode records. */
  ghost predicate SameData(nrSmap: nat, disk0: seq<Sector>, disk: seq<Sector>) {
    SameRest(nrSmap, disk0, disk) &&
    forall k :: FirstSector(nrSmap) + NR_DEFAULT_FILE_SECTS <= k < |disk| ==> disk[k] == disk0[k]
  }

  ghost predicate SameRest(nrSmap: nat, disk0: seq<Sector>, disk: seq<Sector>) {
    SameSpare(nrSmap, disk0, disk) && forall k :: 0 <= k < IMAP_SECTOR && k < |disk| ==> disk[k] == disk0[k]
  }

  /** Among the sectors of the files, exactly the `n` bytes from `a` were replaced by `data`. */
  ghost predicate DataWritten(nrSmap: nat, disk0: seq<Sector>, disk: seq<Sector>, a: nat, n: nat, data: seq<Byte>) {
    SameRest(nrSmap, disk0, disk) && n <= |data| &&
    forall x: nat :: FirstSector(nrSmap) + NR_DEFAULT_FILE_SECTS <= x / SECTOR_SIZE < |disk| ==>
      ByteAt(disk, x) == if a <= x < a + n then data[x - a] else ByteAt(disk0, x)
  }

  /** Where on the disk a transfer starts, in bytes. */
  function FirstByte(fs: Fs, proc: nat, fd: nat): nat
    requires Mentioned(fs, proc, fd)
  {
    fs.table[SlotBehind(fs, proc, fd)].rec.start * SECTOR_SIZE + PosOf(fs, proc, fd)
  }

  /** What a request does to the sectors of the files; `data` is the caller's buffer. */
  ghost predicate DiskStep(fs: Fs, r: Request, data: seq<Byte>, disk0: seq<Sector>, disk: seq<Sector>)
    requires Inv(fs) && Defined(fs, r)
  {
    if r.Rdwt? && r.write && (HandleIsMentioned(fs, r.proc, r.fd); ModeOf(fs, r.proc, r.fd).Rdwr()) then
      DataWritten(fs.nrSmap, disk0, disk, FirstByte(fs, r.proc, r.fd), BytesMoved(fs, r.proc, r.fd, true, r.len), data)
    else SameData(fs.nrSmap, disk0, disk)
  }

  /** All bytes that the file with inode `n` has room for. */
  ghost function Contents(fs: Fs, disk: seq<Sector>, n: nat): seq<Byte> {
    if 1 <= n <= |fs.inodes| && fs.inodes[n - 1].start + fs.inodes[n - 1].sectors <= |disk|
    then Extent(disk, fs.inodes[n - 1].start, fs.inodes[n - 1].sectors) else []
  }

  /** `was` with the bytes from `pos` on replaced. */
  function Spliced(was: seq<Byte>, pos: nat, data: seq<Byte>): seq<Byte> {
    if pos + |data| <= |was| then was[..pos] + data + was[pos + |data|..] else was
  }

  /** What a file holds after a request, if it held `was` before. */
  ghost function Written(fs: Fs, r: Request, data: seq<Byte>, n: nat, was: seq<Byte>): seq<Byte>
    requires Inv(fs) && Defined(fs, r)
  {
    if WritesTo(fs, r, n) && r.len <= |data| then
      HandleIsMentioned(fs, r.proc, r.fd);
      Spliced(was, PosOf(fs, r.proc, r.fd), data[..r.len])
    else was
  }

  /** Bytes outside what was written are the same. */
  lemma ExtentKept(nrSmap: nat, disk0: seq<Sector>, disk: seq<Sector>, start: nat, a: nat, n: nat, data: seq<Byte>)
    requires DataWritten(nrSmap, disk0, disk, a, n, data)
    requires FirstSector(nrSmap) + NR_DEFAULT_FILE_SECTS <= start && start + NR_DEFAULT_FILE_SECTS <= |disk|
    requires a + n <= start * SECTOR_SIZE || (start + NR_DEFAULT_FILE_SECTS) * SECTOR_SIZE <= a
    ensures Extent(disk, start, NR_DEFAULT_FILE_SECTS) == Extent(disk0, start, NR_DEFAULT_FILE_SECTS)
  {
    var e0, e1 := Extent(disk0, start, NR_DEFAULT_FILE_SECTS), Extent(disk, start, NR_DEFAULT_FILE_SECTS);
    forall x | 0 <= x < |e1| ensures e1[x] == e0[x] {
      assert e1[x] == ByteAt(disk, start * SECTOR_SIZE + x);
    }
  }

  lemma ExtentSpliced(nrSmap: nat, disk0: seq<Sector>, disk: seq<Sector>, start: nat, pos: nat, n: nat, data: seq<Byte>)
    requires DataWritten(nrSmap, disk0, disk, start * SECTOR_SIZE + pos, n, data) && pos + n <= CAPACITY
    requires FirstSector(nrSmap) + NR_DEFAULT_FILE_SECTS <= start && start + NR_DEFAULT_FILE_SECTS <= |disk|
    ensures Extent(disk, start, NR_DEFAULT_FILE_SECTS) ==
            Spliced(Extent(disk0, start, NR_DEFAULT_FILE_SECTS), pos, data[..n])
  {
    var e0, e1 := Extent(disk0, start, NR_DEFAULT_FILE_SECTS), Extent(disk, start, NR_DEFAULT_FILE_SECTS);
    var s := Spliced(e0, pos, data[..n]);
    forall x | 0 <= x < |e1| ensures e1[x] == s[x] {
      assert e1[x] == ByteAt(disk, start * SECTOR_SIZE + x);
    }
  }

  lemma ExtentSame(nrSmap: nat, disk0: seq<Sector>, disk: seq<Sector>, start: nat)
    requires SameData(nrSmap, disk0, disk)
    requires FirstSector(nrSmap) + NR_DEFAULT_FILE_SECTS <= start && start + NR_DEFAULT_FILE_SECTS <= |disk|
    ensures Extent(disk, start, NR_DEFAULT_FILE_SECTS) == Extent(disk0, start, NR_DEFAULT_FILE_SECTS)
  {
    var e0, e1 := Extent(disk0, start, NR_DEFAULT_FILE_SECTS), Extent(disk, start, NR_DEFAULT_FILE_SECTS);
    forall x | 0 <= x < |e1| ensures e1[x] == e0[x] {
      assert e1[x] == ByteAt(disk, start * SECTOR_SIZE + x) && e0[x] == ByteAt(disk0, start * SECTOR_SIZE + x);
      var k := (start * SECTOR_SIZE + x) / SECTOR_SIZE;
      assert disk[k] == disk0[k];
    }
  }

  /** A write to one file, seen by another. */
  lemma WriteElsewhere(fs: Fs, num: nat, pos: nat, len: nat, data: seq<Byte>,
                       disk0: seq<Sector>, disk: seq<Sector>, n: nat)
    requires DiskOk(fs) && Compact(fs) && Roomy(fs.nrSmap, |disk0|) && n in FileNums(fs) && num in FileNums(fs)
    requires 1 <= num <= |fs.inodes| && num != n && pos + len <= CAPACITY
    requires DataWritten(fs.nrSmap, disk0, disk, fs.inodes[num - 1].start * SECTOR_SIZE + pos, len, data)
    ensures Contents(fs, disk, n) == Contents(fs, disk0, n)
  {
    FilesFit(fs, |disk0|, n);
    FilesFit(fs, |disk0|, num);
    ExtentsAreApart(fs, num, n);
    ExtentKept(fs.nrSmap, disk0, disk, fs.inodes[n - 1].start, fs.inodes[num - 1].start * SECTOR_SIZE + pos, len, data);
  }

  /** A write to a file, seen by itself. */
  lemma WriteHere(fs: Fs, n: nat, pos: nat, len: nat, data: seq<Byte>, disk0: seq<Sector>, disk: seq<Sector>)
    requires DiskOk(fs) && Compact(fs) && Roomy(fs.nrSmap, |disk0|) && n in FileNums(fs)
    requires 1 <= n <= |fs.inodes| && pos + len <= CAPACITY
    requires DataWritten(fs.nrSmap, disk0, disk, fs.inodes[n - 1].start * SECTOR_SIZE + pos, len, data)
    ensures Contents(fs, disk, n) == Spliced(Contents(fs, disk0, n), pos, data[..len])
  {
    FilesFit(fs, |disk0|, n);
    ExtentSpliced(fs.nrSmap, disk0, disk, fs.inodes[n - 1].start, pos, len, data);
  }

  /** A write through a handle, seen by any file. */
  lemma WriteSeen(fs: Fs, num: nat, pos: nat, len: nat, data: seq<Byte>, disk0: seq<Sector>, disk: seq<Sector>, n: nat)
    requires DiskOk(fs) && Compact(fs) && Roomy(fs.nrSmap, |disk0|) && n in FileNums(fs) && num in FileNums(fs)
    requires 1 <= num <= |fs.inodes| && pos + len <= CAPACITY
    requires DataWritten(fs.nrSmap, disk0, disk, fs.inodes[num - 1].start * SECTOR_SIZE + pos, len, data)
    ensures Contents(fs, disk, n) ==
            if num == n then Spliced(Contents(fs, disk0, n), pos, data[..len]) else Contents(fs, disk0, n)
  {
    if num == n {
      WriteHere(fs, n, pos, len, data, disk0, disk);
    } else {
      WriteElsewhere(fs, num, pos, len, data, disk0, disk, n);
    }
  }

  /** Where a legal write goes. */
  lemma LegalWrite(fs: Fs, r: Request, data: seq<Byte>, disk0: seq<Sector>, disk: seq<Sector>)
    requires Inv(fs) && Legal(fs, r) && DiskStep(fs, r, data, disk0, disk) && r.Rdwt? && r.write
    requires Mentioned(fs, r.proc, r.fd) && ModeOf(fs, r.proc, r.fd).Rdwr()
    ensures var num, pos := fs.table[SlotBehind(fs, r.proc, r.fd)].num, PosOf(fs, r.proc, r.fd);
            num in FileNums(fs) && 1 <= num <= |fs.inodes| && pos + r.len <= CAPACITY && r.len <= |data| &&
            DataWritten(fs.nrSmap, disk0, disk, fs.inodes[num - 1].start * SECTOR_SIZE + pos, r.len, data)
  {
    LegalMoves(fs, r.proc, r.fd, true, r.len);
    HandleIsMentioned(fs, r.proc, r.fd);
  }

  lemma LegalWriteSeen(fs: Fs, r: Request, data: seq<Byte>, disk0: seq<Sector>, disk: seq<Sector>, n: nat)
    requires Inv(fs) && Legal(fs, r) && DiskStep(fs, r, data, disk0, disk) && r.Rdwt? && r.write
    requires Mentioned(fs, r.proc, r.fd) && ModeOf(fs, r.proc, r.fd).Rdwr()
    requires Compact(fs) && Roomy(fs.nrSmap, |disk0|) && n in FileNums(fs)
    ensures |disk| == |disk0| && Contents(fs, disk, n) == Written(fs, r, data, n, Contents(fs, disk0, n))
  {
    LegalWrite(fs, r, data, disk0, disk);
    var num := fs.table[SlotBehind(fs, r.proc, r.fd)].num;
    WriteSeen(fs, num, PosOf(fs, r.proc, r.fd), r.len, data, disk0, disk, n);
  }

  /** What every file holds after one request, in the records of before. */
  lemma DiskStepSeen(fs: Fs, r: Request, data: seq<Byte>, disk0: seq<Sector>, disk: seq<Sector>, n: nat)
    requires Inv(fs) && Legal(fs, r) && Compact(fs) && Roomy(fs.nrSmap, |disk0|) && n in FileNums(fs)
    requires DiskStep(fs, r, data, disk0, disk)
    ensures |disk| == |disk0| && Contents(fs, disk, n) == Written(fs, r, data, n, Contents(fs, disk0, n))
  {
    if r.Rdwt? && r.write && (HandleIsMentioned(fs, r.proc, r.fd); ModeOf(fs, r.proc, r.fd).Rdwr()) {
      HandleIsMentioned(fs, r.proc, r.fd);
      LegalWriteSeen(fs, r, data, disk0, disk, n);
    } else {
      FilesFit(fs, |disk0|, n);
      ExtentSame(fs.nrSmap, disk0, disk, fs.inodes[n - 1].start);
    }
  }

  /** What every file holds after one request: what it held before, unless the request writes to
      it; then the bytes written replace those at the position of the handle. */
  lemma ContentsStep(fs: Fs, r: Request, data: seq<Byte>, disk0: seq<Sector>, disk: seq<Sector>, n: nat)
    requires Inv(fs) && Legal(fs, r) && Compact(fs) && Roomy(fs.nrSmap, |disk0|) && n in FileNums(fs)
    requires DiskStep(fs, r, data, disk0, disk) && !RemovesInode(fs, r, n)
    ensures |disk| == |disk0| && Contents(Next(fs, r).0, disk, n) == Written(fs, r, data, n, Contents(fs, disk0, n))
  {
    DiskStepSeen(fs, r, data, disk0, disk, n);
    RecordFrame(fs, r, n);
  }

  /** A read leaves in the caller's buffer what was on the disk; nothing else changes the buffer. */
  ghost predicate Answered(fs: Fs, r: Request, disk: seq<Sector>, buf0: seq<Byte>, buf: seq<Byte>)
    requires Inv(fs) && Defined(fs, r)
  {
    if r.Rdwt? && !r.write && (HandleIsMentioned(fs, r.proc, r.fd); ModeOf(fs, r.proc, r.fd).Rdwr()) then
      var n := BytesMoved(fs, r.proc, r.fd, false, r.len);
      |buf| == |buf0| && n <= |buf| && buf[n..] == buf0[n..] && Fetched(buf, disk, FirstByte(fs, r.proc, r.fd), n)
    else buf == buf0
  }

  // ---------------------------------------------------------------- runs on the disk

  /** `disks[i]` is the disk before request `i` of the run and `datas[i]` the caller's buffer. */
  ghost predicate OnDisks(fs: Fs, rs: seq<Request>, datas: seq<seq<Byte>>, disks: seq<seq<Sector>>)
    requires Inv(fs) && IsRun(fs, rs)
    decreases |rs|
  {
    |datas| == |rs| && |disks| == |rs| + 1 &&
    (rs == [] ||
     (DiskStep(fs, rs[0], datas[0], disks[0], disks[1]) &&
      (RequestKeeps(fs, rs[0]); OnDisks(Next(fs, rs[0]).0, rs[1..], datas[1..], disks[1..]))))
  }

  /** What the server has done over a run: what each request returned, what was in the callers'
      buffers before (`datas`) and after it (`answers`), and the disks before and after. */
  ghost predicate Served(fs: Fs, rs: seq<Request>, outs: seq<Outcome>, datas: seq<seq<Byte>>, answers: seq<seq<Byte>>,
                         disks: seq<seq<Sector>>)
    requires Inv(fs) && IsRun(fs, rs)
    decreases |rs|
  {
    |outs| == |datas| == |answers| == |rs| && |disks| == |rs| + 1 &&
    (rs == [] ||
     (outs[0] == Next(fs, rs[0]).1 && DiskStep(fs, rs[0], datas[0], disks[0], disks[1]) &&
      Answered(fs, rs[0], disks[0], datas[0], answers[0]) &&
      (RequestKeeps(fs, rs[0]);
       Served(Next(fs, rs[0]).0, rs[1..], outs[1..], datas[1..], answers[1..], disks[1..]))))
  }

  lemma {:induction false} ServedOnDisks(fs: Fs, rs: seq<Request>, outs: seq<Outcome>, datas: seq<seq<Byte>>,
                                         answers: seq<seq<Byte>>, disks: seq<seq<Sector>>)
    requires Inv(fs) && IsRun(fs, rs) && Served(fs, rs, outs, datas, answers, disks)
    ensures OnDisks(fs, rs, datas, disks)
    decreases |rs|
  {
    if rs != [] {
      RequestKeeps(fs, rs[0]);
      ServedOnDisks(Next(fs, rs[0]).0, rs[1..], outs[1..], datas[1..], answers[1..], disks[1..]);
    }
  }

  /** One request served after a run that has led to `last` and left `disk0`. */
  ghost predicate ServedNext(last: Fs, r: Request, out: Outcome, data: seq<Byte>, answer: seq<Byte>,
                             disk0: seq<Sector>, disk: seq<Sector>) {
    Inv(last) && Legal(last, r) && out == Next(last, r).1 && out != Stopped &&
    DiskStep(last, r, data, disk0, disk) && Answered(last, r, disk0, data, answer)
  }

  lemma {:induction false} ServedThen(fs: Fs, rs: seq<Request>, outs: seq<Outcome>, datas: seq<seq<Byte>>,
                                      answers: seq<seq<Byte>>, disks: seq<seq<Sector>>, last: Fs,
                                      r: Request, out: Outcome, data: seq<Byte>, answer: seq<Byte>, disk: seq<Sector>)
    requires Inv(fs) && IsRun(fs, rs) && Served(fs, rs, outs, datas, answers, disks) && After(fs, rs) == last
    requires ServedNext(last, r, out, data, answer, disks[|rs|], disk)
    ensures IsRun(fs, rs + [r]) && After(fs, rs + [r]) == Next(last, r).0
    ensures Served(fs, rs + [r], outs + [out], datas + [data], answers + [answer], disks + [disk])
    decreases |rs|
  {
    RunThen(fs, rs, r);
    if rs == [] {
      JustOne(r, out, data, answer, disks, disk);
      OneServed(fs, r, out, data, answer, disks[0], disk);
    } else {
      RequestKeeps(fs, rs[0]);
      TailOfSum(rs, [r]);
      TailOfSum(outs, [out]);
      TailOfSum(datas, [data]);
      TailOfSum(answers, [answer]);
      TailOfSum(disks, [disk]);
      assert disks[1..][|rs[1..]|] == disks[|rs|];
      ServedThen(Next(fs, rs[0]).0, rs[1..], outs[1..], datas[1..], answers[1..], disks[1..], last,
                 r, out, data, answer, disk);
    }
  }

  lemma JustOne(r: Request, out: Outcome, data: seq<Byte>, answer: seq<Byte>, disks: seq<seq<Sector>>,
                disk: seq<Sector>)
    requires |disks| == 1
    ensures [] + [r] == [r] && [] + [out] == [out] && [] + [data] == [data] && [] + [answer] == [answer]
    ensures disks + [disk] == [disks[0], disk]
  {
  }

  lemma OneServed(fs: Fs, r: Request, out: Outcome, data: seq<Byte>, answer: seq<Byte>, disk0: seq<Sector>,
                  disk: seq<Sector>)
    requires Inv(fs) && IsRun(fs, [r]) && out == Next(fs, r).1
    requires DiskStep(fs, r, data, disk0, disk) && Answered(fs, r, disk0, data, answer)
    ensures Served(fs, [r], [out], [data], [answer], [disk0, disk])
  {
    RequestKeeps(fs, r);
    assert [r][1..] == [] && [out][1..] == [] && [data][1..] == [] && [answer][1..] == [];
    assert [disk0, disk][1..] == [disk];
  }

  lemma SameRestJoins(nrSmap: nat, a: seq<Sector>, b: seq<Sector>, c: seq<Sector>)
    requires SameRest(nrSmap, a, b) && SameRest(nrSmap, b, c)
    ensures SameRest(nrSmap, a, c)
  {
  }

  /** Over every run nothing changes on the disk but what the state is decoded from and the sectors
      of the files: the super block reads back as on the first day. */
  lemma {:induction false} RestStays(fs: Fs, rs: seq<Request>, datas: seq<seq<Byte>>, disks: seq<seq<Sector>>)
    requires Inv(fs) && IsRun(fs, rs) && OnDisks(fs, rs, datas, disks)
    ensures SameRest(fs.nrSmap, disks[0], disks[|rs|])
    ensures |disks[0]| > SUPER_SECTOR ==> SuperAt(disks[|rs|][SUPER_SECTOR]) == SuperAt(disks[0][SUPER_SECTOR])
    decreases |rs|
  {
    if rs != [] {
      RequestKeeps(fs, rs[0]);
      SameVolume(fs, rs[0]);
      RestStays(Next(fs, rs[0]).0, rs[1..], datas[1..], disks[1..]);
      SameRestJoins(fs.nrSmap, disks[0], disks[1], disks[|rs|]);
    }
  }

  /** No request of the run removes the file with inode `n`. */
  ghost predicate NotRemoved(fs: Fs, rs: seq<Request>, n: nat)
    requires Inv(fs) && IsRun(fs, rs)
    decreases |rs|
  {
    rs == [] ||
    (!RemovesInode(fs, rs[0], n) && (RequestKeeps(fs, rs[0]); NotRemoved(Next(fs, rs[0]).0, rs[1..], n)))
  }

  ghost predicate NotWritten(fs: Fs, rs: seq<Request>, n: nat)
    requires Inv(fs) && IsRun(fs, rs)
    decreases |rs|
  {
    rs == [] || (!WritesTo(fs, rs[0], n) && (RequestKeeps(fs, rs[0]); NotWritten(Next(fs, rs[0]).0, rs[1..], n)))
  }

  /** `was` after the writes of the run to the file with inode `n`, one after the other. */
  ghost function Replayed(fs: Fs, rs: seq<Request>, datas: seq<seq<Byte>>, n: nat, was: seq<Byte>): seq<Byte>
    requires Inv(fs) && IsRun(fs, rs) && |datas| == |rs|
    decreases |rs|
  {
    if rs == [] then was
    else
      RequestKeeps(fs, rs[0]);
      Replayed(Next(fs, rs[0]).0, rs[1..], datas[1..], n, Written(fs, rs[0], datas[0], n, was))
  }

  lemma {:induction false} RunReplays(fs: Fs, rs: seq<Request>, datas: seq<seq<Byte>>, disks: seq<seq<Sector>>, n: nat)
    requires Inv(fs) && IsRun(fs, rs) && OnDisks(fs, rs, datas, disks)
    requires Compact(fs) && Roomy(fs.nrSmap, |disks[0]|)
    requires n in FileNums(fs) && NotRemoved(fs, rs, n)
    ensures n in FileNums(After(fs, rs)) && |disks[|rs|]| == |disks[0]|
    ensures Contents(After(fs, rs), disks[|rs|], n) == Replayed(fs, rs, datas, n, Contents(fs, disks[0], n))
    decreases |rs|
  {
    if rs != [] {
      var r := rs[0];
      RequestKeeps(fs, r);
      ContentsStep(fs, r, datas[0], disks[0], disks[1], n);
      RecordFrame(fs, r, n);
      CompactKeeps(fs, r);
      SameVolume(fs, r);
      RunReplays(Next(fs, r).0, rs[1..], datas[1..], disks[1..], n);
    }
  }

  /** Take any file that exists after some run from an empty file system.  Over every further run
      that does not remove it, it holds exactly what has been written to it, in order, over what
      it held before. */
  lemma FilesHoldWhatWasWritten(empty: Fs, rs0: seq<Request>, fs: Fs, rs: seq<Request>, datas: seq<seq<Byte>>,
                                disks: seq<seq<Sector>>, n: nat)
    requires Arises(empty, rs0, fs) && IsRun(fs, rs) && OnDisks(fs, rs, datas, disks)
    requires Roomy(fs.nrSmap, |disks[0]|) && n in FileNums(fs) && NotRemoved(fs, rs, n)
    ensures n in FileNums(After(fs, rs)) && |disks[|rs|]| == |disks[0]|
    ensures Contents(After(fs, rs), disks[|rs|], n) == Replayed(fs, rs, datas, n, Contents(fs, disks[0], n))
  {
    ArisesCompact(empty, rs0, fs);
    RunReplays(fs, rs, datas, disks, n);
  }

  lemma {:induction false} NothingReplayed(fs: Fs, rs: seq<Request>, datas: seq<seq<Byte>>, n: nat, was: seq<Byte>)
    requires Inv(fs) && IsRun(fs, rs) && |datas| == |rs| && NotWritten(fs, rs, n)
    ensures Replayed(fs, rs, datas, n, was) == was
    decreases |rs|
  {
    if rs != [] {
      RequestKeeps(fs, rs[0]);
      NothingReplayed(Next(fs, rs[0]).0, rs[1..], datas[1..], n, was);
    }
  }

  /** A legal read through some handle to file `n`, at `pos`, has delivered `data`. */
  ghost predicate Delivered(fs: Fs, disk: seq<Sector>, proc: nat, fd: nat, n: nat, pos: nat, data: seq<Byte>)
    requires Inv(fs)
  {
    Legal(fs, Rdwt(proc, fd, false, |data|)) &&
    Mentioned(fs, proc, fd) && ModeOf(fs, proc, fd).Rdwr() && PosOf(fs, proc, fd) == pos &&
    fs.table[SlotBehind(fs, proc, fd)].num == n && Fetched(data, disk, FirstByte(fs, proc, fd), |data|)
  }

  lemma ReadReturnsContents(fs: Fs, disk: seq<Sector>, proc: nat, fd: nat, n: nat, pos: nat, data: seq<Byte>)
    requires Inv(fs) && Compact(fs) && Roomy(fs.nrSmap, |disk|) && n in FileNums(fs)
    requires Delivered(fs, disk, proc, fd, n, pos, data)
    ensures pos + |data| <= |Contents(fs, disk, n)| && data == Contents(fs, disk, n)[pos..pos + |data|]
  {
    HandleIsMentioned(fs, proc, fd);
    FilesFit(fs, |disk|, n);
    assert IsFile(fs.nrSmap, fs.inodes, n);
    var all := Contents(fs, disk, n);
    forall k | 0 <= k < |data| ensures data[k] == all[pos + k] {
      assert data[k] == ByteAt(disk, FirstByte(fs, proc, fd) + k);
    }
  }

  lemma ReadAfterRun(fs: Fs, rs: seq<Request>, datas: seq<seq<Byte>>, disks: seq<seq<Sector>>,
                     proc: nat, fd: nat, n: nat, pos: nat, data: seq<Byte>)
    requires Inv(fs) && IsRun(fs, rs) && OnDisks(fs, rs, datas, disks)
    requires Compact(fs) && Roomy(fs.nrSmap, |disks[0]|) && n in FileNums(fs) && NotRemoved(fs, rs, n)
    requires Delivered(After(fs, rs), disks[|rs|], proc, fd, n, pos, data)
    ensures var all := Replayed(fs, rs, datas, n, Contents(fs, disks[0], n));
            pos + |data| <= |all| && data == all[pos..pos + |data|]
  {
    RunReplays(fs, rs, datas, disks, n);
    CompactAfter(fs, rs);
    ReadReturnsContents(After(fs, rs), disks[|rs|], proc, fd, n, pos, data);
  }

  /** A read at the end of a run, through any handle to the file, returns what was last written there. */
  lemma ReadsSeeWrites(empty: Fs, rs0: seq<Request>, fs: Fs, rs: seq<Request>, datas: seq<seq<Byte>>,
                       disks: seq<seq<Sector>>, proc: nat, fd: nat, n: nat, pos: nat, data: seq<Byte>)
    requires Arises(empty, rs0, fs) && IsRun(fs, rs) && OnDisks(fs, rs, datas, disks)
    requires Roomy(fs.nrSmap, |disks[0]|) && n in FileNums(fs) && NotRemoved(fs, rs, n)
    requires Delivered(After(fs, rs), disks[|rs|], proc, fd, n, pos, data)
    ensures var all := Replayed(fs, rs, datas, n, Contents(fs, disks[0], n));
            pos + |data| <= |all| && data == all[pos..pos + |data|]
  {
    ArisesCompact(empty, rs0, fs);
    ReadAfterRun(fs, rs, datas, disks, proc, fd, n, pos, data);
  }

  /** The request is a write of `data` at `pos` of file `n`. */
  ghost predicate Stores(fs: Fs, r: Request, n: nat, pos: nat, data: seq<Byte>)
    requires Inv(fs) && Legal(fs, r)
  {
    WritesTo(fs, r, n) && r.len == |data| && (HandleIsMentioned(fs, r.proc, r.fd); PosOf(fs, r.proc, r.fd) == pos)
  }

  /** After it the file holds `data` there. */
  lemma StoreLands(fs: Fs, r: Request, n: nat, pos: nat, data: seq<Byte>, disk0: seq<Sector>, disk: seq<Sector>)
    requires Inv(fs) && Legal(fs, r) && Stores(fs, r, n, pos, data) && n in FileNums(fs)
    requires Compact(fs) && Roomy(fs.nrSmap, |disk0|) && DiskStep(fs, r, data, disk0, disk)
    ensures var all := Contents(Next(fs, r).0, disk, n);
            pos + |data| <= |all| && all[pos..pos + |data|] == data
    ensures (RequestKeeps(fs, r); n in FileNums(Next(fs, r).0) && Compact(Next(fs, r).0))
    ensures |disk| == |disk0| && Next(fs, r).0.nrSmap == fs.nrSmap
  {
    HandleIsMentioned(fs, r.proc, r.fd);
    LegalWrite(fs, r, data, disk0, disk);
    ContentsStep(fs, r, data, disk0, disk, n);
    FilesFit(fs, |disk0|, n);
    assert data[..r.len] == data;
    SplicedAt(Contents(fs, disk0, n), pos, data);
    RecordFrame(fs, r, n);
    CompactKeeps(fs, r);
    SameVolume(fs, r);
  }

  lemma SplicedAt(was: seq<Byte>, pos: nat, data: seq<Byte>)
    requires pos + |data| <= |was|
    ensures |Spliced(was, pos, data)| == |was| && Spliced(was, pos, data)[pos..pos + |data|] == data
  {
  }

  /** The run neither removes the file nor writes to it. */
  ghost predicate LeavesAlone(fs: Fs, rs: seq<Request>, n: nat)
    requires Inv(fs) && IsRun(fs, rs)
  {
    NotRemoved(fs, rs, n) && NotWritten(fs, rs, n)
  }

  lemma WrittenIsRead(fs: Fs, r: Request, rs: seq<Request>, disk0: seq<Sector>, datas: seq<seq<Byte>>,
                      disks: seq<seq<Sector>>, proc: nat, fd: nat, n: nat, pos: nat,
                      written: seq<Byte>, read: seq<Byte>)
    requires Inv(fs) && Legal(fs, r) && Stores(fs, r, n, pos, written) && n in FileNums(fs)
    requires Compact(fs) && Roomy(fs.nrSmap, |disk0|)
    requires (RequestKeeps(fs, r); IsRun(Next(fs, r).0, rs) && OnDisks(Next(fs, r).0, rs, datas, disks))
    requires DiskStep(fs, r, written, disk0, disks[0])
    requires (RequestKeeps(fs, r); LeavesAlone(Next(fs, r).0, rs, n))
    requires (RequestKeeps(fs, r); Delivered(After(Next(fs, r).0, rs), disks[|rs|], proc, fd, n, pos, read))
    requires |read| == |written|
    ensures read == written
  {
    var fs0 := Next(fs, r).0;
    RequestKeeps(fs, r);
    StoreLands(fs, r, n, pos, written, disk0, disks[0]);
    NothingReplayed(fs0, rs, datas, n, Contents(fs0, disks[0], n));
    ReadAfterRun(fs0, rs, datas, disks, proc, fd, n, pos, read);
  }

  /** Write, do anything but write to the file or remove it, and read at the same place through
      any handle: what was written is read. */
  lemma WriteThenRead(empty: Fs, rs0: seq<Request>, fs: Fs, r: Request, rs: seq<Request>, disk0: seq<Sector>,
                      datas: seq<seq<Byte>>, disks: seq<seq<Sector>>, proc: nat, fd: nat, n: nat, pos: nat,
                      written: seq<Byte>, read: seq<Byte>)
    requires Arises(empty, rs0, fs) && Legal(fs, r) && Stores(fs, r, n, pos, written) && n in FileNums(fs)
    requires (RequestKeeps(fs, r); IsRun(Next(fs, r).0, rs) && OnDisks(Next(fs, r).0, rs, datas, disks))
    requires Roomy(fs.nrSmap, |disk0|) && DiskStep(fs, r, written, disk0, disks[0])
    requires (RequestKeeps(fs, r); LeavesAlone(Next(fs, r).0, rs, n))
    requires (RequestKeeps(fs, r); Delivered(After(Next(fs, r).0, rs), disks[|rs|], proc, fd, n, pos, read))
    requires |read| == |written|
    ensures read == written
  {
    ArisesCompact(empty, rs0, fs);
    WrittenIsRead(fs, r, rs, disk0, datas, disks, proc, fd, n, pos, written, read);
  }

  /** Over every run that neither writes to a file nor removes it, its record stays as it is. */
  lemma {:induction false} RecordStays(fs: Fs, rs: seq<Request>, n: nat)
    requires Inv(fs) && IsRun(fs, rs) && n in FileNums(fs) && NotRemoved(fs, rs, n) && NotWritten(fs, rs, n)
    ensures n in FileNums(After(fs, rs)) && 1 <= n <= |fs.inodes| == |After(fs, rs).inodes|
    ensures After(fs, rs).inodes[n - 1] == fs.inodes[n - 1]
    decreases |rs|
  {
    assert IsFile(fs.nrSmap, fs.inodes, n);
    if rs != [] {
      RequestKeeps(fs, rs[0]);
      RecordFrame(fs, rs[0], n);
      RecordStays(Next(fs, rs[0]).0, rs[1..], n);
    }
  }

  /** An inode that is put back and fetched again, however much later, has the same fields, if
      nobody wrote to the file or removed it in between. */
  lemma PutThenGet(fs: Fs, p: nat, rs: seq<Request>)
    requires Inv(fs) && p < |fs.table| && fs.table[p].cnt > 0 && fs.table[p].num in FileNums(fs) && IsRun(fs, rs)
    requires NotRemoved(fs, rs, fs.table[p].num) && NotWritten(fs, rs, fs.table[p].num)
    ensures var n, fs1 := fs.table[p].num, After(fs, rs);
            HasRoom(fs1.table, n) && 1 <= n <= |fs1.inodes| && GotSlot(fs1.table, n) < |fs1.table| &&
            var s := GotTable(fs1.table, fs1.inodes, n)[GotSlot(fs1.table, n)];
            s.num == n && s.rec == fs.table[p].rec
  {
    var n, fs1 := fs.table[p].num, After(fs, rs);
    assert Coherent(fs.table, fs.inodes, FileNums(fs), p);
    RecordStays(fs, rs, n);
    GetKeeps(fs1, n);
  }
}
