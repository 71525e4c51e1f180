/** What every file holds after any defined write, past the capacity or not, and when other files are left alone. */
module Overruns {
  import opened Device
  import opened Volume
  import opened FileData
  import opened Files
  import opened Requests
  import opened C = Contents

  /** The file that a write goes to, how many bytes are moved, and the position behind them. */
  function Target(fs: Fs, r: Request): nat
    requires r.Rdwt? && Mentioned(fs, r.proc, r.fd)
  {
    fs.table[SlotBehind(fs, r.proc, r.fd)].num
  }

  function MovedBy(fs: Fs, r: Request): nat
    requires r.Rdwt? && Mentioned(fs, r.proc, r.fd) && fs.bufSectors > 0
  {
    BytesMoved(fs, r.proc, r.fd, r.write, r.len)
  }

  function EndOfMove(fs: Fs, r: Request): nat
    requires r.Rdwt? && Mentioned(fs, r.proc, r.fd) && fs.bufSectors > 0
  {
    PosOf(fs, r.proc, r.fd) + MovedBy(fs, r)
  }

  /** The request is a write through a handle opened to read or write. */
  ghost predicate IsWrite(fs: Fs, r: Request)
    requires Inv(fs) && Defined(fs, r)
  {
    r.Rdwt? && r.write && (HandleIsMentioned(fs, r.proc, r.fd); ModeOf(fs, r.proc, r.fd).Rdwr())
  }

  /** File `m` has the extent behind that of file `n`. */
  predicate IsBehind(fs: Fs, n: nat, m: nat) {
    SlotAt(fs.nrSmap, fs.inodes, m) == SlotAt(fs.nrSmap, fs.inodes, n) + 1
  }

  /** Rounding up to whole chunks at most doubles the way. */
  lemma AtMostTwice(pos: nat, posEnd: nat, bufSectors: nat)
    requires bufSectors > 0 && SECTOR_SIZE <= posEnd
    ensures Touched(pos, posEnd, bufSectors) <= 2 * (posEnd / SECTOR_SIZE)
  {
    var min, max := pos / SECTOR_SIZE, posEnd / SECTOR_SIZE;
    if min == 0 && max < bufSectors {
      assert Past(max + 1, max, max + 1) == max + 1;
    }
  }

  /** What the extent at sector `b` holds after a write of `n` bytes at byte `pos` of the one at
      sector `a`, if it held `was` before. */
  function SpilledAt(a: nat, b: nat, pos: nat, n: nat, data: seq<Byte>, was: seq<Byte>): seq<Byte> {
    if !(n <= |data| && pos <= CAPACITY == |was| && pos + n <= 2 * CAPACITY) then was
    else if b == a then Spliced(was, pos, data[..Min(n, CAPACITY - pos)])
    else if b == a + NR_DEFAULT_FILE_SECTS && pos + n > CAPACITY then
      data[CAPACITY - pos..n] + was[pos + n - CAPACITY..]
    else was
  }

  /** Bytes [pos, pos + n) from the start of one extent, seen through the extent behind it. */
  lemma SpillSeen(nrSmap: nat, disk0: seq<Sector>, disk: seq<Sector>, start: nat, pos: nat, n: nat, data: seq<Byte>)
    requires DataWritten(nrSmap, disk0, disk, start * SECTOR_SIZE + pos, n, data)
    requires FirstSector(nrSmap) + NR_DEFAULT_FILE_SECTS <= start && start + 2 * NR_DEFAULT_FILE_SECTS <= |disk|
    requires pos <= CAPACITY < pos + n <= 2 * CAPACITY
    ensures var next := start + NR_DEFAULT_FILE_SECTS;
            Extent(disk, next, NR_DEFAULT_FILE_SECTS) ==
            SpilledAt(start, next, pos, n, data, Extent(disk0, next, NR_DEFAULT_FILE_SECTS))
  {
    var next := start + NR_DEFAULT_FILE_SECTS;
    var e0, e1 := Extent(disk0, next, NR_DEFAULT_FILE_SECTS), Extent(disk, next, NR_DEFAULT_FILE_SECTS);
    var s := data[CAPACITY - pos..n] + e0[pos + n - CAPACITY..];
    forall x | 0 <= x < |e1| ensures e1[x] == s[x] {
      assert e1[x] == ByteAt(disk, next * SECTOR_SIZE + x);
    }
  }

  /** The same bytes, seen through the extent itself: those that fit. */
  lemma OwnSeen(nrSmap: nat, disk0: seq<Sector>, disk: seq<Sector>, start: nat, pos: nat, n: nat, data: seq<Byte>)
    requires DataWritten(nrSmap, disk0, disk, start * SECTOR_SIZE + pos, n, data)
    requires pos <= CAPACITY && pos + n <= 2 * CAPACITY
    requires FirstSector(nrSmap) + NR_DEFAULT_FILE_SECTS <= start && start + NR_DEFAULT_FILE_SECTS <= |disk|
    ensures Extent(disk, start, NR_DEFAULT_FILE_SECTS) ==
            SpilledAt(start, start, pos, n, data, Extent(disk0, start, NR_DEFAULT_FILE_SECTS))
  {
    var e0, e1 := Extent(disk0, start, NR_DEFAULT_FILE_SECTS), Extent(disk, start, NR_DEFAULT_FILE_SECTS);
    var s := Spliced(e0, pos, data[..Min(n, CAPACITY - pos)]);
    forall x | 0 <= x < |e1| ensures e1[x] == s[x] {
      assert e1[x] == ByteAt(disk, start * SECTOR_SIZE + x);
    }
  }

  /** The same bytes, seen through any extent that they do not reach. */
  lemma ApartSeen(nrSmap: nat, disk0: seq<Sector>, disk: seq<Sector>, a: nat, b: nat, pos: nat, n: nat, data: seq<Byte>)
    requires DataWritten(nrSmap, disk0, disk, a * SECTOR_SIZE + pos, n, data)
    requires FirstSector(nrSmap) + NR_DEFAULT_FILE_SECTS <= b && b + NR_DEFAULT_FILE_SECTS <= |disk0|
    requires pos + n <= if b == a + NR_DEFAULT_FILE_SECTS then CAPACITY else 2 * CAPACITY
    requires b + NR_DEFAULT_FILE_SECTS <= a || b == a + NR_DEFAULT_FILE_SECTS || a + 2 * NR_DEFAULT_FILE_SECTS <= b
    ensures Extent(disk, b, NR_DEFAULT_FILE_SECTS) ==
            SpilledAt(a, b, pos, n, data, Extent(disk0, b, NR_DEFAULT_FILE_SECTS))
  {
    ExtentKept(nrSmap, disk0, disk, b, a * SECTOR_SIZE + pos, n, data);
  }

  /** The same for files: `m` after a write to `num`. */
  function Spilled(fs: Fs, num: nat, pos: nat, n: nat, data: seq<Byte>, m: nat, was: seq<Byte>): seq<Byte> {
    if 1 <= num <= |fs.inodes| && 1 <= m <= |fs.inodes|
    then SpilledAt(fs.inodes[num - 1].start, fs.inodes[m - 1].start, pos, n, data, was) else was
  }

  /** Where the extents of two files lie. */
  lemma ExtentsLie(fs: Fs, sectors: nat, num: nat, m: nat)
    requires DiskOk(fs) && Compact(fs) && Roomy(fs.nrSmap, sectors) && num in FileNums(fs) && m in FileNums(fs)
    ensures IsExtent(fs, sectors, num) && IsExtent(fs, sectors, m)
    ensures var a, b := fs.inodes[num - 1].start, fs.inodes[m - 1].start;
            if m == num then a == b
            else if IsBehind(fs, num, m) then b == a + NR_DEFAULT_FILE_SECTS
            else b + NR_DEFAULT_FILE_SECTS <= a || a + 2 * NR_DEFAULT_FILE_SECTS <= b
  {
    FilesFit(fs, sectors, num);
    FilesFit(fs, sectors, m);
    assert OwnSlots(fs.nrSmap, fs.inodes, num, m);
  }

  predicate IsExtent(fs: Fs, sectors: nat, n: nat) {
    1 <= n <= |fs.inodes| && fs.inodes[n - 1].sectors == NR_DEFAULT_FILE_SECTS &&
    FirstSector(fs.nrSmap) + NR_DEFAULT_FILE_SECTS <= fs.inodes[n - 1].start &&
    fs.inodes[n - 1].start + NR_DEFAULT_FILE_SECTS <= sectors
  }

  /** `n` bytes have been written at byte `pos` from the start of file `num`. */
  ghost predicate Lands(fs: Fs, num: nat, pos: nat, n: nat, data: seq<Byte>, disk0: seq<Sector>, disk: seq<Sector>)
    requires DiskOk(fs)
  {
    num in FileNums(fs) && 1 <= num <= |fs.inodes| && pos <= CAPACITY && pos + n <= 2 * CAPACITY &&
    DataWritten(fs.nrSmap, disk0, disk, fs.inodes[num - 1].start * SECTOR_SIZE + pos, n, data)
  }

  lemma SpilledSeen(fs: Fs, num: nat, pos: nat, n: nat, data: seq<Byte>, disk0: seq<Sector>, disk: seq<Sector>, m: nat)
    requires DiskOk(fs) && Compact(fs) && Roomy(fs.nrSmap, |disk0|) && m in FileNums(fs)
    requires Lands(fs, num, pos, n, data, disk0, disk)
    ensures |Contents(fs, disk0, m)| == CAPACITY
    ensures Contents(fs, disk, m) == Spilled(fs, num, pos, n, data, m, Contents(fs, disk0, m))
  {
    ExtentsLie(fs, |disk0|, num, m);
    var a, b := fs.inodes[num - 1].start, fs.inodes[m - 1].start;
    if b == a {
      OwnSeen(fs.nrSmap, disk0, disk, a, pos, n, data);
    } else if b == a + NR_DEFAULT_FILE_SECTS && pos + n > CAPACITY {
      SpillSeen(fs.nrSmap, disk0, disk, a, pos, n, data);
    } else {
      ApartSeen(fs.nrSmap, disk0, disk, a, b, pos, n, data);
    }
  }

  /** Where a defined write goes. */
  lemma WriteTarget(fs: Fs, r: Request, data: seq<Byte>, disk0: seq<Sector>, disk: seq<Sector>)
    requires Inv(fs) && Defined(fs, r) && IsWrite(fs, r) && DiskStep(fs, r, data, disk0, disk)
    ensures Mentioned(fs, r.proc, r.fd)
    ensures Lands(fs, Target(fs, r), PosOf(fs, r.proc, r.fd), MovedBy(fs, r), data, disk0, disk)
  {
    HandleIsMentioned(fs, r.proc, r.fd);
    var rec, pos := fs.table[SlotBehind(fs, r.proc, r.fd)].rec, PosOf(fs, r.proc, r.fd);
    assert DescOk(fs.table, fs.descs[fs.filp[r.proc][r.fd]]);
    assert IsFile(fs.nrSmap, fs.inodes, Target(fs, r));
    if pos + r.len >= SECTOR_SIZE {
      AtMostTwice(pos, EndOf(rec, pos, true, r.len), fs.bufSectors);
    }
  }

  /** What every file holds after any defined write, past the capacity or not: its own extent takes
      the bytes that fit, and the rest goes over the front of the file behind it, if there is one. */
  lemma DefinedWriteSeen(fs: Fs, r: Request, data: seq<Byte>, disk0: seq<Sector>, disk: seq<Sector>, m: nat)
    requires Inv(fs) && Defined(fs, r) && IsWrite(fs, r) && DiskStep(fs, r, data, disk0, disk)
    requires Compact(fs) && Roomy(fs.nrSmap, |disk0|) && m in FileNums(fs)
    ensures Mentioned(fs, r.proc, r.fd)
    ensures var pos := PosOf(fs, r.proc, r.fd);
            Contents(fs, disk, m) ==
            Spilled(fs, Target(fs, r), pos, MovedBy(fs, r), data, m, Contents(fs, disk0, m))
  {
    WriteTarget(fs, r, data, disk0, disk);
    var pos := PosOf(fs, r.proc, r.fd);
    SpilledSeen(fs, Target(fs, r), pos, MovedBy(fs, r), data, disk0, disk, m);
  }

  // ---------------------------------------------------------------- when other files are left alone

  /** Whatever is written, no file but the target comes to hold something else. */
  ghost predicate LeavesOthers(fs: Fs, r: Request, disk0: seq<Sector>)
    requires Inv(fs) && Defined(fs, r) && IsWrite(fs, r) && Mentioned(fs, r.proc, r.fd)
  {
    forall data, disk, m ::
      DiskStep(fs, r, data, disk0, disk) && m in FileNums(fs) && m != Target(fs, r) ==>
        Contents(fs, disk, m) == Contents(fs, disk0, m)
  }

  /** `disk0` with the bytes from `a` on replaced by `data`. */
  function WithBytes(disk0: seq<Sector>, a: nat, data: seq<Byte>): (disk: seq<Sector>)
    ensures |disk| == |disk0|
  {
    seq(|disk0|, k requires 0 <= k < |disk0| =>
      seq(SECTOR_SIZE, i requires 0 <= i < SECTOR_SIZE =>
        if a <= k * SECTOR_SIZE + i < a + |data| then data[k * SECTOR_SIZE + i - a] else disk0[k][i]))
  }

  lemma BytesLand(nrSmap: nat, disk0: seq<Sector>, a: nat, data: seq<Byte>)
    requires (FirstSector(nrSmap) + NR_DEFAULT_FILE_SECTS) * SECTOR_SIZE <= a
    ensures DataWritten(nrSmap, disk0, WithBytes(disk0, a, data), a, |data|, data)
  {
    var disk := WithBytes(disk0, a, data);
    assert forall k :: 0 <= k < IMAP_SECTOR && k < |disk| ==> disk[k] == disk0[k];
  }

  /** Some data that do not begin like `was`. */
  function Other(was: seq<Byte>, at: nat, n: nat): (data: seq<Byte>)
    requires at < n && was != []
    ensures |data| == n && data[at] != was[0]
  {
    seq<Byte>(n, _ => was[0][0 := !was[0][0]])
  }

  /** A defined write leaves all other files alone, whatever it writes, if and only if it stays
      within the capacity or no file has the extent behind. */
  lemma LeavesOthersWhen(fs: Fs, r: Request, disk0: seq<Sector>)
    requires Inv(fs) && Defined(fs, r) && IsWrite(fs, r) && Mentioned(fs, r.proc, r.fd)
    requires Compact(fs) && Roomy(fs.nrSmap, |disk0|)
    ensures LeavesOthers(fs, r, disk0) <==>
            PosOf(fs, r.proc, r.fd) + r.len <= CAPACITY ||
            forall m :: m in FileNums(fs) ==> !IsBehind(fs, Target(fs, r), m)
  {
    var num, pos, end := Target(fs, r), PosOf(fs, r.proc, r.fd), EndOfMove(fs, r);
    EndIsPast(fs, r);
    if end <= CAPACITY || forall m :: m in FileNums(fs) ==> !IsBehind(fs, num, m) {
      forall data, disk, m | DiskStep(fs, r, data, disk0, disk) && m in FileNums(fs) && m != num
        ensures Contents(fs, disk, m) == Contents(fs, disk0, m)
      {
        DefinedWriteSeen(fs, r, data, disk0, disk, m);
      }
    } else {
      var m :| m in FileNums(fs) && IsBehind(fs, num, m);
      OverwritesNext(fs, r, disk0, m);
    }
  }

  /** Past the capacity is where a write ends exactly when it asks for more. */
  lemma EndIsPast(fs: Fs, r: Request)
    requires Inv(fs) && Defined(fs, r) && IsWrite(fs, r) && Mentioned(fs, r.proc, r.fd)
    ensures Target(fs, r) in FileNums(fs) && PosOf(fs, r.proc, r.fd) <= CAPACITY
    ensures EndOfMove(fs, r) <= CAPACITY <==> PosOf(fs, r.proc, r.fd) + r.len <= CAPACITY
  {
    HandleIsMentioned(fs, r.proc, r.fd);
    assert DescOk(fs.table, fs.descs[fs.filp[r.proc][r.fd]]);
    assert IsFile(fs.nrSmap, fs.inodes, Target(fs, r));
    LimitHonoured(PosOf(fs, r.proc, r.fd), r.len, CAPACITY, fs.bufSectors);
  }

  /** Any data can be written. */
  lemma DataCanLand(fs: Fs, r: Request, disk0: seq<Sector>, data: seq<Byte>)
    requires Inv(fs) && Defined(fs, r) && IsWrite(fs, r) && Mentioned(fs, r.proc, r.fd)
    requires |data| == MovedBy(fs, r)
    ensures DiskStep(fs, r, data, disk0, WithBytes(disk0, FirstByte(fs, r.proc, r.fd), data))
  {
    EndIsPast(fs, r);
    HandleIsMentioned(fs, r.proc, r.fd);
    assert IsFile(fs.nrSmap, fs.inodes, Target(fs, r));
    BytesLand(fs.nrSmap, disk0, FirstByte(fs, r.proc, r.fd), data);
  }

  lemma OverwritesNext(fs: Fs, r: Request, disk0: seq<Sector>, m: nat)
    requires Inv(fs) && Defined(fs, r) && IsWrite(fs, r) && Mentioned(fs, r.proc, r.fd)
    requires Compact(fs) && Roomy(fs.nrSmap, |disk0|) && m in FileNums(fs) && IsBehind(fs, Target(fs, r), m)
    requires EndOfMove(fs, r) > CAPACITY
    ensures !LeavesOthers(fs, r, disk0)
  {
    EndIsPast(fs, r);
    var was, pos := Contents(fs, disk0, m), PosOf(fs, r.proc, r.fd);
    ExtentsLie(fs, |disk0|, Target(fs, r), m);
    var data := Other(was, CAPACITY - pos, MovedBy(fs, r));
    var disk := WithBytes(disk0, FirstByte(fs, r.proc, r.fd), data);
    DataCanLand(fs, r, disk0, data);
    DefinedWriteSeen(fs, r, data, disk0, disk, m);
    WriteTarget(fs, r, data, disk0, disk);
    assert Contents(fs, disk, m)[0] == data[CAPACITY - pos];
  }
}
