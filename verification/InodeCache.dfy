/** The in-memory inodes: reference counts over a write-through copy of the records on disk. */
module InodeCache {
  import opened Device
  import opened Volume
  import opened Records

  const NIL := -1

  /** INODE in memory; a slot with `cnt == 0` is free. */
  datatype Slot = Slot(cnt: nat, num: nat, rec: Record)

  // ---------------------------------------------------------------- what get_inode finds

  /** The first slot at or after `i` that is in use for inode `num`, or the table's length. */
  function FindCached(table: seq<Slot>, num: nat, i: nat): (p: nat)
    requires i <= |table|
    ensures i <= p <= |table| && (p < |table| ==> table[p].cnt > 0 && table[p].num == num)
    ensures forall k :: i <= k < p ==> table[k].cnt == 0 || table[k].num != num
    decreases |table| - i
  {
    if i == |table| || (table[i].cnt > 0 && table[i].num == num) then i else FindCached(table, num, i + 1)
  }

  /** The first free slot at or after `i`, or the table's length. */
  function FindFree(table: seq<Slot>, i: nat): (q: nat)
    requires i <= |table|
    ensures i <= q <= |table| && (q < |table| ==> table[q].cnt == 0)
    ensures forall k :: i <= k < q ==> table[k].cnt > 0
    decreases |table| - i
  {
    if i == |table| || table[i].cnt == 0 then i else FindFree(table, i + 1)
  }

  /** `get_inode` has somewhere to put the inode. */
  predicate HasRoom(table: seq<Slot>, num: nat) {
    FindCached(table, num, 0) < |table| || FindFree(table, 0) < |table|
  }

  function GotSlot(table: seq<Slot>, num: nat): (p: nat) {
    var c := FindCached(table, num, 0);
    if c < |table| then c else FindFree(table, 0)
  }

  function GotTable(table: seq<Slot>, inodes: seq<Record>, num: nat): (t: seq<Slot>)
    requires HasRoom(table, num) && 1 <= num <= |inodes|
    ensures |t| == |table|
  {
    var p := GotSlot(table, num);
    if FindCached(table, num, 0) < |table| then table[p := table[p].(cnt := table[p].cnt + 1)]
    else table[p := Slot(1, num, inodes[num - 1])]
  }

  // ---------------------------------------------------------------- records in the buffer

  method PutWord(dev: Device, o: nat, n: nat)
    requires o + 4 <= dev.fsbuf.Length
    modifies dev.fsbuf
    ensures dev.fsbuf[o..o + 4] == WordBytes(n)
    ensures forall x :: 0 <= x < dev.fsbuf.Length && !(o <= x < o + 4) ==> dev.fsbuf[x] == old(dev.fsbuf[x])
  {
    var bytes := WordBytes(n);
    forall i | 0 <= i < 4 {
      dev.fsbuf[o + i] := bytes[i];
    }
  }

  /** The four assignments through `pinode`. */
  method PutRecord(dev: Device, o: nat, r: Record)
    requires o + 16 <= dev.fsbuf.Length
    modifies dev.fsbuf
    ensures dev.fsbuf[o..o + 16] == RecordBytes(r)
    ensures forall x :: 0 <= x < dev.fsbuf.Length && !(o <= x < o + 16) ==> dev.fsbuf[x] == old(dev.fsbuf[x])
  {
    PutWord(dev, o, r.mode);
    ghost var a := dev.fsbuf[o..o + 4];
    PutWord(dev, o + 4, r.size);
    assert dev.fsbuf[o..o + 4] == a;
    ghost var b := dev.fsbuf[o..o + 8];
    assert b == a + dev.fsbuf[o + 4..o + 8];
    PutWord(dev, o + 8, r.start);
    assert dev.fsbuf[o..o + 8] == b;
    ghost var c := dev.fsbuf[o..o + 12];
    assert c == b + dev.fsbuf[o + 8..o + 12];
    PutWord(dev, o + 12, r.sectors);
    assert dev.fsbuf[o..o + 12] == c;
    assert dev.fsbuf[o..o + 16] == c + dev.fsbuf[o + 12..o + 16];
  }

  // ---------------------------------------------------------------- open.c

  /** Byte `x` of a sector of the inode table lies behind the four fields of its record. */
  predicate Spare(x: int) {
    x % INODE_SIZE >= 16
  }

  /** The spare bytes of all records are the same. */
  ghost predicate SameSpare(nrSmap: nat, disk0: seq<Sector>, disk: seq<Sector>) {
    |disk| == |disk0| &&
    forall k, x :: InodeSector(nrSmap) <= k < FirstSector(nrSmap) && k < |disk| && 0 <= x < SECTOR_SIZE && Spare(x) ==>
      disk[k][x] == disk0[k][x]
  }

  lemma FieldsAreNotSpare(i: nat, x: nat)
    requires RecordOffset(i) <= x < RecordOffset(i) + 16
    ensures !Spare(x)
  {
  }

  /** `sync_inode`. */
  method SyncInode(dev: Device, nrSmap: nat, p: Slot)
    requires dev.Valid() && HasLayout(nrSmap, dev.disk) && 1 <= p.num <= NR_INODES && Fits(p.rec)
    modifies dev`disk, dev.fsbuf
    ensures |dev.disk| == old(|dev.disk|)
    ensures Inodes(nrSmap, dev.disk) == old(Inodes(nrSmap, dev.disk))[p.num - 1 := p.rec]
    ensures forall k :: 0 <= k < |dev.disk| && !(InodeSector(nrSmap) <= k < FirstSector(nrSmap)) ==>
      dev.disk[k] == old(dev.disk)[k]
    ensures SameSpare(nrSmap, old(dev.disk), dev.disk)
  {
    var i := p.num - 1;
    var blk, o := RecordSector(nrSmap, i), RecordOffset(i);
    dev.RdSect(blk);
    ghost var read := dev.fsbuf[..SECTOR_SIZE];
    PutRecord(dev, o, p.rec);
    ghost var buf: Sector := dev.fsbuf[..SECTOR_SIZE];
    SliceOfFront(dev.fsbuf[..], o);
    assert forall x :: 0 <= x < SECTOR_SIZE && !(o <= x < o + 16) ==> buf[x] == read[x];
    RecordRoundTrip(p.rec);
    OneRecord(nrSmap, dev.disk, i, buf);
    forall x | 0 <= x < SECTOR_SIZE && Spare(x) ensures buf[x] == read[x] {
      if o <= x < o + 16 {
        FieldsAreNotSpare(i, x);
      }
    }
    dev.WrSect(blk);
  }

  /** The record of inode `num`, read through the buffer. */
  method ReadRecord(dev: Device, nrSmap: nat, num: nat) returns (r: Record)
    requires dev.Valid() && HasLayout(nrSmap, dev.disk) && 1 <= num <= NR_INODES
    modifies dev.fsbuf
    ensures r == Inodes(nrSmap, dev.disk)[num - 1]
  {
    var blk, o := RecordSector(nrSmap, num - 1), RecordOffset(num - 1);
    dev.RdSect(blk);
    ghost var read := dev.fsbuf[..SECTOR_SIZE];
    SliceOfFront(dev.fsbuf[..], o);
    assert RawInodes(nrSmap, dev.disk)[num - 1] == read[o..o + 16];
    r := DecodeRecord(dev.fsbuf[o..o + 16]);
  }

  /** The loop of `get_inode`: the slot that caches `num`, or else the first free one. */
  method FindSlot(table: array<Slot>, num: nat) returns (cached: bool, p: nat)
    requires HasRoom(table[..], num)
    ensures cached == (FindCached(table[..], num, 0) < table.Length) && p == GotSlot(table[..], num) < table.Length
  {
    ghost var t := table[..];
    var q := NIL;
    p := 0;
    while p < table.Length
      invariant 0 <= p <= table.Length
      invariant FindCached(t, num, 0) == FindCached(t, num, p)
      invariant if q == NIL then FindFree(t, 0) == FindFree(t, p) else q == FindFree(t, 0) < |t|
    {
      if table[p].cnt > 0 {
        if table[p].num == num {
          return true, p;
        }
      } else {
        if q == NIL {
          q := p;
        }
      }
      p := p + 1;
    }
    return false, q;
  }

  /** `get_inode`, for a table with room; inode number 0 is no inode. */
  method GetInode(dev: Device, nrSmap: nat, table: array<Slot>, num: nat) returns (p: int)
    requires dev.Valid() && HasLayout(nrSmap, dev.disk) && num <= NR_INODES && HasRoom(table[..], num)
    modifies table, dev.fsbuf
    ensures num == 0 ==> p == NIL && table[..] == old(table[..])
    ensures num > 0 ==> p == GotSlot(old(table[..]), num)
    ensures num > 0 ==> table[..] == GotTable(old(table[..]), Inodes(nrSmap, dev.disk), num)
  {
    if num == 0 {
      return NIL;
    }
    var cached;
    cached, p := FindSlot(table, num);
    if cached {
      table[p] := table[p].(cnt := table[p].cnt + 1);
    } else {
      table[p] := table[p].(num := num, cnt := 1);
      var r := ReadRecord(dev, nrSmap, num);
      table[p] := table[p].(rec := r);
    }
  }

  /** `put_inode`. */
  method PutInode(table: array<Slot>, p: nat)
    requires p < table.Length && table[p].cnt > 0
    modifies table
    ensures table[..] == old(table[..])[p := old(table[p]).(cnt := old(table[p]).cnt - 1)]
  {
    table[p] := table[p].(cnt := table[p].cnt - 1);
  }

  /** `new_inode`. */
  method NewInode(dev: Device, nrSmap: nat, table: array<Slot>, num: nat, start: nat) returns (p: nat)
    requires dev.Valid() && HasLayout(nrSmap, dev.disk) && 1 <= num <= NR_INODES && HasRoom(table[..], num)
    requires start < WORD_LIMIT
    modifies table, dev`disk, dev.fsbuf
    ensures |dev.disk| == old(|dev.disk|) && p == GotSlot(old(table[..]), num)
    ensures var r := Record(I_REGULAR, 0, start, NR_DEFAULT_FILE_SECTS);
            table[..] == old(table[..])[p := Slot(1, num, r)] &&
            Inodes(nrSmap, dev.disk) == old(Inodes(nrSmap, dev.disk))[num - 1 := r]
    ensures forall k :: 0 <= k < |dev.disk| && !(InodeSector(nrSmap) <= k < FirstSector(nrSmap)) ==>
      dev.disk[k] == old(dev.disk)[k]
    ensures SameSpare(nrSmap, old(dev.disk), dev.disk)
  {
    p := GetInode(dev, nrSmap, table, num);
    table[p] := Slot(1, num, Record(I_REGULAR, 0, start, NR_DEFAULT_FILE_SECTS));
    SyncInode(dev, nrSmap, table[p]);
  }
}
