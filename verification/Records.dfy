/** The 32-bit fields, inode records and directory entries that the file system keeps in
    sectors: how they are coded, that they read back, and that a change of one leaves all
    others as they were. */
module Records {
  import opened Device
  import opened Volume

  // ---------------------------------------------------------------- 32-bit words

  function Pow2(w: nat): (p: nat) {
    if w == 0 then 1 else 2 * Pow2(w - 1)
  }

  const WORD_LIMIT := 0x1_0000_0000

  /** The number whose bits, least significant first, are those from index `i` on. */
  function Value(bits: seq<bool>, i: nat): nat
    requires i <= |bits|
    decreases |bits| - i
  {
    if i == |bits| then 0 else (if bits[i] then 1 else 0) + 2 * Value(bits, i + 1)
  }

  function BitsOf(n: nat, w: nat): (bits: seq<bool>)
    ensures |bits| == w
  {
    if w == 0 then [] else [n % 2 == 1] + BitsOf(n / 2, w - 1)
  }

  lemma {:induction false} ValueOfTail(bits: seq<bool>, i: nat)
    requires 1 <= i <= |bits|
    ensures Value(bits, i) == Value(bits[1..], i - 1)
    decreases |bits| - i
  {
    if i < |bits| {
      ValueOfTail(bits, i + 1);
    }
  }

  lemma {:induction false} ValueOfBits(n: nat, w: nat)
    requires n < Pow2(w)
    ensures Value(BitsOf(n, w), 0) == n
  {
    if w > 0 {
      ValueOfBits(n / 2, w - 1);
      ValueOfTail(BitsOf(n, w), 1);
      assert BitsOf(n, w)[1..] == BitsOf(n / 2, w - 1);
    }
  }

  lemma WordLimit()
    ensures Pow2(32) == WORD_LIMIT
  {
    assert Pow2(8) == 0x100;
    assert Pow2(16) == 0x1_0000;
    assert Pow2(24) == 0x100_0000;
  }

  function Joined(a: seq<bool>, b: seq<bool>, c: seq<bool>, d: seq<bool>): seq<bool> {
    a + b + c + d
  }

  /** The little-endian word at offset `o`. */
  function WordAt(buf: seq<Byte>, o: nat): nat
    requires o + 4 <= |buf|
  {
    Value(Joined(buf[o], buf[o + 1], buf[o + 2], buf[o + 3]), 0)
  }

  function WordBytes(n: nat): (bytes: seq<Byte>)
    ensures |bytes| == 4
  {
    var bits := BitsOf(n, 32);
    [bits[0..8], bits[8..16], bits[16..24], bits[24..32]]
  }

  lemma WordRoundTrip(n: nat, buf: seq<Byte>, o: nat)
    requires n < WORD_LIMIT && o + 4 <= |buf| && buf[o..o + 4] == WordBytes(n)
    ensures WordAt(buf, o) == n
  {
    var bits := BitsOf(n, 32);
    WordLimit();
    ValueOfBits(n, 32);
    var four := buf[o..o + 4];
    assert four[0] == buf[o] && four[1] == buf[o + 1] && four[2] == buf[o + 2] && four[3] == buf[o + 3];
    assert Joined(bits[0..8], bits[8..16], bits[16..24], bits[24..32]) == bits;
  }

  function Digit(bit: bool): nat { if bit then 1 else 0 }

  /** A byte as a number, its least significant bit first. */
  function ByteValue(b: Byte): nat {
    Digit(b[0]) + 2 * Digit(b[1]) + 4 * Digit(b[2]) + 8 * Digit(b[3]) +
    16 * Digit(b[4]) + 32 * Digit(b[5]) + 64 * Digit(b[6]) + 128 * Digit(b[7])
  }

  lemma ByteValueIs(b: Byte)
    ensures Value(b, 0) == ByteValue(b)
  {
    assert Value(b, 8) == 0;
    assert Value(b, 6) == Digit(b[6]) + 2 * Digit(b[7]) + 4 * Value(b, 8);
    assert Value(b, 4) == Digit(b[4]) + 2 * Digit(b[5]) + 4 * Value(b, 6);
    assert Value(b, 2) == Digit(b[2]) + 2 * Digit(b[3]) + 4 * Value(b, 4);
  }

  lemma {:induction false} ValueBehind(a: seq<bool>, b: seq<bool>, i: nat)
    requires i <= |b|
    ensures Value(a + b, |a| + i) == Value(b, i)
    decreases |b| - i
  {
    if i < |b| {
      ValueBehind(a, b, i + 1);
    }
  }

  /** A byte in front of more significant ones. */
  lemma ValueOfByteAnd(a: Byte, b: seq<bool>)
    ensures Value(a + b, 0) == ByteValue(a) + 256 * Value(b, 0)
  {
    var s := a + b;
    ValueBehind(a, b, 0);
    ByteValueIs(a);
    assert Value(s, 6) == Digit(a[6]) + 2 * Digit(a[7]) + 4 * Value(b, 0);
    assert Value(s, 4) == Digit(a[4]) + 2 * Digit(a[5]) + 4 * Value(s, 6);
    assert Value(s, 2) == Digit(a[2]) + 2 * Digit(a[3]) + 4 * Value(s, 4);
  }

  /** The number of four bytes from offset `o` on, the least significant first. */
  function LittleEndian(buf: seq<Byte>, o: nat): nat
    requires o + 4 <= |buf|
  {
    ByteValue(buf[o]) + 0x100 * ByteValue(buf[o + 1]) + 0x1_0000 * ByteValue(buf[o + 2]) +
    0x100_0000 * ByteValue(buf[o + 3])
  }

  lemma WordIsLittleEndian(buf: seq<Byte>, o: nat)
    requires o + 4 <= |buf|
    ensures WordAt(buf, o) == LittleEndian(buf, o)
  {
    var c, d: seq<bool> := buf[o + 2], buf[o + 3];
    var b: seq<bool> := buf[o + 1] + (c + d);
    assert Joined(buf[o], buf[o + 1], c, d) == buf[o] + b;
    ValueOfByteAnd(buf[o], b);
    ValueOfByteAnd(buf[o + 1], c + d);
    ValueOfByteAnd(buf[o + 2], d);
    ByteValueIs(buf[o + 3]);
  }

  // ---------------------------------------------------------------- inode records

  datatype Record = Record(mode: nat, size: nat, start: nat, sectors: nat)

  predicate Fits(r: Record) {
    r.mode < WORD_LIMIT && r.size < WORD_LIMIT && r.start < WORD_LIMIT && r.sectors < WORD_LIMIT
  }

  /** The four fields that an inode keeps on disk. */
  function DecodeRecord(bytes: seq<Byte>): Record
    requires |bytes| == 16
  {
    Record(WordAt(bytes, 0), WordAt(bytes, 4), WordAt(bytes, 8), WordAt(bytes, 12))
  }

  function RecordBytes(r: Record): (bytes: seq<Byte>)
    ensures |bytes| == 16
  {
    WordBytes(r.mode) + WordBytes(r.size) + WordBytes(r.start) + WordBytes(r.sectors)
  }

  lemma RecordRoundTrip(r: Record)
    requires Fits(r)
    ensures DecodeRecord(RecordBytes(r)) == r
  {
    var bytes := RecordBytes(r);
    WordRoundTrip(r.mode, bytes, 0);
    WordRoundTrip(r.size, bytes, 4);
    WordRoundTrip(r.start, bytes, 8);
    WordRoundTrip(r.sectors, bytes, 12);
  }

  /** SECTOR_SIZE / INODE_SIZE. */
  const INODES_PER_SECTOR := 16

  /** Where the record of inode `i + 1` lies. */
  function RecordSector(nrSmap: nat, i: nat): nat { InodeSector(nrSmap) + i / INODES_PER_SECTOR }

  function RecordOffset(i: nat): nat { i % INODES_PER_SECTOR * INODE_SIZE }

  function RawInodes(nrSmap: nat, disk: seq<Sector>): (r: seq<seq<Byte>>)
    requires HasLayout(nrSmap, disk)
    ensures |r| == NR_INODES && forall i :: 0 <= i < |r| ==> |r[i]| == 16
  {
    seq(NR_INODES, i requires 0 <= i < NR_INODES =>
      disk[RecordSector(nrSmap, i)][RecordOffset(i)..RecordOffset(i) + 16])
  }

  function DecodeRecords(raw: seq<seq<Byte>>): (r: seq<Record>)
    requires forall i :: 0 <= i < |raw| ==> |raw[i]| == 16
    ensures |r| == |raw|
  {
    seq(|raw|, i requires 0 <= i < |raw| => DecodeRecord(raw[i]))
  }

  /** All inode records of the volume; number `num` is at index `num - 1`. */
  function Inodes(nrSmap: nat, disk: seq<Sector>): (r: seq<Record>)
    requires HasLayout(nrSmap, disk)
    ensures |r| == NR_INODES
  {
    DecodeRecords(RawInodes(nrSmap, disk))
  }

  /** Replacing the bytes of one record in its sector changes that item and no other. */
  lemma OneRawInode(nrSmap: nat, disk: seq<Sector>, i: nat, buf: Sector)
    requires HasLayout(nrSmap, disk) && i < NR_INODES
    requires forall x :: 0 <= x < SECTOR_SIZE && !(RecordOffset(i) <= x < RecordOffset(i) + 16) ==>
      buf[x] == disk[RecordSector(nrSmap, i)][x]
    ensures RawInodes(nrSmap, disk[RecordSector(nrSmap, i) := buf]) ==
            RawInodes(nrSmap, disk)[i := buf[RecordOffset(i)..RecordOffset(i) + 16]]
  {
    var s := RecordSector(nrSmap, i);
    var disk1 := disk[s := buf];
    forall j | 0 <= j < NR_INODES && j != i
      ensures RawInodes(nrSmap, disk1)[j] == RawInodes(nrSmap, disk)[j]
    {
      var o := RecordOffset(j);
      if RecordSector(nrSmap, j) == s {
        assert o + 32 <= RecordOffset(i) || RecordOffset(i) + 32 <= o;
        assert disk1[s][o..o + 16] == disk[s][o..o + 16];
      }
    }
  }

  lemma OneRecord(nrSmap: nat, disk: seq<Sector>, i: nat, buf: Sector)
    requires HasLayout(nrSmap, disk) && i < NR_INODES
    requires forall x :: 0 <= x < SECTOR_SIZE && !(RecordOffset(i) <= x < RecordOffset(i) + 16) ==>
      buf[x] == disk[RecordSector(nrSmap, i)][x]
    ensures Inodes(nrSmap, disk[RecordSector(nrSmap, i) := buf]) ==
            Inodes(nrSmap, disk)[i := DecodeRecord(buf[RecordOffset(i)..RecordOffset(i) + 16])]
  {
    OneRawInode(nrSmap, disk, i, buf);
  }

  // ---------------------------------------------------------------- directory entries

  /** `name` is the 12-byte field, a C string that may end early. */
  datatype Entry = Entry(inode: nat, name: seq<Byte>)

  function DecodeEntry(bytes: seq<Byte>): Entry
    requires |bytes| == 16
  {
    Entry(WordAt(bytes, 0), bytes[4..16])
  }

  lemma EntryRoundTrip(e: Entry)
    requires e.inode < WORD_LIMIT && |e.name| == MAX_FILENAME_LEN
    ensures DecodeEntry(WordBytes(e.inode) + e.name) == e
  {
    WordRoundTrip(e.inode, WordBytes(e.inode) + e.name, 0);
  }

  /** SECTOR_SIZE / DIR_ENTRY_SIZE. */
  const ENTRIES_PER_SECTOR := 32

  /** NR_DEFAULT_FILE_SECTS * ENTRIES_PER_SECTOR. */
  const DIR_SLOTS := 65536

  function EntrySector(nrSmap: nat, k: nat): nat { FirstSector(nrSmap) + k / ENTRIES_PER_SECTOR }

  function EntryOffset(k: nat): nat { k % ENTRIES_PER_SECTOR * DIR_ENTRY_SIZE }

  function RawDir(nrSmap: nat, disk: seq<Sector>): (r: seq<seq<Byte>>)
    requires HasLayout(nrSmap, disk)
    ensures |r| == DIR_SLOTS && forall k :: 0 <= k < |r| ==> |r[k]| == 16
  {
    seq(DIR_SLOTS, k requires 0 <= k < DIR_SLOTS =>
      disk[EntrySector(nrSmap, k)][EntryOffset(k)..EntryOffset(k) + 16])
  }

  function DecodeEntries(raw: seq<seq<Byte>>): (r: seq<Entry>)
    requires forall k :: 0 <= k < |raw| ==> |raw[k]| == 16
    ensures |r| == |raw|
  {
    if raw == [] then [] else DecodeEntries(raw[..|raw| - 1]) + [DecodeEntry(raw[|raw| - 1])]
  }

  lemma {:induction false} DecodeEntriesAt(raw: seq<seq<Byte>>, k: nat)
    requires (forall i :: 0 <= i < |raw| ==> |raw[i]| == 16) && k < |raw|
    ensures DecodeEntries(raw)[k] == DecodeEntry(raw[k])
  {
    if k < |raw| - 1 {
      DecodeEntriesAt(raw[..|raw| - 1], k);
    }
  }

  /** All entries that the root directory's extent has room for. */
  function Dir(nrSmap: nat, disk: seq<Sector>): (r: seq<Entry>)
    requires HasLayout(nrSmap, disk)
    ensures |r| == DIR_SLOTS
  {
    DecodeEntries(RawDir(nrSmap, disk))
  }

  lemma OneRawEntry(nrSmap: nat, disk: seq<Sector>, k: nat, buf: Sector)
    requires HasLayout(nrSmap, disk) && k < DIR_SLOTS
    requires forall x :: 0 <= x < SECTOR_SIZE && !(EntryOffset(k) <= x < EntryOffset(k) + 16) ==>
      buf[x] == disk[EntrySector(nrSmap, k)][x]
    ensures RawDir(nrSmap, disk[EntrySector(nrSmap, k) := buf]) ==
            RawDir(nrSmap, disk)[k := buf[EntryOffset(k)..EntryOffset(k) + 16]]
  {
    var s := EntrySector(nrSmap, k);
    var disk1 := disk[s := buf];
    forall j | 0 <= j < DIR_SLOTS && j != k
      ensures RawDir(nrSmap, disk1)[j] == RawDir(nrSmap, disk)[j]
    {
      var o := EntryOffset(j);
      if EntrySector(nrSmap, j) == s {
        assert o + 16 <= EntryOffset(k) || EntryOffset(k) + 16 <= o;
        assert disk1[s][o..o + 16] == disk[s][o..o + 16];
      }
    }
  }

  lemma OneEntry(nrSmap: nat, disk: seq<Sector>, k: nat, buf: Sector)
    requires HasLayout(nrSmap, disk) && k < DIR_SLOTS
    requires forall x :: 0 <= x < SECTOR_SIZE && !(EntryOffset(k) <= x < EntryOffset(k) + 16) ==>
      buf[x] == disk[EntrySector(nrSmap, k)][x]
    ensures Dir(nrSmap, disk[EntrySector(nrSmap, k) := buf]) ==
            Dir(nrSmap, disk)[k := DecodeEntry(buf[EntryOffset(k)..EntryOffset(k) + 16])]
  {
    OneRawEntry(nrSmap, disk, k, buf);
    var raw, bytes := RawDir(nrSmap, disk), buf[EntryOffset(k)..EntryOffset(k) + 16];
    var after, expected := DecodeEntries(raw[k := bytes]), DecodeEntries(raw)[k := DecodeEntry(bytes)];
    forall j | 0 <= j < DIR_SLOTS ensures after[j] == expected[j] {
      DecodeEntriesAt(raw, j);
      DecodeEntriesAt(raw[k := bytes], j);
    }
  }

  // ---------------------------------------------------------------- what each region leaves alone

  /** Sectors outside the inode table do not matter to it, and likewise for the directory and the maps. */
  lemma RegionsAreApart(nrSmap: nat, a: seq<Sector>, b: seq<Sector>)
    requires HasLayout(nrSmap, a) && |a| == |b|
    ensures (forall k :: InodeSector(nrSmap) <= k < FirstSector(nrSmap) ==> a[k] == b[k]) ==>
      Inodes(nrSmap, a) == Inodes(nrSmap, b)
    ensures (forall k :: FirstSector(nrSmap) <= k < FirstSector(nrSmap) + NR_DEFAULT_FILE_SECTS ==> a[k] == b[k]) ==>
      Dir(nrSmap, a) == Dir(nrSmap, b)
    ensures (forall k :: SMAP_SECTOR <= k < InodeSector(nrSmap) ==> a[k] == b[k]) ==>
      Bits(a, SMAP_SECTOR, nrSmap) == Bits(b, SMAP_SECTOR, nrSmap)
    ensures a[IMAP_SECTOR] == b[IMAP_SECTOR] ==> Bits(a, IMAP_SECTOR, 1) == Bits(b, IMAP_SECTOR, 1)
  {
    if forall k :: InodeSector(nrSmap) <= k < FirstSector(nrSmap) ==> a[k] == b[k] {
      assert RawInodes(nrSmap, a) == RawInodes(nrSmap, b);
    }
    if forall k :: FirstSector(nrSmap) <= k < FirstSector(nrSmap) + NR_DEFAULT_FILE_SECTS ==> a[k] == b[k] {
      assert RawDir(nrSmap, a) == RawDir(nrSmap, b);
    }
  }
}
