/** The super block, which `mkfs` writes to sector 1 and `read_super_block` reads back. */
module SuperBlock {
  import opened Device
  import opened Volume
  import opened Records
  import opened InodeCache

  const SUPER_SECTOR := 1
  const MAGIC_V1 := 0x111
  const NR_FIELDS := 14

  /** SUPER_BLOCK up to `sb_dev`, which is not on the disk. */
  datatype Super = Super(magic: nat, nrInodes: nat, nrSectors: nat, nrImap: nat, nrSmap: nat, firstSector: nat,
                         nrInodeSectors: nat, rootInode: nat, inodeSize: nat, sizeOff: nat, startOff: nat,
                         entrySize: nat, inodeOff: nat, nameOff: nat)

  function Fields(sb: Super): (f: seq<nat>)
    ensures |f| == NR_FIELDS
  {
    [sb.magic, sb.nrInodes, sb.nrSectors, sb.nrImap, sb.nrSmap, sb.firstSector, sb.nrInodeSectors, sb.rootInode,
     sb.inodeSize, sb.sizeOff, sb.startOff, sb.entrySize, sb.inodeOff, sb.nameOff]
  }

  function OfFields(f: seq<nat>): (sb: Super)
    requires |f| == NR_FIELDS
    ensures Fields(sb) == f
  {
    Super(f[0], f[1], f[2], f[3], f[4], f[5], f[6], f[7], f[8], f[9], f[10], f[11], f[12], f[13])
  }

  /** The super block of a volume of `nrSectors` sectors. */
  function SuperFor(nrSectors: nat): Super {
    var nrSmap := nrSectors / BITS_PER_SECTOR + 1;
    var nrInodeSectors := BITS_PER_SECTOR * INODE_SIZE / SECTOR_SIZE;
    Super(MAGIC_V1, BITS_PER_SECTOR, nrSectors, 1, nrSmap, 1 + 1 + 1 + nrSmap + nrInodeSectors,
          nrInodeSectors, ROOT_INODE, INODE_SIZE, 4, 8, DIR_ENTRY_SIZE, 0, 4)
  }

  /** What `mkfs` computes is the layout that all other operations go by: as many sectors of each
      kind, in the same places, with a bit for every inode and for every sector of the volume. */
  lemma LayoutAgrees(nrSectors: nat)
    ensures var sb := SuperFor(nrSectors);
            sb.nrInodes == NR_INODES && sb.nrInodeSectors == NR_INODE_SECTORS &&
            IMAP_SECTOR + sb.nrImap == SMAP_SECTOR && sb.firstSector == FirstSector(sb.nrSmap) &&
            sb.nrSectors == nrSectors < sb.nrSmap * BITS_PER_SECTOR <= nrSectors + BITS_PER_SECTOR &&
            sb.magic == 0x111 && sb.rootInode == 1 && sb.inodeSize == 32 && sb.entrySize == 16
  {
  }

  /** The first 56 bytes are the fields. */
  ghost predicate Stored(sector: seq<Byte>, fields: seq<nat>) {
    4 * |fields| <= |sector| && forall j :: 0 <= j < |fields| ==> sector[4 * j..4 * j + 4] == WordBytes(fields[j])
  }

  function SuperAt(sector: Sector): Super {
    OfFields(seq<nat>(NR_FIELDS, j requires 0 <= j < NR_FIELDS => WordAt(sector, 4 * j)))
  }

  lemma SuperRoundTrip(sector: Sector, sb: Super)
    requires Stored(sector, Fields(sb)) && forall j :: 0 <= j < NR_FIELDS ==> Fields(sb)[j] < WORD_LIMIT
    ensures SuperAt(sector) == sb
  {
    var f := Fields(SuperAt(sector));
    forall j | 0 <= j < NR_FIELDS ensures f[j] == Fields(sb)[j] {
      WordRoundTrip(Fields(sb)[j], sector, 4 * j);
    }
    assert f == Fields(sb);
  }

  /** Where the fields of an inode record and of a directory entry lie, as the super block tells it. */
  lemma OffsetsAgree(nrSectors: nat, bytes: seq<Byte>)
    requires |bytes| == 16
    ensures var sb, r, e := SuperFor(nrSectors), DecodeRecord(bytes), DecodeEntry(bytes);
            sb.sizeOff == 4 && sb.startOff == 8 && sb.inodeOff == 0 && sb.nameOff == 4 &&
            r.mode == LittleEndian(bytes, 0) && r.size == LittleEndian(bytes, sb.sizeOff) &&
            r.start == LittleEndian(bytes, sb.startOff) && r.sectors == LittleEndian(bytes, 12) &&
            e.inode == LittleEndian(bytes, sb.inodeOff) && e.name == bytes[sb.nameOff..16]
  {
    WordIsLittleEndian(bytes, 0);
    WordIsLittleEndian(bytes, 4);
    WordIsLittleEndian(bytes, 8);
    WordIsLittleEndian(bytes, 12);
  }

  /** The fourteen fields follow each other from the start of the sector, four bytes each. */
  lemma SuperLayout(sector: Sector)
    ensures var sb := SuperAt(sector);
            var at := seq<nat>(NR_FIELDS, j requires 0 <= j < NR_FIELDS => LittleEndian(sector, 4 * j));
            sb.magic == at[0] && sb.nrInodes == at[1] && sb.nrSectors == at[2] && sb.nrImap == at[3] &&
            sb.nrSmap == at[4] && sb.firstSector == at[5] && sb.nrInodeSectors == at[6] && sb.rootInode == at[7] &&
            sb.inodeSize == at[8] && sb.sizeOff == at[9] && sb.startOff == at[10] && sb.entrySize == at[11] &&
            sb.inodeOff == at[12] && sb.nameOff == at[13]
  {
    var f := Fields(SuperAt(sector));
    forall j | 0 <= j < NR_FIELDS ensures f[j] == LittleEndian(sector, 4 * j) {
      WordIsLittleEndian(sector, 4 * j);
    }
  }

  /** `kmemset(fsbuf, 0x90, SECTOR_SIZE)`. */
  const FILL: Byte := BitsOf(0x90, 8)

  lemma SameWord(a: seq<Byte>, b: seq<Byte>, o: nat)
    requires o + 4 <= |a| && o + 4 <= |b| && forall x :: o <= x < o + 4 ==> a[x] == b[x]
    ensures a[o..o + 4] == b[o..o + 4]
  {
  }

  lemma OneMoreField(before: seq<Byte>, after: seq<Byte>, fields: seq<nat>, i: nat)
    requires i < |fields| && |after| == |before| >= 4 * (i + 1) && Stored(before, fields[..i])
    requires after[4 * i..4 * i + 4] == WordBytes(fields[i])
    requires forall x :: 0 <= x < 4 * i ==> after[x] == before[x]
    ensures Stored(after, fields[..i + 1])
  {
    forall j | 0 <= j <= i ensures after[4 * j..4 * j + 4] == WordBytes(fields[j]) {
      if j < i {
        SameWord(after, before, 4 * j);
        assert before[4 * j..4 * j + 4] == WordBytes(fields[..i][j]);
      }
    }
  }

  /** `kmemset` and `kmemcpy` of the super block into the buffer. */
  method FillSuper(dev: Device, fields: seq<nat>)
    requires dev.Valid() && 4 * |fields| <= SECTOR_SIZE
    modifies dev.fsbuf
    ensures Stored(dev.fsbuf[..SECTOR_SIZE], fields)
    ensures forall x :: 4 * |fields| <= x < SECTOR_SIZE ==> dev.fsbuf[x] == FILL
  {
    forall x | 0 <= x < SECTOR_SIZE {
      dev.fsbuf[x] := FILL;
    }
    var i := 0;
    while i < |fields|
      invariant i <= |fields| && Stored(dev.fsbuf[..SECTOR_SIZE], fields[..i])
      invariant forall x :: 4 * i <= x < SECTOR_SIZE ==> dev.fsbuf[x] == FILL
    {
      ghost var before := dev.fsbuf[..SECTOR_SIZE];
      PutWord(dev, 4 * i, fields[i]);
      ghost var after := dev.fsbuf[..SECTOR_SIZE];
      SameWord(after, dev.fsbuf[..], 4 * i);
      assert dev.fsbuf[..][4 * i..4 * i + 4] == dev.fsbuf[4 * i..4 * i + 4];
      OneMoreField(before, after, fields, i);
      i := i + 1;
    }
    assert fields[..i] == fields;
  }

  /** The first part of `mkfs`. */
  method WriteSuper(dev: Device) returns (sb: Super)
    requires dev.Valid() && SUPER_SECTOR < |dev.disk| < WORD_LIMIT && SuperFor(|dev.disk|).firstSector < WORD_LIMIT
    modifies dev`disk, dev.fsbuf
    ensures sb == SuperFor(|dev.disk|) && |dev.disk| == old(|dev.disk|) && SuperAt(dev.disk[SUPER_SECTOR]) == sb
    ensures forall x :: 4 * NR_FIELDS <= x < SECTOR_SIZE ==> dev.disk[SUPER_SECTOR][x] == FILL
    ensures forall k :: 0 <= k < |dev.disk| && k != SUPER_SECTOR ==> dev.disk[k] == old(dev.disk)[k]
  {
    sb := SuperFor(|dev.disk|);
    FillSuper(dev, Fields(sb));
    ghost var buf: Sector := dev.fsbuf[..SECTOR_SIZE];
    dev.WrSect(SUPER_SECTOR);
    SuperRoundTrip(buf, sb);
  }

  /** `read_super_block`. */
  method ReadSuper(dev: Device) returns (sb: Super)
    requires dev.Valid() && SUPER_SECTOR < |dev.disk|
    modifies dev.fsbuf
    ensures sb == SuperAt(dev.disk[SUPER_SECTOR])
  {
    dev.RdSect(SUPER_SECTOR);
    sb := SuperAt(dev.fsbuf[..SECTOR_SIZE]);
  }
}
