/** What the sectors of a file system mean: bit maps, inode records and directory entries. */
module Volume {
  import opened Device

  const ROOT_INODE := 1
  const NR_INODES := 4096
  const INODE_SIZE := 32
  const DIR_ENTRY_SIZE := 16
  const MAX_FILENAME_LEN := 12
  const NR_DEFAULT_FILE_SECTS := 2048
  const NR_CONSOLES := 3
  const I_REGULAR := 0x100000
  const I_DIRECTORY := 0x040000
  const I_CHAR_SPECIAL := 0x020000

  // ---------------------------------------------------------------- layout

  /** Sector 1 is the super block, 2 the inode map; then `nrSmap` sectors of sector map,
      256 of inode records, and the extents. */
  const IMAP_SECTOR := 2
  const SMAP_SECTOR := 3

  /** NR_INODES * INODE_SIZE / SECTOR_SIZE. */
  const NR_INODE_SECTORS := 256

  function InodeSector(nrSmap: nat): nat { SMAP_SECTOR + nrSmap }

  /** `n_1st_sector`: the first sector of the root directory's extent. */
  function FirstSector(nrSmap: nat): nat { InodeSector(nrSmap) + NR_INODE_SECTORS }

  /** The bit of the sector map that stands for `sector`, and back. */
  function BitOfSector(nrSmap: nat, sector: int): int { sector - FirstSector(nrSmap) + 1 }

  function SectorOfBit(nrSmap: nat, bit: int): int { bit - 1 + FirstSector(nrSmap) }

  /** The disk has all metadata sectors and the root directory's extent. */
  ghost predicate HasLayout(nrSmap: nat, disk: seq<Sector>) {
    nrSmap > 0 && FirstSector(nrSmap) + NR_DEFAULT_FILE_SECTS <= |disk|
  }

  // ---------------------------------------------------------------- bit maps

  /** Bit `x` of the sector at the front of a buffer. */
  predicate BufBit(buf: seq<Byte>, x: nat)
    requires x < BITS_PER_SECTOR && |buf| >= SECTOR_SIZE
  {
    buf[x / 8][x % 8]
  }

  predicate BitAt(disk: seq<Sector>, base: nat, b: nat)
    requires base + b / BITS_PER_SECTOR < |disk|
  {
    BufBit(disk[base + b / BITS_PER_SECTOR], b % BITS_PER_SECTOR)
  }

  function Bits(disk: seq<Sector>, base: nat, count: nat): (bits: seq<bool>)
    requires base + count <= |disk|
    ensures |bits| == count * BITS_PER_SECTOR
  {
    seq(count * BITS_PER_SECTOR, b requires 0 <= b < count * BITS_PER_SECTOR => BitAt(disk, base, b))
  }

  function WithRange(bits: seq<bool>, from: int, n: int, value: bool): (r: seq<bool>)
    ensures |r| == |bits|
  {
    seq(|bits|, b requires 0 <= b < |bits| => if from <= b < from + n then value else bits[b])
  }

  /** The first clear bit at or after `i`, or the length if all are set. */
  function FirstClear(bits: seq<bool>, i: nat): (f: nat)
    requires i <= |bits|
    ensures i <= f <= |bits| && (f < |bits| ==> !bits[f])
    ensures forall b :: i <= b < f ==> bits[b]
    decreases |bits| - i
  {
    if i == |bits| || !bits[i] then i else FirstClear(bits, i + 1)
  }
}
