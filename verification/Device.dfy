/** Bytes, sectors, the disk and the buffer `fsbuf` through which the file system reaches it. */
module Device {

  /** The eight bits of a byte, least significant first: `(b >> k) & 1` is `b[k]`. */
  type Byte = b: seq<bool> | |b| == 8 witness seq(8, _ => false)

  const ZERO: Byte := seq(8, _ => false)
  const ONES: Byte := seq(8, _ => true)

  predicate IsNul(b: Byte) {
    forall i :: 0 <= i < 8 ==> !b[i]
  }

  const SECTOR_SIZE := 512
  const BITS_PER_SECTOR := 4096

  type Sector = s: seq<Byte> | |s| == SECTOR_SIZE witness seq(512, _ => ZERO)

  /** `b & ((~0) << n)`. */
  function ClearLow(b: Byte, n: nat): (r: Byte)
    ensures forall i :: 0 <= i < 8 ==> (r[i] <==> b[i] && i >= n)
  {
    seq(8, i requires 0 <= i < 8 => b[i] && i >= n)
  }

  lemma SliceOfFront(s: seq<Byte>, o: nat)
    requires o + 16 <= SECTOR_SIZE <= |s|
    ensures s[..SECTOR_SIZE][o..o + 16] == s[o..o + 16]
  {
  }

  class Device {
    var disk: seq<Sector>
    const fsbuf: array<Byte>

    ghost predicate Valid()
      reads this
    {
      fsbuf.Length >= SECTOR_SIZE
    }

    /** One request to the disk driver: `count` sectors from sector `n` into `fsbuf`. */
    method ReadSectors(n: nat, count: nat)
      requires n + count <= |disk| && count * SECTOR_SIZE <= fsbuf.Length
      modifies fsbuf
      ensures forall i :: 0 <= i < count ==> fsbuf[i * SECTOR_SIZE..(i + 1) * SECTOR_SIZE] == disk[n + i]
      ensures fsbuf[count * SECTOR_SIZE..] == old(fsbuf[count * SECTOR_SIZE..])
    {
      var i := 0;
      while i < count
        invariant i <= count
        invariant forall j :: 0 <= j < i ==> fsbuf[j * SECTOR_SIZE..(j + 1) * SECTOR_SIZE] == disk[n + j]
        invariant fsbuf[i * SECTOR_SIZE..] == old(fsbuf[i * SECTOR_SIZE..])
      {
        ghost var before := fsbuf[..];
        forall b | 0 <= b < SECTOR_SIZE {
          fsbuf[i * SECTOR_SIZE + b] := disk[n + i][b];
        }
        forall j | 0 <= j < i
          ensures fsbuf[j * SECTOR_SIZE..(j + 1) * SECTOR_SIZE] == before[j * SECTOR_SIZE..(j + 1) * SECTOR_SIZE]
        {
        }
        assert fsbuf[(i + 1) * SECTOR_SIZE..] == before[i * SECTOR_SIZE..][SECTOR_SIZE..];
        assert old(fsbuf[(i + 1) * SECTOR_SIZE..]) == old(fsbuf[i * SECTOR_SIZE..])[SECTOR_SIZE..];
        i := i + 1;
      }
    }

    /** `count` sectors from `fsbuf` to sector `n` and on. */
    method WriteSectors(n: nat, count: nat)
      requires n + count <= |disk| && count * SECTOR_SIZE <= fsbuf.Length
      modifies this`disk
      ensures |disk| == old(|disk|)
      ensures forall i :: 0 <= i < count ==> disk[n + i] == fsbuf[i * SECTOR_SIZE..(i + 1) * SECTOR_SIZE]
      ensures forall k :: 0 <= k < |disk| && !(n <= k < n + count) ==> disk[k] == old(disk)[k]
    {
      var i := 0;
      while i < count
        invariant i <= count && |disk| == old(|disk|)
        invariant forall j :: 0 <= j < i ==> disk[n + j] == fsbuf[j * SECTOR_SIZE..(j + 1) * SECTOR_SIZE]
        invariant forall k :: 0 <= k < |disk| && !(n <= k < n + i) ==> disk[k] == old(disk)[k]
      {
        disk := disk[n + i := fsbuf[i * SECTOR_SIZE..(i + 1) * SECTOR_SIZE]];
        i := i + 1;
      }
    }

    /** RD_SECT. */
    method RdSect(n: nat)
      requires Valid() && n < |disk|
      modifies fsbuf
      ensures fsbuf[..SECTOR_SIZE] == disk[n] && fsbuf[SECTOR_SIZE..] == old(fsbuf[SECTOR_SIZE..])
    {
      ReadSectors(n, 1);
      assert fsbuf[0 * SECTOR_SIZE..(0 + 1) * SECTOR_SIZE] == disk[n + 0];
    }

    /** WR_SECT. */
    method WrSect(n: nat)
      requires Valid() && n < |disk|
      modifies this`disk
      ensures disk == old(disk)[n := fsbuf[..SECTOR_SIZE]]
    {
      WriteSectors(n, 1);
      assert disk[n + 0] == fsbuf[0 * SECTOR_SIZE..(0 + 1) * SECTOR_SIZE];
    }
  }
}
