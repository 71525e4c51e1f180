/** The data path of `do_rdwt`: bytes that start and end anywhere are moved through a buffer of whole sectors. */
module FileData {
  import opened Device

  function Min(a: int, b: int): int {
    if a < b then a else b
  }

  /** The disk as one array of bytes. */
  function ByteAt(disk: seq<Sector>, a: nat): Byte
    requires a / SECTOR_SIZE < |disk|
  {
    disk[a / SECTOR_SIZE][a % SECTOR_SIZE]
  }

  /** `disk1` is `disk0` with the `n` bytes from `a` replaced by `data`, and not a byte more. */
  ghost predicate Overwritten(disk0: seq<Sector>, disk1: seq<Sector>, a: nat, n: int, data: seq<Byte>)
  {
    |disk1| == |disk0| && 0 <= n <= |data| &&
    forall x: nat :: x / SECTOR_SIZE < |disk0| ==>
      ByteAt(disk1, x) == if a <= x < a + n then data[x - a] else ByteAt(disk0, x)
  }

  ghost predicate Fetched(data: seq<Byte>, disk: seq<Sector>, a: nat, n: int) {
    0 <= n <= |data| && (n > 0 ==> (a + n - 1) / SECTOR_SIZE < |disk|) &&
    forall k :: 0 <= k < n ==> data[k] == ByteAt(disk, a + k)
  }

  /** The front of `buf` is the `count` sectors from `n`. */
  ghost predicate Holds(buf: seq<Byte>, disk: seq<Sector>, n: nat, count: nat) {
    n + count <= |disk| && count * SECTOR_SIZE <= |buf| &&
    forall z :: 0 <= z < count * SECTOR_SIZE ==> buf[z] == ByteAt(disk, n * SECTOR_SIZE + z)
  }

  method Fetch(dev: Device, n: nat, count: nat)
    requires n + count <= |dev.disk| && count * SECTOR_SIZE <= dev.fsbuf.Length
    modifies dev.fsbuf
    ensures Holds(dev.fsbuf[..], dev.disk, n, count)
  {
    dev.ReadSectors(n, count);
    forall z | 0 <= z < count * SECTOR_SIZE
      ensures dev.fsbuf[z] == ByteAt(dev.disk, n * SECTOR_SIZE + z)
    {
      var i := z / SECTOR_SIZE;
      assert dev.fsbuf[i * SECTOR_SIZE..(i + 1) * SECTOR_SIZE][z % SECTOR_SIZE] == dev.disk[n + i][z % SECTOR_SIZE];
      assert (n * SECTOR_SIZE + z) / SECTOR_SIZE == n + i;
    }
  }

  method Store(dev: Device, n: nat, count: nat)
    requires n + count <= |dev.disk| && count * SECTOR_SIZE <= dev.fsbuf.Length
    modifies dev`disk
    ensures |dev.disk| == old(|dev.disk|) && Holds(dev.fsbuf[..], dev.disk, n, count)
    ensures forall x: nat :: x / SECTOR_SIZE < |dev.disk| && !(n * SECTOR_SIZE <= x < (n + count) * SECTOR_SIZE) ==>
      ByteAt(dev.disk, x) == old(ByteAt(dev.disk, x))
  {
    dev.WriteSectors(n, count);
    forall z | 0 <= z < count * SECTOR_SIZE
      ensures dev.fsbuf[z] == ByteAt(dev.disk, n * SECTOR_SIZE + z)
    {
      var i := z / SECTOR_SIZE;
      assert dev.fsbuf[i * SECTOR_SIZE..(i + 1) * SECTOR_SIZE][z % SECTOR_SIZE] == dev.disk[n + i][z % SECTOR_SIZE];
      assert (n * SECTOR_SIZE + z) / SECTOR_SIZE == n + i;
    }
  }

  /** One round of a write: `sectors` was read from `disk1`, the next `bytes` bytes of `data`
      were put into it at `off`, and the result `next` was stored. */
  lemma RoundWritten(disk0: seq<Sector>, disk1: seq<Sector>, disk2: seq<Sector>, a: nat, n: int, data: seq<Byte>,
                     i: nat, chunk: nat, off: nat, bytes: nat, sectors: seq<Byte>, next: seq<Byte>)
    requires Overwritten(disk0, disk1, a, n, data) && n + bytes <= |data| && off + bytes <= chunk * SECTOR_SIZE
    requires bytes > 0 ==> i * SECTOR_SIZE + off == a + n
    requires Holds(sectors, disk1, i, chunk) && Holds(next, disk2, i, chunk) && |disk2| == |disk1|
    requires forall z :: 0 <= z < chunk * SECTOR_SIZE ==>
      next[z] == if off <= z < off + bytes then data[n + z - off] else sectors[z]
    requires forall x: nat :: x / SECTOR_SIZE < |disk1| && !(i * SECTOR_SIZE <= x < (i + chunk) * SECTOR_SIZE) ==>
      ByteAt(disk2, x) == ByteAt(disk1, x)
    ensures Overwritten(disk0, disk2, a, n + bytes, data)
  {
    forall x: nat | x / SECTOR_SIZE < |disk0|
      ensures ByteAt(disk2, x) == if a <= x < a + n + bytes then data[x - a] else ByteAt(disk0, x)
    {
      assert ByteAt(disk1, x) == if a <= x < a + n then data[x - a] else ByteAt(disk0, x);
      if i * SECTOR_SIZE <= x < (i + chunk) * SECTOR_SIZE {
        var z := x - i * SECTOR_SIZE;
        assert ByteAt(disk2, i * SECTOR_SIZE + z) == next[z];
        assert ByteAt(disk1, i * SECTOR_SIZE + z) == sectors[z];
      }
    }
  }

  /** The first `n` bytes have been moved and nothing else has changed. */
  ghost predicate Moved(write: bool, disk0: seq<Sector>, disk: seq<Sector>, buf0: seq<Byte>, buf: seq<Byte>,
                        a: nat, n: nat) {
    |buf| == |buf0| && n <= |buf| &&
    if write then buf == buf0 && Overwritten(disk0, disk, a, n, buf)
    else disk == disk0 && buf[n..] == buf0[n..] && Fetched(buf, disk, a, n)
  }

  /** One round of the loop: `chunk` sectors from sector `i` into the buffer, `bytes` bytes
      copied at `off`, and for a write the sectors back. */
  method Round(dev: Device, write: bool, i: nat, chunk: nat, off: nat, bytes: nat, bytesRw: nat, buf: array<Byte>,
               ghost disk0: seq<Sector>, ghost buf0: seq<Byte>, ghost a: nat)
    requires dev.fsbuf != buf && bytesRw + bytes <= buf.Length
    requires i + chunk <= |dev.disk| && off + bytes <= chunk * SECTOR_SIZE <= dev.fsbuf.Length
    requires bytes > 0 ==> i * SECTOR_SIZE + off == a + bytesRw
    requires Moved(write, disk0, dev.disk, buf0, buf[..], a, bytesRw)
    modifies dev`disk, dev.fsbuf, buf
    ensures |dev.disk| == old(|dev.disk|)
    ensures Moved(write, disk0, dev.disk, buf0, buf[..], a, bytesRw + bytes)
  {
    Fetch(dev, i, chunk);
    ghost var sectors := dev.fsbuf[..];
    if !write {
      forall k | 0 <= k < bytes {
        buf[bytesRw + k] := dev.fsbuf[off + k];
      }
      forall k | 0 <= k < bytesRw + bytes ensures buf[k] == ByteAt(dev.disk, a + k) {
        assert k >= bytesRw ==> sectors[off + k - bytesRw] == ByteAt(dev.disk, i * SECTOR_SIZE + (off + k - bytesRw));
      }
    } else {
      forall k | 0 <= k < bytes {
        dev.fsbuf[off + k] := buf[bytesRw + k];
      }
      ghost var next := dev.fsbuf[..];
      ghost var before := dev.disk;
      Store(dev, i, chunk);
      RoundWritten(disk0, before, dev.disk, a, bytesRw, buf[..], i, chunk, off, bytes, sectors, next);
    }
  }

  /** The first sector number at or after `i`, in steps of `chunk`, that is past `max`. */
  function Past(i: nat, max: nat, chunk: nat): (e: nat)
    requires chunk > 0
    ensures e > max && e >= i && (i <= max + 1 ==> e <= max + chunk)
    decreases max + 1 - i
  {
    if i > max then i else Past(i + chunk, max, chunk)
  }

  /** How many sectors from the start of its extent the loop goes, when it goes from `pos` to `posEnd`. */
  function Touched(pos: nat, posEnd: nat, bufSectors: nat): (n: nat)
    requires bufSectors > 0
    ensures n <= 2 * (posEnd / SECTOR_SIZE) + 1
  {
    var min, max := pos / SECTOR_SIZE, posEnd / SECTOR_SIZE;
    if max < min then 0 else Past(min, max, Min(max - min + 1, bufSectors))
  }

  /** How many bytes the loop moves: it counts down from `len` and stops with the last chunk,
      which may lie beyond `posEnd`. */
  function Covered(pos: nat, len: nat, posEnd: nat, bufSectors: nat): (n: nat)
    requires bufSectors > 0
    ensures n <= len && (n > 0 ==> pos + n <= Touched(pos, posEnd, bufSectors) * SECTOR_SIZE)
  {
    var min, max := pos / SECTOR_SIZE, posEnd / SECTOR_SIZE;
    if max < min then 0 else Min(len, (Touched(pos, posEnd, bufSectors) - min) * SECTOR_SIZE - pos % SECTOR_SIZE)
  }

  /** The end position is honoured exactly when the request stays within the limit from which it
      was computed; otherwise more bytes are moved than the limit allows. */
  lemma LimitHonoured(pos: nat, len: nat, limit: nat, bufSectors: nat)
    requires pos <= limit && bufSectors > 0
    ensures var n := Covered(pos, len, Min(pos + len, limit), bufSectors);
            (pos + len <= limit <==> pos + n <= limit) && (pos + len <= limit ==> n == len)
  {
  }

  /** The loop ends after as many whole chunks as it takes to get past `max`. */
  lemma {:induction false} PastIs(i: nat, max: nat, chunk: nat, rounds: nat)
    requires chunk > 0 && i <= max + 1
    requires (rounds > 0 ==> i + (rounds - 1) * chunk <= max) && i + rounds * chunk > max
    ensures Past(i, max, chunk) == i + rounds * chunk
    decreases rounds
  {
    if rounds > 0 {
      assert i + chunk + (rounds - 1) * chunk == i + rounds * chunk;
      if rounds > 1 {
        assert i + chunk + (rounds - 2) * chunk == i + (rounds - 1) * chunk;
        PastIs(i + chunk, max, chunk, rounds - 1);
      }
    }
  }

  /** How many sectors are read, when from the first to the last it is `span` sectors and `bufSectors`
      are moved at a time: whole chunks of the smaller of the two. */
  function WholeChunks(span: nat, bufSectors: nat): nat
    requires span > 0 && bufSectors > 0
  {
    if span <= bufSectors then span else (span + bufSectors - 1) / bufSectors * bufSectors
  }

  lemma TouchedIs(pos: nat, posEnd: nat, bufSectors: nat)
    requires bufSectors > 0 && pos / SECTOR_SIZE <= posEnd / SECTOR_SIZE
    ensures Touched(pos, posEnd, bufSectors) ==
            pos / SECTOR_SIZE + WholeChunks(posEnd / SECTOR_SIZE - pos / SECTOR_SIZE + 1, bufSectors)
  {
    var min, max := pos / SECTOR_SIZE, posEnd / SECTOR_SIZE;
    var span := max - min + 1;
    if span <= bufSectors {
      PastIs(min, max, span, 1);
    } else {
      var rounds := (span + bufSectors - 1) / bufSectors;
      RoundsCover(span, bufSectors);
      PastIs(min, max, bufSectors, rounds);
    }
  }

  lemma RoundsCover(span: nat, chunk: nat)
    requires span > 0 && chunk > 0
    ensures var rounds := (span + chunk - 1) / chunk;
            rounds > 0 && (rounds - 1) * chunk < span <= rounds * chunk
  {
    var rounds, rest := (span + chunk - 1) / chunk, (span + chunk - 1) % chunk;
    assert rounds * chunk + rest == span + chunk - 1;
    assert (rounds - 1) * chunk == rounds * chunk - chunk;
  }

  lemma {:induction false} PastShifts(start: nat, i: nat, max: nat, chunk: nat)
    requires chunk > 0
    ensures Past(start + i, start + max, chunk) == start + Past(i, max, chunk)
    decreases max + 1 - i
  {
    if i <= max {
      PastShifts(start, i + chunk, max, chunk);
    }
  }

  /** The loop of `do_rdwt`, from sector `min` to `max`. */
  method Rounds(dev: Device, write: bool, min: nat, max: nat, chunk: nat, off0: nat, len: nat, buf: array<Byte>)
    returns (bytesRw: nat)
    requires dev.fsbuf != buf && buf.Length >= len && 0 < chunk * SECTOR_SIZE <= dev.fsbuf.Length
    requires min <= max && Past(min, max, chunk) <= |dev.disk| && off0 < SECTOR_SIZE
    modifies dev`disk, dev.fsbuf, buf
    ensures bytesRw == Min(len, (Past(min, max, chunk) - min) * SECTOR_SIZE - off0)
    ensures Moved(write, old(dev.disk), dev.disk, old(buf[..]), buf[..], min * SECTOR_SIZE + off0, bytesRw)
  {
    var off := off0;
    ghost var a := min * SECTOR_SIZE + off0;
    bytesRw := 0;
    var bytesLeft := len;
    var i := min;
    while i <= max
      invariant min <= i && bytesLeft == len - bytesRw >= 0
      invariant off == if i == min then off0 else 0
      invariant bytesRw == if i == min then 0 else Min(len, (i - min) * SECTOR_SIZE - off0)
      invariant Past(i, max, chunk) == Past(min, max, chunk)
      invariant |dev.disk| == old(|dev.disk|)
      invariant Moved(write, old(dev.disk), dev.disk, old(buf[..]), buf[..], a, bytesRw)
      decreases max + chunk - i
    {
      var bytes := Min(bytesLeft, chunk * SECTOR_SIZE - off);
      Round(dev, write, i, chunk, off, bytes, bytesRw, buf, old(dev.disk), old(buf[..]), a);
      off := 0;
      bytesRw := bytesRw + bytes;
      bytesLeft := bytesLeft - bytes;
      i := i + chunk;
    }
  }

  /** The core of `do_rdwt`: moves bytes between `buf` and the disk from file position `pos` of
      the extent at sector `start`, `chunk` sectors at a time.  Every round transfers whole
      sectors, so sectors that only border on the range are read and written back as well.  With
      an end before the position the loop has no rounds. */
  method Transfer(dev: Device, write: bool, start: nat, pos: nat, len: nat, posEnd: nat, buf: array<Byte>)
    returns (bytesRw: nat)
    requires dev.fsbuf != buf && buf.Length >= len && dev.fsbuf.Length >= SECTOR_SIZE
    requires start + Touched(pos, posEnd, dev.fsbuf.Length / SECTOR_SIZE) <= |dev.disk|
    modifies dev`disk, dev.fsbuf, buf
    ensures bytesRw == Covered(pos, len, posEnd, dev.fsbuf.Length / SECTOR_SIZE)
    ensures Moved(write, old(dev.disk), dev.disk, old(buf[..]), buf[..], start * SECTOR_SIZE + pos, bytesRw)
  {
    var off := pos % SECTOR_SIZE;
    var first: nat := pos / SECTOR_SIZE;
    var last: nat := posEnd / SECTOR_SIZE;
    if last < first {
      return 0;
    }
    var chunk := Min(last - first + 1, dev.fsbuf.Length / SECTOR_SIZE);
    PastShifts(start, first, last, chunk);
    bytesRw := Rounds(dev, write, start + first, start + last, chunk, off, len, buf);
  }

  // ---------------------------------------------------------------- a file as an array of bytes

  /** The bytes of the `sectors` sectors from `start`. */
  function Extent(disk: seq<Sector>, start: nat, sectors: nat): (bytes: seq<Byte>)
    requires start + sectors <= |disk|
    ensures |bytes| == sectors * SECTOR_SIZE
  {
    seq<Byte>(sectors * SECTOR_SIZE, x requires 0 <= x < sectors * SECTOR_SIZE => ByteAt(disk, start * SECTOR_SIZE + x))
  }

  /** Seen through its own extent, a write replaces bytes [pos, pos + n); seen through any
      extent apart from it, it changes nothing. */
  lemma WriteIsLocal(disk0: seq<Sector>, disk1: seq<Sector>, start: nat, sectors: nat, pos: nat, n: nat,
                     data: seq<Byte>, other: nat, otherSectors: nat)
    requires Overwritten(disk0, disk1, start * SECTOR_SIZE + pos, n, data)
    requires start + sectors <= |disk0| && pos + n <= sectors * SECTOR_SIZE
    requires other + otherSectors <= |disk0| && (other + otherSectors <= start || start + sectors <= other)
    ensures Extent(disk1, start, sectors) ==
            Extent(disk0, start, sectors)[..pos] + data[..n] + Extent(disk0, start, sectors)[pos + n..]
    ensures Extent(disk1, other, otherSectors) == Extent(disk0, other, otherSectors)
  {
  }

  /** What was written is what is read back, wherever the two transfers cut it into chunks. */
  lemma ReadBack(disk0: seq<Sector>, disk1: seq<Sector>, a: nat, n: nat, written: seq<Byte>, read: seq<Byte>)
    requires Overwritten(disk0, disk1, a, n, written) && Fetched(read, disk1, a, n)
    ensures read[..n] == written[..n]
  {
  }
}
