/** First-fit allocation in the bit maps and the release of a range of bits: a first byte, whole
    bytes and a last byte, over sector boundaries, each loop proved against the bits of the map
    as one sequence. */
module SectorMap {
  import opened Device
  import opened Volume

  // ---------------------------------------------------------------- one sector of a map, in the buffer

  /** `buf` with the bits of [from, from + n) made `value`; `lo` is the number of its first bit. */
  ghost predicate Painted(old_: seq<Byte>, buf: seq<Byte>, lo: int, from: int, n: int, value: bool) {
    |buf| == |old_| >= SECTOR_SIZE && buf[SECTOR_SIZE..] == old_[SECTOR_SIZE..] &&
    forall x :: 0 <= x < BITS_PER_SECTOR ==>
      BufBit(buf, x) == if from <= lo + x < from + n then value else BufBit(old_, x)
  }

  /** Reading a sector of the map, painting its share of a range and writing it back. */
  lemma PaintSector(disk: seq<Sector>, base: nat, count: nat, i: nat, read: seq<Byte>, buf: seq<Byte>,
                    bits: seq<bool>, from: int, n: int, m: int, value: bool)
    requires base + count <= |disk| && i < count && |bits| == count * BITS_PER_SECTOR && 0 <= n <= m
    requires Bits(disk, base, count) == WithRange(bits, from, n, value)
    requires |read| >= SECTOR_SIZE && read[..SECTOR_SIZE] == disk[base + i]
    requires Painted(read, buf, i * BITS_PER_SECTOR, from, m, value)
    requires n == m || (from + n >= i * BITS_PER_SECTOR && from + m <= (i + 1) * BITS_PER_SECTOR)
    ensures Bits(disk[base + i := buf[..SECTOR_SIZE]], base, count) == WithRange(bits, from, m, value)
  {
    var disk' := disk[base + i := buf[..SECTOR_SIZE]];
    forall b | 0 <= b < count * BITS_PER_SECTOR
      ensures BitAt(disk', base, b) == if from <= b < from + m then value else bits[b]
    {
      assert BitAt(disk, base, b) == WithRange(bits, from, n, value)[b];
      if b / BITS_PER_SECTOR == i {
        assert BufBit(buf, b % BITS_PER_SECTOR) == BitAt(disk', base, b);
        assert BufBit(read, b % BITS_PER_SECTOR) == BitAt(disk, base, b);
      }
    }
  }

  /** What the buffer holds after reading sector `i` of a map painted so far. */
  lemma SectorOfMap(disk: seq<Sector>, base: nat, count: nat, i: nat, read: seq<Byte>,
                    bits: seq<bool>, from: int, n: int)
    requires base + count <= |disk| && i < count && |bits| == count * BITS_PER_SECTOR
    requires |read| >= SECTOR_SIZE && read[..SECTOR_SIZE] == disk[base + i]
    requires Bits(disk, base, count) == WithRange(bits, from, n, true)
    ensures forall x :: 0 <= x < BITS_PER_SECTOR ==>
      BufBit(read, x) == (bits[i * BITS_PER_SECTOR + x] || from <= i * BITS_PER_SECTOR + x < from + n)
  {
    forall x | 0 <= x < BITS_PER_SECTOR
      ensures BufBit(read, x) == (bits[i * BITS_PER_SECTOR + x] || from <= i * BITS_PER_SECTOR + x < from + n)
    {
      assert (i * BITS_PER_SECTOR + x) / BITS_PER_SECTOR == i;
      assert BufBit(read, x) == BufBit(disk[base + i], x);
      assert BitAt(disk, base, i * BITS_PER_SECTOR + x) == WithRange(bits, from, n, true)[i * BITS_PER_SECTOR + x];
    }
  }

  // ---------------------------------------------------------------- alloc_smap_bit

  /** The first clear bit starts a run of `n` clear bits inside the map. */
  ghost predicate CanAlloc(bits: seq<bool>, n: nat) {
    var f := FirstClear(bits, 0);
    f + n <= |bits| && forall b :: f <= b < f + n ==> !bits[b]
  }

  /** Sets bits of byte `j` from bit `k` up, at most `left` of them; each is clear before. */
  method FillByte(dev: Device, j: nat, k0: nat, left0: nat) returns (left: nat)
    requires j < dev.fsbuf.Length && k0 < 8 && left0 > 0
    requires forall y :: k0 <= y < 8 && y < k0 + left0 ==> !dev.fsbuf[j][y]
    modifies dev.fsbuf
    ensures left == if left0 <= 8 - k0 then 0 else left0 - (8 - k0)
    ensures forall y :: 0 <= y < 8 ==> dev.fsbuf[j][y] == (old(dev.fsbuf[j])[y] || k0 <= y < k0 + left0)
    ensures forall x :: 0 <= x < dev.fsbuf.Length && x != j ==> dev.fsbuf[x] == old(dev.fsbuf[x])
  {
    left := left0;
    var k := k0;
    while k < 8
      invariant k0 <= k <= 8 && left == left0 - (k - k0) > 0
      invariant forall y :: 0 <= y < 8 ==> dev.fsbuf[j][y] == (old(dev.fsbuf[j])[y] || k0 <= y < k)
      invariant forall x :: 0 <= x < dev.fsbuf.Length && x != j ==> dev.fsbuf[x] == old(dev.fsbuf[x])
    {
      assert !dev.fsbuf[j][k];
      dev.fsbuf[j] := dev.fsbuf[j][k := true];
      left := left - 1;
      if left == 0 {
        break;
      }
      k := k + 1;
    }
  }

  /** One more byte of a sector painted. */
  lemma FilledByte(buf: seq<Byte>, now: seq<Byte>, next: seq<Byte>, lo: int, f: int, j: nat, k: nat,
                   done: int, left: nat, done': int)
    requires Painted(buf, now, lo, f, done, true) && |next| == |now| && j < SECTOR_SIZE && k < 8
    requires done >= 0 && f + done == lo + 8 * j + k && done' == done + (if left <= 8 - k then left else 8 - k)
    requires forall y :: 0 <= y < 8 ==> next[j][y] == (now[j][y] || k <= y < k + left)
    requires forall x :: 0 <= x < |now| && x != j ==> next[x] == now[x]
    ensures Painted(buf, next, lo, f, done', true)
  {
  }

  /** A clear bit at or after a byte that is 0xFF lies beyond it. */
  lemma PastFullByte(buf: seq<Byte>, j: nat, lo: int, f: int)
    requires |buf| >= SECTOR_SIZE && j < SECTOR_SIZE && buf[j] == ONES && f >= lo + 8 * j
    requires forall x :: 0 <= x < BITS_PER_SECTOR && BufBit(buf, x) ==> lo + x != f
    ensures f >= lo + 8 * j + 8
  {
    forall x | 8 * j <= x < 8 * j + 8 ensures BufBit(buf, x) {
      assert x / 8 == j;
    }
    assert f < lo + 8 * j + 8 ==> !BufBit(buf, f - lo);
  }

  /** The loop over the bytes of sector `i` of the map, which is in `fsbuf`.  `f` is the
      first clear bit of the whole map and `bits` the map before the allocation. */
  method FillSector(dev: Device, nrSmap: nat, n: nat, i: nat, sector0: nat, left0: nat,
                    ghost bits: seq<bool>, ghost f: nat)
    returns (sector: nat, left: nat)
    requires dev.Valid() && i < nrSmap && |bits| == nrSmap * BITS_PER_SECTOR
    requires 0 < left0 <= n && f + n <= |bits| && forall b :: f <= b < f + n ==> !bits[b]
    requires forall b :: 0 <= b < f ==> bits[b]
    requires left0 == n || f + n - left0 == i * BITS_PER_SECTOR
    requires if left0 == n then sector0 == 0 && f >= i * BITS_PER_SECTOR else sector0 == SectorOfBit(nrSmap, f)
    requires forall x :: 0 <= x < BITS_PER_SECTOR ==>
      BufBit(dev.fsbuf[..], x) == (bits[i * BITS_PER_SECTOR + x] || f <= i * BITS_PER_SECTOR + x < f + n - left0)
    modifies dev.fsbuf
    ensures left <= left0 && (left == n || left == 0 || f + n - left == (i + 1) * BITS_PER_SECTOR)
    ensures f + n - left <= (i + 1) * BITS_PER_SECTOR || left == n
    ensures if left == n then sector == 0 && f >= (i + 1) * BITS_PER_SECTOR else sector == SectorOfBit(nrSmap, f)
    ensures Painted(old(dev.fsbuf[..]), dev.fsbuf[..], i * BITS_PER_SECTOR, f, n - left, true)
  {
    ghost var buf := dev.fsbuf[..];
    ghost var lo := i * BITS_PER_SECTOR;
    sector, left := sector0, left0;
    var j := 0;
    while j < SECTOR_SIZE && left > 0
      invariant j <= SECTOR_SIZE && left <= left0
      invariant left == n || left == 0 || f + n - left == lo + 8 * j
      invariant f + n - left <= lo + 8 * j || left == n
      invariant if left == n then sector == 0 && f >= lo + 8 * j else sector == SectorOfBit(nrSmap, f)
      invariant Painted(buf, dev.fsbuf[..], lo, f, n - left, true)
    {
      ghost var now := dev.fsbuf[..];
      assert forall y :: 0 <= y < 8 ==> now[j][y] == BufBit(now, 8 * j + y);
      var k := 0;
      if sector == 0 {
        if dev.fsbuf[j] == ONES {
          PastFullByte(now, j, lo, f);
          j := j + 1;
          continue;
        }
        assert exists y :: 0 <= y < 8 && !now[j][y];
        while dev.fsbuf[j][k]
          invariant k < 8 && f >= lo + 8 * j + k && forall y :: 0 <= y < k ==> now[j][y]
          decreases 8 - k
        {
          assert bits[lo + 8 * j + k];
          k := k + 1;
        }
        assert !bits[lo + 8 * j + k];
        sector := (i * SECTOR_SIZE + j) * 8 + k - 1 + FirstSector(nrSmap);
      }
      ghost var left1 := left;
      left := FillByte(dev, j, k, left);
      FilledByte(buf, now, dev.fsbuf[..], lo, f, j, k, n - left1, left1, n - left);
      j := j + 1;
    }
  }

  /** `alloc_smap_bit`: takes the first clear bit of the map and the `n - 1` after it.  The
      kernel asserts that each is clear and that they fit. */
  method AllocSmapBit(dev: Device, nrSmap: nat, n: nat) returns (sector: nat)
    requires dev.Valid() && HasLayout(nrSmap, dev.disk) && n > 0
    requires CanAlloc(Bits(dev.disk, SMAP_SECTOR, nrSmap), n)
    modifies dev`disk, dev.fsbuf
    ensures |dev.disk| == old(|dev.disk|)
    ensures var bits := old(Bits(dev.disk, SMAP_SECTOR, nrSmap));
            var f := FirstClear(bits, 0);
            sector == SectorOfBit(nrSmap, f) &&
            Bits(dev.disk, SMAP_SECTOR, nrSmap) == WithRange(bits, f, n, true)
    ensures forall k :: 0 <= k < |dev.disk| && !(SMAP_SECTOR <= k < SMAP_SECTOR + nrSmap) ==>
      dev.disk[k] == old(dev.disk)[k]
  {
    ghost var disk0 := dev.disk;
    ghost var bits := Bits(disk0, SMAP_SECTOR, nrSmap);
    ghost var f := FirstClear(bits, 0);
    sector := 0;
    var left := n;
    var i := 0;
    assert WithRange(bits, f, 0, true) == bits;
    while i < nrSmap
      invariant i <= nrSmap && 0 < left <= n && |dev.disk| == |disk0|
      invariant left == n || f + n - left == i * BITS_PER_SECTOR
      invariant if left == n then sector == 0 && f >= i * BITS_PER_SECTOR else sector == SectorOfBit(nrSmap, f)
      invariant Bits(dev.disk, SMAP_SECTOR, nrSmap) == WithRange(bits, f, n - left, true)
      invariant forall k :: 0 <= k < |disk0| && !(SMAP_SECTOR <= k < SMAP_SECTOR + nrSmap) ==> dev.disk[k] == disk0[k]
    {
      ghost var disk := dev.disk;
      dev.RdSect(SMAP_SECTOR + i);
      ghost var read := dev.fsbuf[..];
      SectorOfMap(disk, SMAP_SECTOR, nrSmap, i, read, bits, f, n - left);
      ghost var left0 := left;
      sector, left := FillSector(dev, nrSmap, n, i, sector, left, bits, f);
      PaintSector(disk, SMAP_SECTOR, nrSmap, i, read, dev.fsbuf[..], bits, f, n - left0, n - left, true);
      if sector != 0 {
        dev.WrSect(SMAP_SECTOR + i);
      }
      if left == 0 {
        break;
      }
      i := i + 1;
    }
    assert left == 0;
  }

  // ---------------------------------------------------------------- the release loop of do_unlink

  /** C division, which truncates toward zero. */
  function TruncDiv(a: int, b: nat): int
    requires b > 0
  {
    if a >= 0 then a / b else -(-a / b)
  }

  /** The disk as it will be once the sector in `buf` is written back to sector `s`. */
  ghost function Flushed(disk: seq<Sector>, s: nat, buf: seq<Byte>): seq<Sector>
    requires s < |disk| && |buf| >= SECTOR_SIZE
  {
    disk[s := buf[..SECTOR_SIZE]]
  }

  /** With the buffer written back, bits [b, b + m) of the map are clear, the others are as in
      `bits`, and no other sector differs from `disk0`. */
  ghost predicate Cleared(disk0: seq<Sector>, disk: seq<Sector>, s: nat, buf: seq<Byte>, nrSmap: nat,
                          bits: seq<bool>, b: int, m: int) {
    |disk| == |disk0| && HasLayout(nrSmap, disk) && s < |disk| && |buf| >= SECTOR_SIZE &&
    Bits(Flushed(disk, s, buf), SMAP_SECTOR, nrSmap) == WithRange(bits, b, m, false) &&
    forall k :: 0 <= k < |disk| && !(SMAP_SECTOR <= k < SMAP_SECTOR + nrSmap) ==> Flushed(disk, s, buf)[k] == disk0[k]
  }

  /** Replacing byte `i` of sector `t` of the map extends the cleared range from `m` to `m1` bits. */
  lemma ClearMore(disk0: seq<Sector>, disk: seq<Sector>, t: nat, buf: seq<Byte>, buf1: seq<Byte>, nrSmap: nat,
                  bits: seq<bool>, b: int, m: int, m1: int, i: nat, byte: Byte)
    requires |bits| == nrSmap * BITS_PER_SECTOR && 0 <= m <= m1 && t < nrSmap && i < SECTOR_SIZE
    requires Cleared(disk0, disk, SMAP_SECTOR + t, buf, nrSmap, bits, b, m)
    requires |buf1| == |buf| && buf1 == buf[i := byte]
    requires m == m1 || (t * BITS_PER_SECTOR + 8 * i <= b + m && b + m1 <= t * BITS_PER_SECTOR + 8 * i + 8)
    requires forall y :: 0 <= y < 8 ==>
      (byte[y] <==> buf[i][y] && !(b + m <= t * BITS_PER_SECTOR + 8 * i + y < b + m1))
    ensures Cleared(disk0, disk, SMAP_SECTOR + t, buf1, nrSmap, bits, b, m1)
  {
    var s := SMAP_SECTOR + t;
    var old_ := Flushed(disk, s, buf);
    var new_ := Flushed(disk, s, buf1);
    forall x | 0 <= x < |bits|
      ensures BitAt(new_, SMAP_SECTOR, x) == WithRange(bits, b, m1, false)[x]
    {
      assert BitAt(old_, SMAP_SECTOR, x) == WithRange(bits, b, m, false)[x];
      var z := x % BITS_PER_SECTOR;
      if x / BITS_PER_SECTOR == t && z / 8 == i {
        assert x == t * BITS_PER_SECTOR + 8 * i + z % 8;
        assert BitAt(new_, SMAP_SECTOR, x) == byte[z % 8];
        assert BitAt(old_, SMAP_SECTOR, x) == buf[i][z % 8];
      } else {
        assert BitAt(new_, SMAP_SECTOR, x) == BitAt(old_, SMAP_SECTOR, x);
      }
    }
    forall k | 0 <= k < |disk| && !(SMAP_SECTOR <= k < SMAP_SECTOR + nrSmap) ensures new_[k] == disk0[k] {
      assert old_[k] == disk0[k];
    }
  }

  /** The bits of byte `i` of the sector in the buffer, as long as they are not cleared. */
  lemma StillSet(disk0: seq<Sector>, disk: seq<Sector>, t: nat, buf: seq<Byte>, nrSmap: nat,
                 bits: seq<bool>, b: int, m: int, n: int, i: nat)
    requires |bits| == nrSmap * BITS_PER_SECTOR && 0 <= m <= n && t < nrSmap && i < SECTOR_SIZE
    requires Cleared(disk0, disk, SMAP_SECTOR + t, buf, nrSmap, bits, b, m)
    requires 0 <= b && b + n <= |bits| && forall x :: b <= x < b + n ==> bits[x]
    ensures forall y :: 0 <= y < 8 && b + m <= t * BITS_PER_SECTOR + 8 * i + y < b + n ==> buf[i][y]
  {
    forall y | 0 <= y < 8 && b + m <= t * BITS_PER_SECTOR + 8 * i + y < b + n ensures buf[i][y] {
      var x := t * BITS_PER_SECTOR + 8 * i + y;
      assert BitAt(Flushed(disk, SMAP_SECTOR + t, buf), SMAP_SECTOR, x) == WithRange(bits, b, m, false)[x];
      assert x / BITS_PER_SECTOR == t && x % BITS_PER_SECTOR == 8 * i + y;
    }
  }

  /** WR_SECT(s), then RD_SECT(++s). */
  method NextSector(dev: Device, s0: nat, ghost disk0: seq<Sector>, ghost nrSmap: nat,
                    ghost bits: seq<bool>, ghost b: int, ghost m: int) returns (s: nat)
    requires dev.Valid() && s0 + 1 < |dev.disk|
    requires Cleared(disk0, dev.disk, s0, dev.fsbuf[..], nrSmap, bits, b, m)
    modifies dev`disk, dev.fsbuf
    ensures s == s0 + 1 && |dev.disk| == old(|dev.disk|) && dev.fsbuf[..SECTOR_SIZE] == dev.disk[s]
    ensures Cleared(disk0, dev.disk, s, dev.fsbuf[..], nrSmap, bits, b, m)
  {
    dev.WrSect(s0);
    s := s0 + 1;
    dev.RdSect(s);
    assert dev.fsbuf[..][..SECTOR_SIZE] == dev.disk[s];
    assert Flushed(dev.disk, s, dev.fsbuf[..]) == dev.disk;
  }

  /** The loop over the bits of the first byte; returns how many bits are left. */
  method ClearFirst(dev: Device, j: nat, k0: nat, n: nat) returns (left: nat)
    requires j < dev.fsbuf.Length && k0 < 8
    requires forall y :: k0 <= y < 8 && y < k0 + n ==> dev.fsbuf[j][y]
    modifies dev.fsbuf
    ensures left == if n <= 8 - k0 then 0 else n - (8 - k0)
    ensures forall y :: 0 <= y < 8 ==> (dev.fsbuf[j][y] <==> old(dev.fsbuf[j])[y] && !(k0 <= y < k0 + n))
    ensures dev.fsbuf[..] == old(dev.fsbuf[..])[j := dev.fsbuf[j]]
  {
    left := n;
    var i := k0;
    while i < 8 && left > 0
      invariant k0 <= i <= 8 && 0 <= left == n - (i - k0)
      invariant forall y :: 0 <= y < 8 ==> (dev.fsbuf[j][y] <==> old(dev.fsbuf[j])[y] && !(k0 <= y < i))
      invariant dev.fsbuf[..] == old(dev.fsbuf[..])[j := dev.fsbuf[j]]
    {
      assert dev.fsbuf[j][i];
      dev.fsbuf[j] := dev.fsbuf[j][i := false];
      i := i + 1;
      left := left - 1;
    }
  }

  /** Where the release loop stands: the buffer holds sector `s`, byte `i` of it is next and
      `left` of the `n` bits from `b` remain. */
  ghost predicate Releasing(disk0: seq<Sector>, disk: seq<Sector>, s: nat, i: nat, left: int, buf: seq<Byte>,
                            nrSmap: nat, bits: seq<bool>, b: nat, n: nat) {
    |bits| == nrSmap * BITS_PER_SECTOR && b + n <= |bits| && (forall x :: b <= x < b + n ==> bits[x]) &&
    0 <= left <= n && i <= SECTOR_SIZE && SMAP_SECTOR <= s < SMAP_SECTOR + nrSmap && |disk| == |disk0| &&
    (left > 0 ==> (s - SMAP_SECTOR) * BITS_PER_SECTOR + 8 * i == b + n - left) &&
    Cleared(disk0, disk, s, buf, nrSmap, bits, b, n - left)
  }

  /** One round: a whole byte, which the kernel asserts to be all ones. */
  lemma ClearedByte(disk0: seq<Sector>, disk: seq<Sector>, s: nat, i: nat, left: int, buf: seq<Byte>,
                    nrSmap: nat, bits: seq<bool>, b: nat, n: nat)
    requires Releasing(disk0, disk, s, i, left, buf, nrSmap, bits, b, n) && i < SECTOR_SIZE && left >= 8
    ensures i < |buf| && buf[i] == ONES
    ensures Releasing(disk0, disk, s, i + 1, left - 8, buf[i := ZERO], nrSmap, bits, b, n)
  {
    var t := s - SMAP_SECTOR;
    StillSet(disk0, disk, t, buf, nrSmap, bits, b, n - left, n, i);
    ClearMore(disk0, disk, t, buf, buf[i := ZERO], nrSmap, bits, b, n - left, n - left + 8, i, ZERO);
  }

  /** The loop over the whole bytes after the first. */
  method ClearBytes(dev: Device, s0: nat, byteCnt: int, i0: nat, left0: nat,
                    ghost disk0: seq<Sector>, ghost nrSmap: nat, ghost bits: seq<bool>, ghost b: nat, ghost n: nat)
    returns (s: nat, i: nat, left: nat)
    requires dev.Valid() && Releasing(disk0, dev.disk, s0, i0, left0, dev.fsbuf[..], nrSmap, bits, b, n)
    requires if byteCnt > 0 then 0 <= left0 - 8 * byteCnt < 8 else left0 < 8
    modifies dev`disk, dev.fsbuf
    ensures Releasing(disk0, dev.disk, s, i, left, dev.fsbuf[..], nrSmap, bits, b, n) && left < 8
  {
    s, i, left := s0, i0, left0;
    var k := 0;
    while k < byteCnt
      invariant k <= if byteCnt < 0 then 0 else byteCnt
      invariant if byteCnt > 0 then 0 <= left - 8 * (byteCnt - k) < 8 else left < 8
      invariant Releasing(disk0, dev.disk, s, i, left, dev.fsbuf[..], nrSmap, bits, b, n)
    {
      if i == SECTOR_SIZE {
        i := 0;
        s := NextSector(dev, s, disk0, nrSmap, bits, b, n - left);
      }
      ClearedByte(disk0, dev.disk, s, i, left, dev.fsbuf[..], nrSmap, bits, b, n);
      assert dev.fsbuf[i] == ONES;
      dev.fsbuf[i] := ZERO;
      k := k + 1;
      i := i + 1;
      left := left - 8;
    }
  }

  /** The last byte, of which the low `left` bits go, and the final write. */
  method ClearLast(dev: Device, s0: nat, i0: nat, left: nat,
                   ghost disk0: seq<Sector>, ghost nrSmap: nat, ghost bits: seq<bool>, ghost b: nat, ghost n: nat)
    requires dev.Valid() && Releasing(disk0, dev.disk, s0, i0, left, dev.fsbuf[..], nrSmap, bits, b, n) && left < 8
    modifies dev`disk, dev.fsbuf
    ensures |dev.disk| == |disk0| && Bits(dev.disk, SMAP_SECTOR, nrSmap) == WithRange(bits, b, n, false)
    ensures forall k :: 0 <= k < |dev.disk| && !(SMAP_SECTOR <= k < SMAP_SECTOR + nrSmap) ==> dev.disk[k] == disk0[k]
  {
    var s, i := s0, i0;
    if i == SECTOR_SIZE {
      i := 0;
      s := NextSector(dev, s, disk0, nrSmap, bits, b, n - left);
    }
    ghost var t := s - SMAP_SECTOR;
    ghost var buf := dev.fsbuf[..];
    if t < nrSmap {
      StillSet(disk0, dev.disk, t, buf, nrSmap, bits, b, n - left, n, i);
    }
    assert forall y :: 0 <= y < left ==> buf[i][y];
    dev.fsbuf[i] := ClearLow(dev.fsbuf[i], left);
    if t < nrSmap {
      ClearMore(disk0, dev.disk, t, buf, dev.fsbuf[..], nrSmap, bits, b, n - left, n, i, dev.fsbuf[i]);
    } else {
      assert left == 0 && dev.fsbuf[i] == buf[i] && dev.fsbuf[..] == buf;
    }
    dev.WrSect(s);
  }

  /** Clears bits [b, b + n) of the sector map and touches nothing else, for every start and
      count; each of them must be set, as the kernel asserts on the way. */
  method FreeSmapBits(dev: Device, nrSmap: nat, start: nat, n: nat)
    requires dev.Valid() && HasLayout(nrSmap, dev.disk)
    requires var b := BitOfSector(nrSmap, start);
             var bits := Bits(dev.disk, SMAP_SECTOR, nrSmap);
             0 <= b && b + n <= |bits| && b < |bits| && forall x :: b <= x < b + n ==> bits[x]
    modifies dev`disk, dev.fsbuf
    ensures |dev.disk| == old(|dev.disk|)
    ensures Bits(dev.disk, SMAP_SECTOR, nrSmap) ==
      WithRange(old(Bits(dev.disk, SMAP_SECTOR, nrSmap)), BitOfSector(nrSmap, start), n, false)
    ensures forall k :: 0 <= k < |dev.disk| && !(SMAP_SECTOR <= k < SMAP_SECTOR + nrSmap) ==>
      dev.disk[k] == old(dev.disk)[k]
  {
    ghost var disk0 := dev.disk;
    ghost var bits := Bits(disk0, SMAP_SECTOR, nrSmap);
    var b: nat := BitOfSector(nrSmap, start);
    var byteIdx := b / 8;
    var left := n;
    var byteCnt := TruncDiv(left - (8 - b % 8), 8);
    var s: nat := SMAP_SECTOR + byteIdx / SECTOR_SIZE;
    ghost var t: nat := byteIdx / SECTOR_SIZE;
    dev.RdSect(s);
    assert dev.fsbuf[..][..SECTOR_SIZE] == dev.disk[s];
    assert Flushed(dev.disk, s, dev.fsbuf[..]) == dev.disk && WithRange(bits, b, 0, false) == bits;
    var i: nat := byteIdx % SECTOR_SIZE;
    assert b == t * BITS_PER_SECTOR + 8 * i + b % 8;
    StillSet(disk0, dev.disk, t, dev.fsbuf[..], nrSmap, bits, b, 0, n, i);
    ghost var buf := dev.fsbuf[..];
    left := ClearFirst(dev, i, b % 8, n);
    ClearMore(disk0, dev.disk, t, buf, dev.fsbuf[..], nrSmap, bits, b, 0, n - left, i, dev.fsbuf[i]);
    s, i, left := ClearBytes(dev, s, byteCnt, i + 1, left, disk0, nrSmap, bits, b, n);
    ClearLast(dev, s, i, left, disk0, nrSmap, bits, b, n);
  }

  /** Releasing what was just allocated restores the map, bit for bit. */
  lemma FreeUndoesAlloc(bits: seq<bool>, nrSmap: nat, n: nat)
    requires |bits| == nrSmap * BITS_PER_SECTOR && CanAlloc(bits, n)
    ensures var f := FirstClear(bits, 0);
            var sector := SectorOfBit(nrSmap, f);
            var taken := WithRange(bits, f, n, true);
            (forall x :: f <= x < f + n ==> taken[x]) &&
            WithRange(taken, BitOfSector(nrSmap, sector), n, false) == bits
  {
  }

  // ---------------------------------------------------------------- the inode map

  /** One byte of the inode map replaced. */
  lemma ImapByte(disk: seq<Sector>, buf: seq<Byte>, j: nat, k: nat, byte: Byte, value: bool)
    requires IMAP_SECTOR < |disk| && |buf| >= SECTOR_SIZE && buf[..SECTOR_SIZE] == disk[IMAP_SECTOR]
    requires j < SECTOR_SIZE && k < 8 && byte == buf[j][k := value]
    ensures Bits(disk[IMAP_SECTOR := buf[j := byte][..SECTOR_SIZE]], IMAP_SECTOR, 1) ==
            Bits(disk, IMAP_SECTOR, 1)[8 * j + k := value]
  {
  }

  lemma BitHere(buf: seq<Byte>, j: nat, k: nat)
    requires |buf| >= SECTOR_SIZE && j < SECTOR_SIZE && k < 8
    ensures BufBit(buf, 8 * j + k) == buf[j][k]
  {
  }

  /** `alloc_imap_bit`: takes the first clear bit, or returns 0 if there is none. */
  method AllocImapBit(dev: Device) returns (inodeNr: nat)
    requires dev.Valid() && IMAP_SECTOR < |dev.disk|
    modifies dev`disk, dev.fsbuf
    ensures |dev.disk| == old(|dev.disk|)
    ensures var bits := old(Bits(dev.disk, IMAP_SECTOR, 1));
            var f := FirstClear(bits, 0);
            if f < |bits| then inodeNr == f && Bits(dev.disk, IMAP_SECTOR, 1) == bits[f := true]
            else inodeNr == 0 && dev.disk == old(dev.disk)
    ensures forall k :: 0 <= k < |dev.disk| && k != IMAP_SECTOR ==> dev.disk[k] == old(dev.disk)[k]
  {
    ghost var bits := Bits(dev.disk, IMAP_SECTOR, 1);
    ghost var f := FirstClear(bits, 0);
    dev.RdSect(IMAP_SECTOR);
    ghost var buf := dev.fsbuf[..];
    assert buf[..SECTOR_SIZE] == dev.disk[IMAP_SECTOR];
    forall x | 0 <= x < BITS_PER_SECTOR ensures BufBit(buf, x) == bits[x] {
      assert BitAt(dev.disk, IMAP_SECTOR, x) == bits[x];
    }
    inodeNr := 0;
    var j := 0;
    while j < SECTOR_SIZE
      invariant j <= SECTOR_SIZE && dev.fsbuf[..] == buf && dev.disk == old(dev.disk) && f >= 8 * j
    {
      if dev.fsbuf[j] == ONES {
        assert f < BITS_PER_SECTOR ==> !BufBit(buf, f);
        PastFullByte(buf, j, 0, f);
        j := j + 1;
        continue;
      }
      assert exists y :: 0 <= y < 8 && !buf[j][y];
      var k := 0;
      while dev.fsbuf[j][k]
        invariant k < 8 && dev.fsbuf[..] == buf && dev.disk == old(dev.disk) && f >= 8 * j + k &&
                  forall y :: 0 <= y < k ==> buf[j][y]
        decreases 8 - k
      {
        BitHere(buf, j, k);
        k := k + 1;
      }
      BitHere(buf, j, k);
      inodeNr := j * 8 + k;
      ImapByte(dev.disk, buf, j, k, buf[j][k := true], true);
      dev.fsbuf[j] := dev.fsbuf[j][k := true];
      assert dev.fsbuf[..] == buf[j := buf[j][k := true]];
      dev.WrSect(IMAP_SECTOR);
      break;
    }
  }

  /** The first part of `do_unlink`'s release: one bit of the inode map, which must be set. */
  method FreeImapBit(dev: Device, inodeNr: nat)
    requires dev.Valid() && IMAP_SECTOR < |dev.disk|
    requires inodeNr < BITS_PER_SECTOR && Bits(dev.disk, IMAP_SECTOR, 1)[inodeNr]
    modifies dev`disk, dev.fsbuf
    ensures |dev.disk| == old(|dev.disk|)
    ensures Bits(dev.disk, IMAP_SECTOR, 1) == old(Bits(dev.disk, IMAP_SECTOR, 1))[inodeNr := false]
    ensures forall k :: 0 <= k < |dev.disk| && k != IMAP_SECTOR ==> dev.disk[k] == old(dev.disk)[k]
  {
    var byteIdx: nat := inodeNr / 8;
    var bitIdx := inodeNr % 8;
    assert BitAt(dev.disk, IMAP_SECTOR, inodeNr);
    dev.RdSect(IMAP_SECTOR);
    ghost var buf := dev.fsbuf[..];
    assert buf[..SECTOR_SIZE] == dev.disk[IMAP_SECTOR];
    assert dev.fsbuf[byteIdx % SECTOR_SIZE][bitIdx];
    ImapByte(dev.disk, buf, byteIdx, bitIdx, buf[byteIdx][bitIdx := false], false);
    dev.fsbuf[byteIdx % SECTOR_SIZE] := dev.fsbuf[byteIdx % SECTOR_SIZE][bitIdx := false];
    assert dev.fsbuf[..] == buf[byteIdx := buf[byteIdx][bitIdx := false]];
    dev.WrSect(IMAP_SECTOR);
  }
}
