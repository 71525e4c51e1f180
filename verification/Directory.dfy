/** The flat root directory: path names, the search for a name, the slot of a new entry, and
    removal.  Each loop over blocks and entries is proved against a function of all entries of
    the directory's extent. */
module Directory {
  import opened Device
  import opened Volume
  import opened Records
  import opened InodeCache

  const SLASH: Byte := [true, true, true, true, false, true, false, false]

  const NUL: Byte := [false, false, false, false, false, false, false, false]

  datatype Option<T> = None | Some(value: T)

  type Name = seq<Byte>

  // ---------------------------------------------------------------- names

  predicate NoSlash(s: seq<Byte>) {
    forall i :: 0 <= i < |s| ==> s[i] != SLASH
  }

  predicate NoNul(s: seq<Byte>) {
    forall i :: 0 <= i < |s| ==> !IsNul(s[i])
  }

  /** The C string at the front of `s`. */
  function CStr(s: seq<Byte>): (n: Name)
    ensures |n| <= |s| && NoNul(n)
  {
    if s == [] || IsNul(s[0]) then [] else [s[0]] + CStr(s[1..])
  }

  /** A name that the directory can hold: `new_dir_entry` copies its terminating NUL too. */
  predicate Storable(name: Name) {
    |name| < MAX_FILENAME_LEN && NoNul(name)
  }

  /** The 12-byte field after `_strcpy(field, name)`. */
  function Copied(field: seq<Byte>, name: Name): (r: seq<Byte>)
    requires |field| == MAX_FILENAME_LEN && Storable(name)
    ensures |r| == MAX_FILENAME_LEN
  {
    name + [NUL] + field[|name| + 1..]
  }

  lemma {:induction false} CStrOfString(name: Name, rest: seq<Byte>)
    requires NoNul(name)
    ensures CStr(name + [NUL] + rest) == name
  {
    var s := name + [NUL] + rest;
    if name != [] {
      CStrOfString(name[1..], rest);
      assert s[1..] == name[1..] + [NUL] + rest;
    }
  }

  /** The C string is what comes before the first NUL. */
  lemma {:induction false} CStrIs(s: seq<Byte>, k: nat)
    requires k <= |s| && NoNul(s[..k]) && (k < |s| ==> IsNul(s[k]))
    ensures CStr(s) == s[..k]
  {
    if k > 0 {
      assert s[..k][0] == s[0];
      assert s[1..][..k - 1] == s[..k][1..];
      CStrIs(s[1..], k - 1);
    }
  }

  lemma StoredName(field: seq<Byte>, name: Name)
    requires |field| == MAX_FILENAME_LEN && Storable(name)
    ensures CStr(Copied(field, name)) == name
    ensures Copied(field, name)[..|name|] == name && IsNul(Copied(field, name)[|name|])
    ensures Copied(field, name)[|name| + 1..] == field[|name| + 1..]
  {
    CStrOfString(name, field[|name| + 1..]);
  }

  function Rest(path: seq<Byte>): seq<Byte> {
    if path != [] && path[0] == SLASH then path[1..] else path
  }

  function Head(path: seq<Byte>): (h: Name)
    ensures |h| <= MAX_FILENAME_LEN
  {
    if |Rest(path)| < MAX_FILENAME_LEN then Rest(path) else Rest(path)[..MAX_FILENAME_LEN]
  }

  /** What `strip_path` makes of a path: the part after one leading slash, cut at twelve
      characters, unless another slash comes before the cut. */
  function Stripped(path: seq<Byte>): Option<Name> {
    if NoSlash(Head(path)) then Some(Head(path)) else None
  }

  /** Some slash comes among the first twelve characters. */
  predicate SlashEarly(s: seq<Byte>) {
    exists i :: 0 <= i < |s| && i < MAX_FILENAME_LEN && s[i] == SLASH
  }

  function Cut(s: seq<Byte>): (n: Name)
    ensures |n| <= |s| && |n| <= MAX_FILENAME_LEN && (|s| <= MAX_FILENAME_LEN ==> n == s)
    ensures |s| > MAX_FILENAME_LEN ==> n == s[..MAX_FILENAME_LEN]
  {
    if |s| < MAX_FILENAME_LEN then s else s[..MAX_FILENAME_LEN]
  }

  /** What a path leads to, with and without a slash in front: the first twelve characters of what
      follows it, unless there is another slash among them. */
  lemma StrippedWhen(s: seq<Byte>)
    ensures Stripped([SLASH] + s) == if SlashEarly(s) then None else Some(Cut(s))
    ensures s == [] || s[0] != SLASH ==> Stripped(s) == Stripped([SLASH] + s)
  {
    assert Rest([SLASH] + s) == s && Head([SLASH] + s) == Cut(s);
    if SlashEarly(s) {
      var i :| 0 <= i < |s| && i < MAX_FILENAME_LEN && s[i] == SLASH;
      assert Cut(s)[i] == SLASH;
    }
  }

  /** A short name and the same name with a slash in front are the same file. */
  lemma SlashIsDropped(name: Name)
    requires NoSlash(name) && |name| <= MAX_FILENAME_LEN
    ensures Stripped([SLASH] + name) == Stripped(name) == Some(name)
  {
    StrippedWhen(name);
  }

  lemma StrippedIs(path: seq<Byte>)
    ensures var s := if path != [] && path[0] == SLASH then path[1..] else path;
            Stripped(path) == if SlashEarly(s) then None else Some(Cut(s))
  {
    var rest := Rest(path);
    StrippedWhen(rest);
    assert path == rest || path == [SLASH] + rest;
  }

  /** `strip_path`. */
  method StripPath(path: seq<Byte>) returns (filename: Option<Name>)
    ensures filename == Stripped(path)
    ensures var s := if path != [] && path[0] == SLASH then path[1..] else path;
            filename == if SlashEarly(s) then None else Some(Cut(s))
  {
    var s := if path != [] && path[0] == SLASH then 1 else 0;
    ghost var rest := Rest(path);
    var t: Name := [];
    while s < |path|
      invariant |t| < MAX_FILENAME_LEN && |t| <= |rest| && t == rest[..|t|] && NoSlash(t)
      invariant s + |rest| == |path| + |t| && rest[|t|..] == path[s..]
    {
      assert path[s] == rest[|t|];
      if path[s] == SLASH {
        assert Head(path)[|t|] == SLASH;
        StrippedIs(path);
        return None;
      }
      t := t + [path[s]];
      s := s + 1;
      if |t| >= MAX_FILENAME_LEN {
        break;
      }
    }
    assert t == Head(path);
    StrippedIs(path);
    return Some(t);
  }

  /** The C string at the front of `s` goes on at least as long as no NUL has come. */
  lemma {:induction false} CStrPrefix(s: seq<Byte>, i: nat)
    requires i <= |s| && NoNul(s[..i])
    ensures CStr(s) == s[..i] + CStr(s[i..])
  {
    if i > 0 {
      assert s[0] == s[..i][0];
      assert s[1..][..i - 1] == s[..i][1..];
      CStrPrefix(s[1..], i - 1);
    }
  }

  /** `kmemcmp(filename, name, MAX_FILENAME_LEN)`, which stops at a NUL. */
  method KmemCmp(dev: Device, o: nat, filename: Name) returns (same: bool)
    requires o + MAX_FILENAME_LEN <= dev.fsbuf.Length && |filename| <= MAX_FILENAME_LEN && NoNul(filename)
    ensures same <==> CStr(dev.fsbuf[o..o + MAX_FILENAME_LEN]) == filename
  {
    ghost var s := dev.fsbuf[o..o + MAX_FILENAME_LEN];
    var i := 0;
    while true
      invariant i < MAX_FILENAME_LEN && i <= |filename| && s[..i] == filename[..i]
      decreases MAX_FILENAME_LEN - i
    {
      assert NoNul(s[..i]);
      CStrPrefix(s, i);
      var c := if i < |filename| then filename[i] else NUL;
      if c != dev.fsbuf[o + i] {
        assert s[i] != c && s[i..][0] == s[i];
        assert IsNul(s[i]) <==> s[i] == NUL;
        return false;
      }
      if c == NUL {
        assert s[i..][0] == NUL && filename == filename[..i];
        return true;
      }
      i := i + 1;
      assert filename[..i] == filename[..i - 1] + [c] && s[..i] == s[..i - 1] + [c];
      if i == MAX_FILENAME_LEN {
        assert s[..i] == s && filename[..i] == filename && NoNul(s[..i]);
        CStrPrefix(s, i);
        return true;
      }
    }
  }

  // ---------------------------------------------------------------- search

  /** The inode of the first entry in [k, limit) whose name is `name`, or 0. */
  function Lookup(dir: seq<Entry>, k: nat, limit: nat, name: Name): nat
    requires limit <= |dir|
    decreases limit - k
  {
    if k >= limit then 0
    else if CStr(dir[k].name) == name then dir[k].inode
    else Lookup(dir, k + 1, limit, name)
  }

  function Blocks(size: nat): nat { (size + SECTOR_SIZE - 1) / SECTOR_SIZE }

  /** How many entries `search_file` compares: one more than there are, if the block has it. */
  function SearchLimit(size: nat): nat {
    if size / DIR_ENTRY_SIZE < ENTRIES_PER_SECTOR * Blocks(size) then size / DIR_ENTRY_SIZE + 1
    else ENTRIES_PER_SECTOR * Blocks(size)
  }

  /** `nr` entries lie in as few blocks as hold them, and a search compares one entry more unless the
      last block is full. */
  lemma BlocksHold(nr: nat)
    ensures 32 * Blocks(16 * nr) >= nr && (nr > 0 ==> 32 * (Blocks(16 * nr) - 1) < nr)
    ensures SearchLimit(16 * nr) == if nr % 32 == 0 then nr else nr + 1
  {
  }

  /** The buffer holds block `i` of the directory. */
  ghost predicate HoldsBlock(dev: Device, nrSmap: nat, i: nat)
    reads dev, dev.fsbuf
    requires HasLayout(nrSmap, dev.disk)
  {
    dev.Valid() && i < NR_DEFAULT_FILE_SECTS && dev.fsbuf[..SECTOR_SIZE] == dev.disk[FirstSector(nrSmap) + i]
  }

  lemma EntryInBlock(dev: Device, nrSmap: nat, i: nat, j: nat)
    requires HasLayout(nrSmap, dev.disk) && HoldsBlock(dev, nrSmap, i) && j < ENTRIES_PER_SECTOR
    ensures var k := ENTRIES_PER_SECTOR * i + j;
            var o := j * DIR_ENTRY_SIZE;
            k < DIR_SLOTS && EntrySector(nrSmap, k) == FirstSector(nrSmap) + i && EntryOffset(k) == o &&
            Dir(nrSmap, dev.disk)[k] == DecodeEntry(dev.fsbuf[o..o + 16]) &&
            Dir(nrSmap, dev.disk)[k].name == dev.fsbuf[o + 4..o + 16]
  {
    var k := ENTRIES_PER_SECTOR * i + j;
    var o := j * DIR_ENTRY_SIZE;
    SliceOfFront(dev.fsbuf[..], o);
    assert RawDir(nrSmap, dev.disk)[k] == dev.fsbuf[o..o + 16];
    DecodeEntriesAt(RawDir(nrSmap, dev.disk), k);
    assert dev.fsbuf[o..o + 16][4..16] == dev.fsbuf[o + 4..o + 16];
  }

  /** The inner loop of `search_file`, over block `i`, which is in the buffer. */
  method SearchBlock(dev: Device, nrSmap: nat, i: nat, nrEntries: nat, filename: Name, ghost dir: seq<Entry>)
    returns (found: bool, inodeNr: nat, m: nat)
    requires HasLayout(nrSmap, dev.disk) && HoldsBlock(dev, nrSmap, i) && ENTRIES_PER_SECTOR * i <= nrEntries
    requires dir == Dir(nrSmap, dev.disk)
    requires |filename| <= MAX_FILENAME_LEN && NoNul(filename)
    ensures ENTRIES_PER_SECTOR * i <= m <= ENTRIES_PER_SECTOR * (i + 1)
    ensures !found ==> m == nrEntries + 1 || (m == ENTRIES_PER_SECTOR * (i + 1) && m <= nrEntries)
    ensures m <= |dir| && forall k :: ENTRIES_PER_SECTOR * i <= k < m ==> CStr(dir[k].name) != filename
    ensures found ==> m < |dir| && m < ENTRIES_PER_SECTOR * (i + 1) && m <= nrEntries
    ensures found ==> CStr(dir[m].name) == filename && dir[m].inode == inodeNr
  {
    var j := 0;
    m := ENTRIES_PER_SECTOR * i;
    while j < ENTRIES_PER_SECTOR
      invariant j <= ENTRIES_PER_SECTOR && m == ENTRIES_PER_SECTOR * i + j <= |dir|
      invariant j < ENTRIES_PER_SECTOR ==> m <= nrEntries
      invariant m <= nrEntries
      invariant forall k :: ENTRIES_PER_SECTOR * i <= k < m ==> CStr(dir[k].name) != filename
    {
      EntryInBlock(dev, nrSmap, i, j);
      var o := j * DIR_ENTRY_SIZE;
      var same := KmemCmp(dev, o + 4, filename);
      if same {
        return true, DecodeEntry(dev.fsbuf[o..o + 16]).inode, m;
      }
      m := m + 1;
      if m > nrEntries {
        break;
      }
      j := j + 1;
    }
    return false, 0, m;
  }

  lemma {:induction false} LookupSkips(dir: seq<Entry>, i: nat, k: nat, limit: nat, name: Name)
    requires i <= k && limit <= |dir|
    requires forall x :: i <= x < k && x < limit ==> CStr(dir[x].name) != name
    ensures Lookup(dir, i, limit, name) == Lookup(dir, k, limit, name)
    decreases k - i
  {
    if i < k {
      LookupSkips(dir, i + 1, k, limit, name);
    }
  }

  lemma InLimit(size: nat, i: nat, m: nat)
    requires i < Blocks(size) && m <= size / DIR_ENTRY_SIZE && m < ENTRIES_PER_SECTOR * (i + 1)
    ensures m < SearchLimit(size)
  {
  }

  /** The loops of `search_file`. */
  method SearchFile(dev: Device, nrSmap: nat, size: nat, filename: Name) returns (inodeNr: nat)
    requires dev.Valid() && HasLayout(nrSmap, dev.disk) && size <= NR_DEFAULT_FILE_SECTS * SECTOR_SIZE
    requires |filename| <= MAX_FILENAME_LEN && NoNul(filename)
    modifies dev.fsbuf
    ensures SearchLimit(size) <= DIR_SLOTS
    ensures inodeNr == Lookup(Dir(nrSmap, dev.disk), 0, SearchLimit(size), filename)
  {
    ghost var dir := Dir(nrSmap, dev.disk);
    ghost var limit := SearchLimit(size);
    var nrBlocks := Blocks(size);
    var nrEntries := size / DIR_ENTRY_SIZE;
    var m: nat := 0;
    var i := 0;
    while i < nrBlocks && m <= nrEntries
      invariant i <= nrBlocks && m <= nrEntries + 1
      invariant m <= nrEntries ==> m == ENTRIES_PER_SECTOR * i
      invariant Lookup(dir, 0, limit, filename) == Lookup(dir, m, limit, filename)
    {
      dev.RdSect(FirstSector(nrSmap) + i);
      var found;
      ghost var m0 := m;
      found, inodeNr, m := SearchBlock(dev, nrSmap, i, nrEntries, filename, dir);
      LookupSkips(dir, m0, m, limit, filename);
      if found {
        InLimit(size, i, m);
        return;
      }
      i := i + 1;
    }
    assert m >= limit && Lookup(dir, m, limit, filename) == 0;
    return 0;
  }

  // ---------------------------------------------------------------- new entries

  /** The first free entry in [k, nr), or `nr`. */
  function FirstHole(dir: seq<Entry>, k: nat, nr: nat): (h: nat)
    requires k <= nr <= |dir|
    ensures k <= h <= nr && (h < nr ==> dir[h].inode == 0)
    ensures forall x :: k <= x < h ==> dir[x].inode != 0
    decreases nr - k
  {
    if k == nr || dir[k].inode == 0 then k else FirstHole(dir, k + 1, nr)
  }

  /** The scan of `new_dir_entry`, over block `i`, which is in the buffer. */
  method ScanBlock(dev: Device, nrSmap: nat, i: nat, nr: nat, ghost dir: seq<Entry>)
    returns (found: bool, j: nat)
    requires HasLayout(nrSmap, dev.disk) && HoldsBlock(dev, nrSmap, i) && ENTRIES_PER_SECTOR * i <= nr <= |dir|
    requires dir == Dir(nrSmap, dev.disk)
    ensures j <= ENTRIES_PER_SECTOR && ENTRIES_PER_SECTOR * i + j <= nr
    ensures FirstHole(dir, ENTRIES_PER_SECTOR * i, nr) == FirstHole(dir, ENTRIES_PER_SECTOR * i + j, nr)
    ensures found ==> j < ENTRIES_PER_SECTOR && ENTRIES_PER_SECTOR * i + j < nr
    ensures found ==> dir[ENTRIES_PER_SECTOR * i + j].inode == 0
    ensures !found ==> j == ENTRIES_PER_SECTOR || ENTRIES_PER_SECTOR * i + j == nr
  {
    j := 0;
    ghost var base: nat := ENTRIES_PER_SECTOR * i;
    while j < ENTRIES_PER_SECTOR
      invariant j <= ENTRIES_PER_SECTOR && base + j <= nr
      invariant FirstHole(dir, base, nr) == FirstHole(dir, base + j, nr)
    {
      if ENTRIES_PER_SECTOR * i + j + 1 > nr {
        return false, j;
      }
      EntryInBlock(dev, nrSmap, i, j);
      var o := j * DIR_ENTRY_SIZE;
      if DecodeEntry(dev.fsbuf[o..o + 16]).inode == 0 {
        return true, j;
      }
      j := j + 1;
    }
    return false, j;
  }

  /** Where `new_dir_entry` will put its entry: slot `j` of block `i`, or just past the last
      block it read (then `j` is a whole block). */
  method FindSlot(dev: Device, nrSmap: nat, size: nat, ghost dir: seq<Entry>) returns (found: bool, i: nat, j: nat)
    requires dev.Valid() && HasLayout(nrSmap, dev.disk) && dir == Dir(nrSmap, dev.disk)
    requires DIR_ENTRY_SIZE <= size <= NR_DEFAULT_FILE_SECTS * SECTOR_SIZE
    modifies dev.fsbuf
    ensures var nr := size / DIR_ENTRY_SIZE;
            var h := FirstHole(dir, 0, nr);
            if found || nr < ENTRIES_PER_SECTOR * Blocks(size)
            then j < ENTRIES_PER_SECTOR && ENTRIES_PER_SECTOR * i + j == h && HoldsBlock(dev, nrSmap, i)
            else j == ENTRIES_PER_SECTOR && i == Blocks(size) && h == nr && HoldsBlock(dev, nrSmap, i - 1)
    ensures found <==> FirstHole(dir, 0, size / DIR_ENTRY_SIZE) < size / DIR_ENTRY_SIZE
  {
    var nr: nat := size / DIR_ENTRY_SIZE;
    ghost var h := FirstHole(dir, 0, nr);
    found, i, j := false, 0, 0;
    while i < Blocks(size)
      invariant i <= Blocks(size) && ENTRIES_PER_SECTOR * i <= nr && !found
      invariant FirstHole(dir, ENTRIES_PER_SECTOR * i, nr) == h
      invariant i > 0 ==> j == ENTRIES_PER_SECTOR && HoldsBlock(dev, nrSmap, i - 1)
    {
      dev.RdSect(FirstSector(nrSmap) + i);
      found, j := ScanBlock(dev, nrSmap, i, nr, dir);
      if found || (ENTRIES_PER_SECTOR * i + j == nr && j < ENTRIES_PER_SECTOR) {
        return;
      }
      i := i + 1;
    }
  }

  /** `_strcpy` into the buffer. */
  method StrCpy(dev: Device, o: nat, name: Name)
    requires o + |name| < dev.fsbuf.Length
    modifies dev.fsbuf
    ensures forall x :: 0 <= x < dev.fsbuf.Length ==>
      dev.fsbuf[x] == if o <= x < o + |name| then name[x - o] else if x == o + |name| then NUL else old(dev.fsbuf[x])
  {
    var i := 0;
    while i < |name|
      invariant i <= |name|
      invariant forall x :: 0 <= x < dev.fsbuf.Length ==>
        dev.fsbuf[x] == if o <= x < o + i then name[x - o] else old(dev.fsbuf[x])
    {
      dev.fsbuf[o + i] := name[i];
      i := i + 1;
    }
    dev.fsbuf[o + i] := NUL;
  }

  /** The two fields of an entry. */
  lemma EntryFields(s: seq<Byte>, o: nat, word: seq<Byte>, name: seq<Byte>)
    requires o + 16 <= |s| && |word| == 4 && |name| == MAX_FILENAME_LEN
    requires forall k :: 0 <= k < 4 ==> s[o + k] == word[k]
    requires forall k :: 0 <= k < MAX_FILENAME_LEN ==> s[o + 4 + k] == name[k]
    ensures s[o..o + 16] == word + name
  {
    var entry := s[o..o + 16];
    forall k | 0 <= k < 16 ensures entry[k] == (word + name)[k] {
      assert k >= 4 ==> s[o + 4 + (k - 4)] == name[k - 4];
    }
  }

  /** The two assignments through `new_de`. */
  method PutEntry(dev: Device, o: nat, inodeNr: nat, name: Name)
    requires o + 16 <= dev.fsbuf.Length && Storable(name)
    modifies dev.fsbuf
    ensures dev.fsbuf[o..o + 16] == WordBytes(inodeNr) + Copied(old(dev.fsbuf[o + 4..o + 16]), name)
    ensures forall x :: 0 <= x < dev.fsbuf.Length && !(o <= x < o + 16) ==> dev.fsbuf[x] == old(dev.fsbuf[x])
  {
    ghost var field := dev.fsbuf[o + 4..o + 16];
    PutWord(dev, o, inodeNr);
    ghost var word := dev.fsbuf[o..o + 4];
    ghost var before := dev.fsbuf[..];
    assert forall k :: 0 <= k < 4 ==> before[o + k] == word[k];
    assert forall k :: 0 <= k < MAX_FILENAME_LEN ==> before[o + 4 + k] == field[k];
    StrCpy(dev, o + 4, name);
    ghost var after := dev.fsbuf[..];
    forall k | 0 <= k < MAX_FILENAME_LEN ensures after[o + 4 + k] == Copied(field, name)[k] {
    }
    EntryFields(after, o, word, Copied(field, name));
    assert dev.fsbuf[o..o + 16] == after[o..o + 16];
  }

  /** The directory after `new_dir_entry` put an entry into slot `h`. */
  function Inserted(dir: seq<Entry>, h: nat, inodeNr: nat, name: Name): (r: seq<Entry>)
    requires h < |dir| && |dir[h].name| == MAX_FILENAME_LEN && Storable(name)
    ensures |r| == |dir|
  {
    dir[h := Entry(inodeNr, Copied(dir[h].name, name))]
  }

  /** The directory after the last block was written once more behind itself. */
  function BlockRepeated(dir: seq<Entry>, nr: nat): (r: seq<Entry>)
    requires ENTRIES_PER_SECTOR <= nr
    ensures |r| == |dir|
  {
    seq(|dir|, k requires 0 <= k < |dir| =>
      if nr <= k < nr + ENTRIES_PER_SECTOR then dir[k - ENTRIES_PER_SECTOR] else dir[k])
  }

  lemma RepeatedIs(dir: seq<Entry>, nr: nat, k: nat)
    requires ENTRIES_PER_SECTOR <= nr && nr + ENTRIES_PER_SECTOR <= |dir| && k < |dir|
    ensures k < ENTRIES_PER_SECTOR ==> BlockRepeated(dir, nr)[nr + k] == dir[nr - ENTRIES_PER_SECTOR + k]
    ensures k < nr || nr + ENTRIES_PER_SECTOR <= k ==> BlockRepeated(dir, nr)[k] == dir[k]
  {
  }

  /** Whether the slot that `new_dir_entry` picks lies in a block that it has read. */
  predicate SlotInBlock(dir: seq<Entry>, size: nat)
    requires size / DIR_ENTRY_SIZE <= |dir|
  {
    var nr := size / DIR_ENTRY_SIZE;
    FirstHole(dir, 0, nr) < nr || nr < ENTRIES_PER_SECTOR * Blocks(size)
  }

  lemma {:induction false} NamesAreFields(nrSmap: nat, disk: seq<Sector>, k: nat)
    requires HasLayout(nrSmap, disk) && k < DIR_SLOTS
    ensures |Dir(nrSmap, disk)[k].name| == MAX_FILENAME_LEN
  {
    DecodeEntriesAt(RawDir(nrSmap, disk), k);
  }

  /** Writing the entry in the buffer into slot `j` of block `i` and the block back. */
  method StoreEntry(dev: Device, nrSmap: nat, i: nat, j: nat, inodeNr: nat, name: Name)
    requires HasLayout(nrSmap, dev.disk) && HoldsBlock(dev, nrSmap, i) && j < ENTRIES_PER_SECTOR
    requires Storable(name) && inodeNr < WORD_LIMIT
    modifies dev`disk, dev.fsbuf
    ensures |dev.disk| == old(|dev.disk|)
    ensures var h := ENTRIES_PER_SECTOR * i + j;
            var dir := old(Dir(nrSmap, dev.disk));
            h < DIR_SLOTS && |dir[h].name| == MAX_FILENAME_LEN &&
            Dir(nrSmap, dev.disk) == Inserted(dir, h, inodeNr, name)
    ensures forall k :: 0 <= k < |dev.disk| && k != FirstSector(nrSmap) + i ==> dev.disk[k] == old(dev.disk)[k]
  {
    ghost var h := ENTRIES_PER_SECTOR * i + j;
    EntryInBlock(dev, nrSmap, i, j);
    NamesAreFields(nrSmap, dev.disk, h);
    ghost var read: Sector := dev.fsbuf[..SECTOR_SIZE];
    ghost var field := Dir(nrSmap, dev.disk)[h].name;
    var o := j * DIR_ENTRY_SIZE;
    PutEntry(dev, o, inodeNr, name);
    ghost var buf: Sector := dev.fsbuf[..SECTOR_SIZE];
    SliceOfFront(dev.fsbuf[..], o);
    EntryRoundTrip(Entry(inodeNr, Copied(field, name)));
    assert forall x :: 0 <= x < SECTOR_SIZE && !(o <= x < o + 16) ==> buf[x] == read[x];
    OneEntry(nrSmap, dev.disk, h, buf);
    dev.WrSect(FirstSector(nrSmap) + i);
  }

  lemma RepeatRaw(nrSmap: nat, disk: seq<Sector>, n: nat, k: nat)
    requires HasLayout(nrSmap, disk) && 0 < n < NR_DEFAULT_FILE_SECTS && k < DIR_SLOTS
    ensures var disk1 := disk[FirstSector(nrSmap) + n := disk[FirstSector(nrSmap) + n - 1]];
            RawDir(nrSmap, disk1)[k] ==
            RawDir(nrSmap, disk)[if k / ENTRIES_PER_SECTOR == n then k - ENTRIES_PER_SECTOR else k]
  {
  }

  lemma RepeatBlock(nrSmap: nat, disk: seq<Sector>, n: nat)
    requires HasLayout(nrSmap, disk) && 0 < n < NR_DEFAULT_FILE_SECTS
    ensures Dir(nrSmap, disk[FirstSector(nrSmap) + n := disk[FirstSector(nrSmap) + n - 1]]) ==
            BlockRepeated(Dir(nrSmap, disk), ENTRIES_PER_SECTOR * n)
  {
    var disk1 := disk[FirstSector(nrSmap) + n := disk[FirstSector(nrSmap) + n - 1]];
    var before, after := Dir(nrSmap, disk), Dir(nrSmap, disk1);
    var expected := BlockRepeated(before, ENTRIES_PER_SECTOR * n);
    forall k | 0 <= k < DIR_SLOTS ensures after[k] == expected[k] {
      RepeatRaw(nrSmap, disk, n, k);
      DecodeEntriesAt(RawDir(nrSmap, disk), if k / ENTRIES_PER_SECTOR == n then k - ENTRIES_PER_SECTOR else k);
      DecodeEntriesAt(RawDir(nrSmap, disk1), k);
    }
  }

  /** `new_dir_entry` up to the write of the block; returns the directory's new size. */
  method InsertEntry(dev: Device, nrSmap: nat, size: nat, inodeNr: nat, name: Name) returns (newSize: nat)
    requires dev.Valid() && HasLayout(nrSmap, dev.disk) && dev.fsbuf.Length >= 2 * SECTOR_SIZE
    requires DIR_ENTRY_SIZE <= size && size + SECTOR_SIZE <= NR_DEFAULT_FILE_SECTS * SECTOR_SIZE
    requires Storable(name) && inodeNr < WORD_LIMIT
    modifies dev`disk, dev.fsbuf
    ensures |dev.disk| == old(|dev.disk|)
    ensures var dir := old(Dir(nrSmap, dev.disk));
            var nr := size / DIR_ENTRY_SIZE;
            var h := FirstHole(dir, 0, nr);
            |dir[h].name| == MAX_FILENAME_LEN &&
            newSize == (if h < nr then size else size + DIR_ENTRY_SIZE) &&
            if SlotInBlock(dir, size) then Dir(nrSmap, dev.disk) == Inserted(dir, h, inodeNr, name)
            else nr == ENTRIES_PER_SECTOR * Blocks(size) && Dir(nrSmap, dev.disk) == BlockRepeated(dir, nr)
    ensures forall k ::
      0 <= k < |dev.disk| && !(FirstSector(nrSmap) <= k < FirstSector(nrSmap) + NR_DEFAULT_FILE_SECTS) ==>
      dev.disk[k] == old(dev.disk)[k]
  {
    ghost var dir := Dir(nrSmap, dev.disk);
    ghost var h := FirstHole(dir, 0, size / DIR_ENTRY_SIZE);
    var found, i, j := FindSlot(dev, nrSmap, size, dir);
    NamesAreFields(nrSmap, dev.disk, h);
    newSize := if found then size else size + DIR_ENTRY_SIZE;
    if j < ENTRIES_PER_SECTOR {
      StoreEntry(dev, nrSmap, i, j, inodeNr, name);
    } else {
      ghost var read := dev.fsbuf[..SECTOR_SIZE];
      PutEntry(dev, j * DIR_ENTRY_SIZE, inodeNr, name);
      assert dev.fsbuf[..SECTOR_SIZE] == read;
      RepeatBlock(nrSmap, dev.disk, i);
      dev.WrSect(FirstSector(nrSmap) + i);
    }
  }

  // ---------------------------------------------------------------- removal

  const ERASED := Entry(0, [NUL, NUL, NUL, NUL, NUL, NUL, NUL, NUL, NUL, NUL, NUL, NUL])

  /** The first entry in [k, nr) that names inode `num`, or `nr`. */
  function FindInode(dir: seq<Entry>, k: nat, nr: nat, num: nat): (e: nat)
    requires k <= nr <= |dir|
    ensures k <= e <= nr && (e < nr ==> dir[e].inode == num)
    ensures forall x :: k <= x < e ==> dir[x].inode != num
    decreases nr - k
  {
    if k == nr || dir[k].inode == num then k else FindInode(dir, k + 1, nr, num)
  }

  /** How many of the first `m` entries are in use. */
  function LiveBefore(dir: seq<Entry>, m: nat): (n: nat)
    requires m <= |dir|
    ensures n <= m
  {
    if m == 0 then 0 else LiveBefore(dir, m - 1) + if dir[m - 1].inode != 0 then 1 else 0
  }

  /** The entries in use among the first `m`, counted. */
  lemma {:induction false} LiveIsCount(dir: seq<Entry>, m: nat)
    requires m <= |dir|
    ensures LiveBefore(dir, m) == |set k | 0 <= k < m && dir[k].inode != 0|
  {
    var s := set k | 0 <= k < m && dir[k].inode != 0;
    if m > 0 {
      LiveIsCount(dir, m - 1);
      var r := set k | 0 <= k < m - 1 && dir[k].inode != 0;
      assert s == if dir[m - 1].inode != 0 then r + {m - 1} else r;
    }
  }

  /** The scan of `do_unlink`, over block `i`, which is in the buffer. */
  method ScanForInode(dev: Device, nrSmap: nat, i: nat, nr: nat, num: nat, dirSize0: nat, ghost dir: seq<Entry>)
    returns (found: bool, j: nat, dirSize: nat)
    requires HasLayout(nrSmap, dev.disk) && HoldsBlock(dev, nrSmap, i) && ENTRIES_PER_SECTOR * i <= nr <= |dir|
    requires dir == Dir(nrSmap, dev.disk) && dirSize0 == DIR_ENTRY_SIZE * LiveBefore(dir, ENTRIES_PER_SECTOR * i)
    ensures j <= ENTRIES_PER_SECTOR && ENTRIES_PER_SECTOR * i + j <= nr
    ensures FindInode(dir, ENTRIES_PER_SECTOR * i, nr, num) == FindInode(dir, ENTRIES_PER_SECTOR * i + j, nr, num)
    ensures found ==> j < ENTRIES_PER_SECTOR && ENTRIES_PER_SECTOR * i + j < nr
    ensures found ==> dir[ENTRIES_PER_SECTOR * i + j].inode == num
    ensures !found ==> j == ENTRIES_PER_SECTOR || ENTRIES_PER_SECTOR * i + j == nr
    ensures dirSize == DIR_ENTRY_SIZE * LiveBefore(dir, ENTRIES_PER_SECTOR * i + j)
  {
    j := 0;
    dirSize := dirSize0;
    ghost var base: nat := ENTRIES_PER_SECTOR * i;
    while j < ENTRIES_PER_SECTOR
      invariant j <= ENTRIES_PER_SECTOR && base + j <= nr
      invariant FindInode(dir, base, nr, num) == FindInode(dir, base + j, nr, num)
      invariant dirSize == DIR_ENTRY_SIZE * LiveBefore(dir, base + j)
    {
      if ENTRIES_PER_SECTOR * i + j + 1 > nr {
        return false, j, dirSize;
      }
      EntryInBlock(dev, nrSmap, i, j);
      var o := j * DIR_ENTRY_SIZE;
      var inode := DecodeEntry(dev.fsbuf[o..o + 16]).inode;
      if inode == num {
        return true, j, dirSize;
      }
      if inode != 0 {
        dirSize := dirSize + DIR_ENTRY_SIZE;
      }
      j := j + 1;
    }
    return false, j, dirSize;
  }

  lemma {:induction false} ValueOfZeros(bits: seq<bool>, i: nat)
    requires i <= |bits| && forall k :: 0 <= k < |bits| ==> !bits[k]
    ensures Value(bits, i) == 0
    decreases |bits| - i
  {
    if i < |bits| {
      ValueOfZeros(bits, i + 1);
    }
  }

  lemma ZeroBytesAreErased(bytes: seq<Byte>)
    requires |bytes| == 16 && forall i :: 0 <= i < 16 ==> bytes[i] == NUL
    ensures DecodeEntry(bytes) == ERASED
  {
    ValueOfZeros(Joined(bytes[0], bytes[1], bytes[2], bytes[3]), 0);
    assert bytes[4..16] == ERASED.name;
  }

  /** `kmemset` of the entry in slot `j` of block `i`, which is in the buffer, and the write of the block. */
  method EraseEntry(dev: Device, nrSmap: nat, i: nat, j: nat)
    requires HasLayout(nrSmap, dev.disk) && HoldsBlock(dev, nrSmap, i) && j < ENTRIES_PER_SECTOR
    modifies dev`disk, dev.fsbuf
    ensures |dev.disk| == old(|dev.disk|)
    ensures var h := ENTRIES_PER_SECTOR * i + j;
            h < DIR_SLOTS && Dir(nrSmap, dev.disk) == old(Dir(nrSmap, dev.disk))[h := ERASED]
    ensures forall k :: 0 <= k < |dev.disk| && k != FirstSector(nrSmap) + i ==> dev.disk[k] == old(dev.disk)[k]
  {
    ghost var h := ENTRIES_PER_SECTOR * i + j;
    EntryInBlock(dev, nrSmap, i, j);
    ghost var read: Sector := dev.fsbuf[..SECTOR_SIZE];
    var o := j * DIR_ENTRY_SIZE;
    forall x | o <= x < o + 16 {
      dev.fsbuf[x] := NUL;
    }
    ghost var buf: Sector := dev.fsbuf[..SECTOR_SIZE];
    assert forall x :: 0 <= x < SECTOR_SIZE && !(o <= x < o + 16) ==> buf[x] == read[x];
    ZeroBytesAreErased(buf[o..o + 16]);
    OneEntry(nrSmap, dev.disk, h, buf);
    dev.WrSect(FirstSector(nrSmap) + i);
  }

  /** The last part of `do_unlink`, up to `i_size`: erases the entry of inode `num`, which the
      kernel asserts to be there; if it was the last one, the directory gets a new size. */
  method RemoveEntry(dev: Device, nrSmap: nat, size: nat, num: nat) returns (newSize: nat, last: bool)
    requires dev.Valid() && HasLayout(nrSmap, dev.disk) && size <= NR_DEFAULT_FILE_SECTS * SECTOR_SIZE
    requires FindInode(Dir(nrSmap, dev.disk), 0, size / DIR_ENTRY_SIZE, num) < size / DIR_ENTRY_SIZE
    modifies dev`disk, dev.fsbuf
    ensures |dev.disk| == old(|dev.disk|)
    ensures var dir := old(Dir(nrSmap, dev.disk));
            var nr := size / DIR_ENTRY_SIZE;
            var e := FindInode(dir, 0, nr, num);
            Dir(nrSmap, dev.disk) == dir[e := ERASED] &&
            last == (e + 1 == nr) && (last ==> newSize == DIR_ENTRY_SIZE * LiveBefore(dir, e))
    ensures forall k ::
      0 <= k < |dev.disk| && !(FirstSector(nrSmap) <= k < FirstSector(nrSmap) + NR_DEFAULT_FILE_SECTS) ==>
      dev.disk[k] == old(dev.disk)[k]
  {
    ghost var dir := Dir(nrSmap, dev.disk);
    var nr: nat := size / DIR_ENTRY_SIZE;
    ghost var e := FindInode(dir, 0, nr, num);
    var dirSize := 0;
    var i := 0;
    while i < Blocks(size)
      invariant i <= Blocks(size) && ENTRIES_PER_SECTOR * i <= nr && dev.disk == old(dev.disk)
      invariant FindInode(dir, ENTRIES_PER_SECTOR * i, nr, num) == e
      invariant dirSize == DIR_ENTRY_SIZE * LiveBefore(dir, ENTRIES_PER_SECTOR * i)
    {
      dev.RdSect(FirstSector(nrSmap) + i);
      var found, j;
      found, j, dirSize := ScanForInode(dev, nrSmap, i, nr, num, dirSize, dir);
      if found {
        EraseEntry(dev, nrSmap, i, j);
        return dirSize, ENTRIES_PER_SECTOR * i + j + 1 == nr;
      }
      i := i + 1;
    }
  }
}
