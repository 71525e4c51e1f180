/** The root directory as a finite map from names to inode numbers, within its first block. */
module Names {
  import opened Volume
  import opened Records
  import opened Directory

  // ---------------------------------------------------------------- the map

  /** A free slot, and every slot behind the last one in use, is all zeros; a used one has a name. */
  predicate Kept(dir: seq<Entry>, nr: nat, k: nat)
    requires k < |dir|
  {
    |dir[k].name| == MAX_FILENAME_LEN &&
    if k < nr && dir[k].inode != 0 then CStr(dir[k].name) != [] else dir[k] == ERASED
  }

  predicate Apart(dir: seq<Entry>, j: nat, k: nat)
    requires j < |dir| && k < |dir|
  {
    dir[j].inode != 0 && dir[k].inode != 0 ==>
      dir[j].inode != dir[k].inode && CStr(dir[j].name) != CStr(dir[k].name)
  }

  /** What the directory keeps between requests: one block, at least one entry, `nr` in all. */
  ghost predicate Tidy(dir: seq<Entry>, nr: nat) {
    1 <= nr <= ENTRIES_PER_SECTOR && |dir| == DIR_SLOTS &&
    (forall k :: 0 <= k < ENTRIES_PER_SECTOR ==> Kept(dir, nr, k)) &&
    forall j, k :: 0 <= j < k < ENTRIES_PER_SECTOR ==> Apart(dir, j, k)
  }

  predicate Live(dir: seq<Entry>, nr: nat, k: int) {
    0 <= k < nr && k < |dir| && dir[k].inode != 0
  }

  function AsMap(dir: seq<Entry>, nr: nat): (m: map<Name, nat>)
    requires nr <= |dir|
  {
    if nr == 0 then map[]
    else if dir[nr - 1].inode == 0 then AsMap(dir, nr - 1)
    else AsMap(dir, nr - 1)[CStr(dir[nr - 1].name) := dir[nr - 1].inode]
  }

  /** Every entry in use is in the map. */
  lemma {:induction false} EntryInMap(dir: seq<Entry>, nr: nat, k: nat)
    requires nr <= |dir| && Live(dir, nr, k) && forall j :: k < j < nr ==> Apart(dir, k, j)
    ensures CStr(dir[k].name) in AsMap(dir, nr) && AsMap(dir, nr)[CStr(dir[k].name)] == dir[k].inode
  {
    if k < nr - 1 {
      EntryInMap(dir, nr - 1, k);
      assert Apart(dir, k, nr - 1);
    }
  }

  /** The entry behind a name of the map. */
  lemma {:induction false} EntryOf(dir: seq<Entry>, nr: nat, name: Name) returns (k: nat)
    requires nr <= |dir| && name in AsMap(dir, nr)
    ensures Live(dir, nr, k) && CStr(dir[k].name) == name && AsMap(dir, nr)[name] == dir[k].inode
  {
    if dir[nr - 1].inode != 0 && CStr(dir[nr - 1].name) == name {
      k := nr - 1;
    } else {
      k := EntryOf(dir, nr - 1, name);
    }
  }

  lemma TidyEntryInMap(dir: seq<Entry>, nr: nat, k: nat)
    requires Tidy(dir, nr) && Live(dir, nr, k)
    ensures CStr(dir[k].name) in AsMap(dir, nr) && AsMap(dir, nr)[CStr(dir[k].name)] == dir[k].inode
  {
    EntryInMap(dir, nr, k);
  }

  lemma LimitIs(nr: nat)
    requires 1 <= nr
    ensures nr <= ENTRIES_PER_SECTOR ==>
      SearchLimit(DIR_ENTRY_SIZE * nr) == if nr < ENTRIES_PER_SECTOR then nr + 1 else nr
    ensures nr == ENTRIES_PER_SECTOR + 1 ==> SearchLimit(DIR_ENTRY_SIZE * nr) == nr + 1
  {
  }

  /** The entry at which a search stops. */
  lemma {:induction false} StopsAt(dir: seq<Entry>, k: nat, limit: nat, name: Name) returns (e: nat)
    requires k <= limit <= |dir|
    ensures k <= e <= limit && forall x :: k <= x < e ==> CStr(dir[x].name) != name
    ensures if e < limit then CStr(dir[e].name) == name && Lookup(dir, k, limit, name) == dir[e].inode
            else Lookup(dir, k, limit, name) == 0
    decreases limit - k
  {
    if k == limit || CStr(dir[k].name) == name {
      e := k;
    } else {
      e := StopsAt(dir, k + 1, limit, name);
    }
  }

  /** `search_file` is look-up in the map, although it compares one slot too many. */
  lemma SearchIsLookup(dir: seq<Entry>, nr: nat, name: Name)
    requires Tidy(dir, nr)
    ensures var limit := SearchLimit(DIR_ENTRY_SIZE * nr);
            var m := AsMap(dir, nr);
            limit <= |dir| && Lookup(dir, 0, limit, name) == if name in m then m[name] else 0
  {
    var m := AsMap(dir, nr);
    LimitIs(nr);
    var e := StopsAt(dir, 0, SearchLimit(DIR_ENTRY_SIZE * nr), name);
    if name in m {
      var k := EntryOf(dir, nr, name);
      assert Kept(dir, nr, k);
    }
    if e < SearchLimit(DIR_ENTRY_SIZE * nr) {
      assert Kept(dir, nr, e) && CStr(ERASED.name) == [];
      if Live(dir, nr, e) {
        TidyEntryInMap(dir, nr, e);
      }
    }
  }

  /** The map names each inode at most once, and never inode 0. */
  lemma MapIsInjective(dir: seq<Entry>, nr: nat, a: Name, b: Name)
    requires Tidy(dir, nr) && a in AsMap(dir, nr) && b in AsMap(dir, nr)
    ensures AsMap(dir, nr)[a] != 0 && (AsMap(dir, nr)[a] == AsMap(dir, nr)[b] ==> a == b)
  {
    var j := EntryOf(dir, nr, a);
    var k := EntryOf(dir, nr, b);
    assert j < k ==> Apart(dir, j, k);
    assert k < j ==> Apart(dir, k, j);
  }

  // ---------------------------------------------------------------- create

  /** The number of entries after `new_dir_entry`. */
  function GrownTo(dir: seq<Entry>, nr: nat): (nr': nat)
    requires nr <= |dir|
  {
    if FirstHole(dir, 0, nr) < nr then nr else nr + 1
  }

  lemma InsertedIsTidy(dir: seq<Entry>, nr: nat, num: nat, name: Name)
    requires Tidy(dir, nr) && SlotInBlock(dir, DIR_ENTRY_SIZE * nr)
    requires num != 0 && Storable(name) && name != [] && name !in AsMap(dir, nr)
    requires forall k :: 0 <= k < nr ==> dir[k].inode != num
    ensures var h := FirstHole(dir, 0, nr);
            h < ENTRIES_PER_SECTOR && |dir[h].name| == MAX_FILENAME_LEN &&
            Tidy(Inserted(dir, h, num, name), GrownTo(dir, nr))
  {
    var h := FirstHole(dir, 0, nr);
    assert Kept(dir, nr, h);
    var dir1, nr1 := Inserted(dir, h, num, name), GrownTo(dir, nr);
    StoredName(dir[h].name, name);
    forall k | 0 <= k < ENTRIES_PER_SECTOR ensures Kept(dir1, nr1, k) {
      assert Kept(dir, nr, k);
    }
    forall k | 0 <= k < ENTRIES_PER_SECTOR && dir[k].inode != 0
      ensures dir[k].inode != num && CStr(dir[k].name) != name
    {
      assert Kept(dir, nr, k);
      TidyEntryInMap(dir, nr, k);
    }
    forall j, k | 0 <= j < k < ENTRIES_PER_SECTOR ensures Apart(dir1, j, k) {
      assert Apart(dir, j, k);
    }
  }

  /** Creating a file adds its name to the map and changes nothing else; a hole is reused
      whenever there is one. */
  lemma CreateAddsName(dir: seq<Entry>, nr: nat, num: nat, name: Name)
    requires Tidy(dir, nr) && SlotInBlock(dir, DIR_ENTRY_SIZE * nr)
    requires num != 0 && Storable(name) && name != [] && name !in AsMap(dir, nr)
    requires forall k :: 0 <= k < nr ==> dir[k].inode != num
    ensures var h := FirstHole(dir, 0, nr);
            |dir[h].name| == MAX_FILENAME_LEN && Tidy(Inserted(dir, h, num, name), GrownTo(dir, nr)) &&
            AsMap(Inserted(dir, h, num, name), GrownTo(dir, nr)) == AsMap(dir, nr)[name := num]
  {
    InsertedIsTidy(dir, nr, num, name);
    var h := FirstHole(dir, 0, nr);
    var dir1, nr1 := Inserted(dir, h, num, name), GrownTo(dir, nr);
    var m, m1 := AsMap(dir, nr), AsMap(dir1, nr1);
    StoredName(dir[h].name, name);
    TidyEntryInMap(dir1, nr1, h);
    forall n | n in m ensures n in m1 && m1[n] == m[n] {
      var k := EntryOf(dir, nr, n);
      TidyEntryInMap(dir1, nr1, k);
    }
    forall n | n in m1 && n != name ensures n in m {
      var k := EntryOf(dir1, nr1, n);
      TidyEntryInMap(dir, nr, k);
    }
  }

  /** If the slot lies in no block that was read, the new name cannot be found afterwards:
      the block is written once more behind itself, without the entry. */
  lemma FullBlockLosesName(dir: seq<Entry>, nr: nat, name: Name)
    requires Tidy(dir, nr) && !SlotInBlock(dir, DIR_ENTRY_SIZE * nr) && name != [] && name !in AsMap(dir, nr)
    ensures nr == ENTRIES_PER_SECTOR
    ensures var limit := SearchLimit(DIR_ENTRY_SIZE * GrownTo(dir, nr));
            limit <= DIR_SLOTS && Lookup(BlockRepeated(dir, nr), 0, limit, name) == 0
  {
    var dir1 := BlockRepeated(dir, nr);
    var limit := SearchLimit(DIR_ENTRY_SIZE * GrownTo(dir, nr));
    LimitIs(nr + 1);
    forall x | 0 <= x < limit ensures CStr(dir1[x].name) != name {
      var k := if x < nr then x else x - ENTRIES_PER_SECTOR;
      assert dir1[x] == dir[k] && Kept(dir, nr, k);
      if Live(dir, nr, k) {
        TidyEntryInMap(dir, nr, k);
      }
    }
    var e := StopsAt(dir1, 0, limit, name);
  }

  /** The name that `new_dir_entry` was given is found afterwards if and only if the slot it
      picked lies in a block that it has read. */
  lemma NewNameIsFound(dir: seq<Entry>, nr: nat, num: nat, name: Name)
    requires Tidy(dir, nr) && num != 0 && Storable(name) && name != [] && name !in AsMap(dir, nr)
    requires forall k :: 0 <= k < nr ==> dir[k].inode != num
    requires |dir[FirstHole(dir, 0, nr)].name| == MAX_FILENAME_LEN
    ensures var h := FirstHole(dir, 0, nr);
            (!SlotInBlock(dir, DIR_ENTRY_SIZE * nr) ==> nr == ENTRIES_PER_SECTOR) &&
            var dir1 :=
              if SlotInBlock(dir, DIR_ENTRY_SIZE * nr) then Inserted(dir, h, num, name) else BlockRepeated(dir, nr);
            var limit := SearchLimit(DIR_ENTRY_SIZE * GrownTo(dir, nr));
            limit <= |dir1| && (Lookup(dir1, 0, limit, name) == num <==> SlotInBlock(dir, DIR_ENTRY_SIZE * nr))
  {
    var h := FirstHole(dir, 0, nr);
    LimitIs(nr);
    if SlotInBlock(dir, DIR_ENTRY_SIZE * nr) {
      CreateAddsName(dir, nr, num, name);
      SearchIsLookup(Inserted(dir, h, num, name), GrownTo(dir, nr), name);
    } else {
      FullBlockLosesName(dir, nr, name);
    }
  }

  // ---------------------------------------------------------------- unlink

  /** The number of entries after `do_unlink` erased entry `e`. */
  function ShrunkTo(dir: seq<Entry>, nr: nat, e: nat): (nr': nat)
    requires e < nr <= |dir|
    ensures nr' <= nr
  {
    if e + 1 == nr then LiveBefore(dir, e) else nr
  }

  /** No entry in use follows a hole. */
  ghost predicate Packed(dir: seq<Entry>, e: nat)
    requires e <= |dir|
  {
    forall j, k :: 0 <= j < k < e && dir[j].inode == 0 ==> dir[k].inode == 0
  }

  lemma {:induction false} DeadTail(dir: seq<Entry>, p: nat, e: nat)
    requires p <= e <= |dir| && forall k :: p <= k < e ==> dir[k].inode == 0
    ensures LiveBefore(dir, e) == LiveBefore(dir, p)
    decreases e
  {
    if p < e {
      DeadTail(dir, p, e - 1);
    }
  }

  lemma {:induction false} AllLive(dir: seq<Entry>, p: nat)
    requires p <= |dir|
    ensures LiveBefore(dir, p) == p <==> forall k :: 0 <= k < p ==> dir[k].inode != 0
  {
    if p > 0 {
      AllLive(dir, p - 1);
    }
  }

  /** The count is the place where the entries in use end, exactly when they are packed. */
  lemma CountIsEnd(dir: seq<Entry>, e: nat)
    requires e <= |dir|
    ensures Packed(dir, e) <==> forall k :: LiveBefore(dir, e) <= k < e ==> dir[k].inode == 0
  {
  }

  lemma {:induction false} LiveCountPositive(dir: seq<Entry>, k: nat, e: nat)
    requires k < e <= |dir| && dir[k].inode != 0
    ensures LiveBefore(dir, e) > 0
    decreases e
  {
    if k < e - 1 {
      LiveCountPositive(dir, k, e - 1);
    }
  }

  /** Removing a file takes its name out of the map and changes nothing else, if and only if the
      erased entry was not the last one or no entry in use follows a hole before it. */
  lemma UnlinkRemovesName(dir: seq<Entry>, nr: nat, e: nat)
    requires Tidy(dir, nr) && e < nr && dir[e].inode != 0 && e > 0 && dir[0].inode != 0
    ensures e + 1 < nr || Packed(dir, e) <==>
            AsMap(dir[e := ERASED], ShrunkTo(dir, nr, e)) == AsMap(dir, nr) - {CStr(dir[e].name)}
    ensures e + 1 < nr || Packed(dir, e) ==> Tidy(dir[e := ERASED], ShrunkTo(dir, nr, e))
  {
    var dir1, nr1 := dir[e := ERASED], ShrunkTo(dir, nr, e);
    CountIsEnd(dir, e);
    LiveCountPositive(dir, 0, e);
    if e + 1 < nr || Packed(dir, e) {
      ErasedIsTidy(dir, nr, e);
      assert e + 1 == nr ==> forall k :: nr1 <= k < e ==> dir[k].inode == 0;
      ErasedMap(dir, nr, e);
    } else {
      var k: nat :| nr1 <= k < e && dir[k].inode != 0;
      TidyEntryInMap(dir, nr, k);
      assert Apart(dir, k, e);
      forall j: nat | Live(dir1, nr1, j) ensures CStr(dir1[j].name) != CStr(dir[k].name) {
        assert dir1[j] == dir[j] && Apart(dir, j, k);
      }
      if CStr(dir[k].name) in AsMap(dir1, nr1) {
        var j := EntryOf(dir1, nr1, CStr(dir[k].name));
      }
    }
  }

  lemma ErasedIsTidy(dir: seq<Entry>, nr: nat, e: nat)
    requires Tidy(dir, nr) && e < nr && 0 < ShrunkTo(dir, nr, e)
    requires e + 1 == nr ==> forall k :: ShrunkTo(dir, nr, e) <= k < e ==> dir[k].inode == 0
    ensures Tidy(dir[e := ERASED], ShrunkTo(dir, nr, e))
  {
    var dir1, nr1 := dir[e := ERASED], ShrunkTo(dir, nr, e);
    forall k | 0 <= k < ENTRIES_PER_SECTOR ensures Kept(dir1, nr1, k) {
      assert Kept(dir, nr, k);
    }
    forall j, k | 0 <= j < k < ENTRIES_PER_SECTOR ensures Apart(dir1, j, k) {
      assert Apart(dir, j, k);
    }
  }

  lemma ErasedMap(dir: seq<Entry>, nr: nat, e: nat)
    requires Tidy(dir, nr) && e < nr && dir[e].inode != 0
    requires Tidy(dir[e := ERASED], ShrunkTo(dir, nr, e))
    requires e + 1 == nr ==> forall k :: ShrunkTo(dir, nr, e) <= k < e ==> dir[k].inode == 0
    ensures AsMap(dir[e := ERASED], ShrunkTo(dir, nr, e)) == AsMap(dir, nr) - {CStr(dir[e].name)}
  {
    var dir1, nr1 := dir[e := ERASED], ShrunkTo(dir, nr, e);
    var m, m1 := AsMap(dir, nr), AsMap(dir1, nr1);
    var name := CStr(dir[e].name);
    assert forall k: nat :: Live(dir1, nr1, k) <==> k != e && Live(dir, nr, k);
    forall n | n in m && n != name ensures n in m1 && m1[n] == m[n] {
      var k := EntryOf(dir, nr, n);
      TidyEntryInMap(dir1, nr1, k);
    }
    forall n | n in m1 ensures n in m && n != name {
      var k := EntryOf(dir1, nr1, n);
      TidyEntryInMap(dir, nr, k);
      assert if k < e then Apart(dir, k, e) else Apart(dir, e, k);
    }
  }

  /** Why the condition matters: of four files the first two and then the last are removed.  The
      third is still in its slot, but the directory has become too short for a search to reach it. */
  lemma ShrinkLosesFile(dir: seq<Entry>, nr: nat, a: Entry, b: Entry, c: Entry, d: Entry)
    requires 1 <= nr && nr + 4 <= ENTRIES_PER_SECTOR <= |dir| && forall k :: 0 <= k < nr ==> dir[k].inode != 0
    requires a.inode != 0 && b.inode != 0 && c.inode != 0 && d.inode != 0 && CStr(c.name) != []
    requires forall k :: 0 <= k < nr ==> CStr(dir[k].name) != CStr(c.name)
    ensures var full := dir[nr := a][nr + 1 := b][nr + 2 := c][nr + 3 := d];
            var holed := full[nr := ERASED][nr + 1 := ERASED];
            var left := ShrunkTo(holed, nr + 4, nr + 3);
            left == nr + 1 && holed[nr + 2] == c &&
            SearchLimit(DIR_ENTRY_SIZE * left) <= |dir| &&
            Lookup(holed[nr + 3 := ERASED], 0, SearchLimit(DIR_ENTRY_SIZE * left), CStr(c.name)) == 0
  {
    var holed := dir[nr := a][nr + 1 := b][nr + 2 := c][nr + 3 := d][nr := ERASED][nr + 1 := ERASED];
    AllLive(holed, nr);
    DeadTail(holed, nr, nr + 2);
    LimitIs(nr + 1);
    var e := StopsAt(holed[nr + 3 := ERASED], 0, nr + 2, CStr(c.name));
  }
}
