/** Reference counts, exactly: what an inode's count is made of, over runs of requests, and when
    an unlink succeeds. */
module References {
  import opened Device
  import opened Volume
  import opened Records
  import opened InodeCache
  import opened Directory
  import opened Names
  import opened Files
  import opened Requests
  import opened Format

  // ---------------------------------------------------------------- what a count is made of

  /** A reference for each descriptor, one for `root_inode`, and one for every unlink of the
      inode that has failed; `failed` has their number for each inode. */
  predicate Exact(table: seq<Slot>, descs: seq<Desc>, failed: seq<nat>, p: nat)
    requires p < |table|
  {
    table[p].cnt == Refs(descs, p) + (if p == ROOT_SLOT then 1 else 0) +
      if table[p].cnt > 0 && table[p].num < |failed| then failed[table[p].num] else 0
  }

  ghost predicate IsCached(table: seq<Slot>, num: nat) {
    exists p :: 0 <= p < |table| && table[p].cnt > 0 && table[p].num == num
  }

  ghost predicate AllExact(table: seq<Slot>, descs: seq<Desc>, failed: seq<nat>) {
    |failed| == NR_INODES && (forall p :: 0 <= p < |table| ==> Exact(table, descs, failed, p)) &&
    forall num :: 0 <= num < |failed| && failed[num] > 0 ==> IsCached(table, num)
  }

  ghost predicate Accounted(fs: Fs, failed: seq<nat>) {
    AllExact(fs.table, fs.descs, failed)
  }

  /** A request is an unlink that takes a reference and does not go through. */
  ghost predicate FailsToUnlink(fs: Fs, r: Request)
    requires Inv(fs)
  {
    r.Unlink? && !Removes(fs, r.path) &&
    (FoundIsCached(fs, r.path); r.path != [SLASH] && Found(fs, r.path) != 0)
  }

  ghost function Failures(fs: Fs, failed: seq<nat>, r: Request): (f: seq<nat>)
    requires Inv(fs) && |failed| == NR_INODES
    ensures |f| == NR_INODES && forall n :: 0 <= n < NR_INODES ==> f[n] >= failed[n]
  {
    if FailsToUnlink(fs, r) then
      FoundIsCached(fs, r.path);
      var num := Found(fs, r.path);
      failed[num := failed[num] + 1]
    else failed
  }

  // ---------------------------------------------------------------- steps on the two tables

  /** One slot changes, and at most one descriptor and one number of failures with it. */
  lemma SlotStep(table: seq<Slot>, descs: seq<Desc>, failed: seq<nat>, p: nat, slot: Slot, descs1: seq<Desc>,
                 failed1: seq<nat>)
    requires AllExact(table, descs, failed) && p < |table| && |failed1| == |failed|
    requires forall q :: 0 <= q < |table| && q != p && table[q].cnt > 0 ==> table[q].num != slot.num
    requires table[p].cnt > 0 ==> table[p].num == slot.num
    requires forall q :: 0 <= q < |table| && q != p ==> Refs(descs1, q) == Refs(descs, q)
    requires forall n :: 0 <= n < |failed| && n != slot.num ==> failed1[n] == failed[n]
    requires Exact(table[p := slot], descs1, failed1, p)
    requires slot.num < |failed| && failed1[slot.num] > 0 ==> slot.cnt > 0
    ensures AllExact(table[p := slot], descs1, failed1)
  {
    var t := table[p := slot];
    forall q | 0 <= q < |t| ensures Exact(t, descs1, failed1, q) {
      assert Exact(table, descs, failed, q);
    }
    forall n | 0 <= n < |failed1| && failed1[n] > 0 ensures IsCached(t, n) {
      if n == slot.num {
        assert t[p].cnt > 0;
      } else {
        var q :| 0 <= q < |table| && table[q].cnt > 0 && table[q].num == n;
        assert t[q] == table[q];
      }
    }
  }

  /** `get_inode`: one reference more, to be accounted for by a descriptor or a failure. */
  lemma GetStep(table: seq<Slot>, inodes: seq<Record>, nums: set<nat>, descs: seq<Desc>, failed: seq<nat>, num: nat,
                descs1: seq<Desc>, failed1: seq<nat>)
    requires AllExact(table, descs, failed) && CacheOk(table, inodes, nums)
    requires HasRoom(table, num) && 1 <= num <= |inodes| && num < NR_INODES && |failed1| == |failed|
    requires var p := GotSlot(table, num);
             (forall q :: 0 <= q < |table| && q != p ==> Refs(descs1, q) == Refs(descs, q)) &&
             (forall n :: 0 <= n < |failed| && n != num ==> failed1[n] == failed[n]) &&
             Refs(descs1, p) + failed1[num] == Refs(descs, p) + failed[num] + 1
    ensures AllExact(GotTable(table, inodes, num), descs1, failed1)
  {
    var p := GotSlot(table, num);
    var t := GotTable(table, inodes, num);
    assert Exact(table, descs, failed, p) && t == table[p := t[p]];
    forall q | 0 <= q < |table| && q != p && table[q].cnt > 0 ensures table[q].num != num {
      if table[p].cnt > 0 {
        assert OneSlot(table, p, q);
      }
    }
    if table[p].cnt == 0 {
      assert !IsCached(table, num);
    }
    SlotStep(table, descs, failed, p, t[p], descs1, failed1);
  }

  lemma OneMoreFailure(table: seq<Slot>, inodes: seq<Record>, nums: set<nat>, descs: seq<Desc>, failed: seq<nat>,
                       num: nat)
    requires AllExact(table, descs, failed) && CacheOk(table, inodes, nums) && |failed| == NR_INODES
    requires HasRoom(table, num) && 1 <= num <= |inodes| && num < NR_INODES
    ensures AllExact(GotTable(table, inodes, num), descs, failed[num := failed[num] + 1])
  {
    GetStep(table, inodes, nums, descs, failed, num, descs, failed[num := failed[num] + 1]);
  }

  /** A change of records changes no count. */
  lemma ResizeStep(table: seq<Slot>, descs: seq<Desc>, failed: seq<nat>, p: nat, slot: Slot, descs1: seq<Desc>)
    requires AllExact(table, descs, failed) && p < |table| && slot.num == table[p].num && slot.cnt == table[p].cnt
    requires forall q :: 0 <= q < |table| ==> Refs(descs1, q) == Refs(descs, q)
    ensures AllExact(table[p := slot], descs1, failed)
  {
    var t := table[p := slot];
    forall q | 0 <= q < |t| ensures Exact(t, descs1, failed, q) {
      assert Exact(table, descs, failed, q);
    }
    forall n | 0 <= n < |failed| && failed[n] > 0 ensures IsCached(t, n) {
      var q :| 0 <= q < |table| && table[q].cnt > 0 && table[q].num == n;
      assert t[q].cnt > 0 && t[q].num == n;
    }
  }

  // ---------------------------------------------------------------- steps of the file system

  lemma RefsOfOthers(descs: seq<Desc>, d: nat, x: Desc, p: nat)
    requires d < |descs| && (descs[d].inode == NIL || descs[d].inode == p) && (x.inode == NIL || x.inode == p)
    ensures forall q: nat :: q != p ==> Refs(descs[d := x], q) == Refs(descs, q)
    ensures Refs(descs[d := x], p) ==
            Refs(descs, p) - (if descs[d].inode == p then 1 else 0) + (if x.inode == p then 1 else 0)
  {
    forall q: nat ensures Refs(descs[d := x], q) ==
      Refs(descs, q) - (if descs[d].inode == q then 1 else 0) + (if x.inode == q then 1 else 0)
    {
      RefsUpdate(descs, d, x, q);
    }
  }

  /** The open of an inode that exists. */
  lemma GottenCounts(fs: Fs, failed: seq<nat>, num: nat, d: nat, flags: Flags)
    requires Inv(fs) && Accounted(fs, failed) && 1 <= num < NR_INODES && (num < RESERVED_INODES || num in FileNums(fs))
    requires d < |fs.descs| && fs.descs[d].inode == NIL
    ensures HasRoom(fs.table, num)
    ensures AllExact(GotTable(fs.table, fs.inodes, num), fs.descs[d := Desc(GotSlot(fs.table, num), flags, 0)], failed)
  {
    GetKeeps(fs, num);
    var x := Desc(GotSlot(fs.table, num), flags, 0);
    RefsOfOthers(fs.descs, d, x, x.inode);
    GetStep(fs.table, fs.inodes, FileNums(fs), fs.descs, failed, num, fs.descs[d := x], failed);
  }

  /** The open of a file that it creates. */
  lemma CreatedCounts(fs: Fs, failed: seq<nat>, name: Name, d: nat, flags: Flags)
    requires Inv(fs) && Accounted(fs, failed) && CanAllocate(fs, name)
    requires d < |fs.descs| && fs.descs[d].inode == NIL
    ensures CreateOk(fs, name)
    ensures var num := FirstClear(fs.inodeMap, 0);
            failed[num] == 0 && AllExact(Entered(Allocated(fs), num, name).table,
                                         fs.descs[d := Desc(GotSlot(fs.table, num), flags, 0)], failed)
  {
    CreateReady(fs, name);
    InodeIsFree(fs);
    var num := FirstClear(fs.inodeMap, 0);
    NotCached(fs.table, fs.inodes, FileNums(fs), num);
    var p := GotSlot(fs.table, num);
    var x := Desc(p, flags, 0);
    var t0 := Allocated(fs).table;
    assert !IsCached(fs.table, num) && Exact(fs.table, fs.descs, failed, p);
    RefsOfOthers(fs.descs, d, x, p);
    SlotStep(fs.table, fs.descs, failed, p, t0[p], fs.descs[d := x], failed);
    ResizeStep(t0, fs.descs[d := x], failed, ROOT_SLOT, Entered(Allocated(fs), num, name).table[ROOT_SLOT],
               fs.descs[d := x]);
  }

  lemma OpenCounts(fs: Fs, failed: seq<nat>, proc: nat, path: seq<Byte>, flags: Flags)
    requires Inv(fs) && Defined(fs, Open(proc, path, flags)) && Accounted(fs, failed)
    ensures Accounted(Opened(fs, proc, path, flags).0, failed)
  {
    FoundIsCached(fs, path);
    FoundIsLookup(fs, path);
    var fd, d, num := FreeHandle(fs.filp[proc], 0), FreeDesc(fs.descs, 0), Found(fs, path);
    if fd < NR_FILES && d < NR_FILE_DESC && !HasSlash(path) && !(flags.create <==> num != 0) {
      if flags.create {
        CreatedCounts(fs, failed, Stripped(path).value, d, flags);
      } else {
        GottenCounts(fs, failed, num, d, flags);
      }
    }
  }

  lemma CloseCounts(fs: Fs, failed: seq<nat>, proc: nat, fd: nat)
    requires Inv(fs) && Defined(fs, Close(proc, fd)) && Accounted(fs, failed)
    ensures Accounted(Next(fs, Close(proc, fd)).0, failed)
  {
    HandleIsMentioned(fs, proc, fd);
    var d, p := fs.filp[proc][fd], SlotBehind(fs, proc, fd);
    var s := fs.table[p];
    OthersDiffer(fs, p);
    RefsPositive(fs.descs, d);
    assert Exact(fs.table, fs.descs, failed, p);
    RefsOfOthers(fs.descs, d, fs.descs[d].(inode := NIL), p);
    SlotStep(fs.table, fs.descs, failed, p, s.(cnt := s.cnt - 1), fs.descs[d := fs.descs[d].(inode := NIL)], failed);
  }

  lemma RdwtCounts(fs: Fs, failed: seq<nat>, proc: nat, fd: nat, write: bool, len: nat)
    requires Inv(fs) && Defined(fs, Rdwt(proc, fd, write, len)) && Accounted(fs, failed)
    ensures Accounted(Next(fs, Rdwt(proc, fd, write, len)).0, failed)
  {
    HandleIsMentioned(fs, proc, fd);
    var fs1 := Next(fs, Rdwt(proc, fd, write, len)).0;
    var d, p := fs.filp[proc][fd], SlotBehind(fs, proc, fd);
    if ModeOf(fs, proc, fd).Rdwr() {
      RefsOfOthers(fs.descs, d, fs1.descs[d], p);
      ResizeStep(fs.table, fs.descs, failed, p, fs1.table[p], fs1.descs);
      assert fs.table[p := fs1.table[p]] == fs1.table;
    }
  }

  lemma FailedIsGet(fs: Fs, path: seq<Byte>)
    requires Inv(fs) && FailsToUnlink(fs, Unlink(path))
    ensures (FoundIsCached(fs, path);
             var num := Found(fs, path);
             HasRoom(fs.table, num) && 1 <= num < NR_INODES && Unlinked(fs, path) == (Gotten(fs, num), Returned(-1)))
  {
    FoundIsCached(fs, path);
    GetKeeps(fs, Found(fs, path));
    RemovesReady(fs, path);
  }

  /** A failed unlink keeps the reference it took. */
  lemma FailedCounts(fs: Fs, failed: seq<nat>, path: seq<Byte>)
    requires Inv(fs) && Accounted(fs, failed) && FailsToUnlink(fs, Unlink(path))
    ensures Unlinked(fs, path).1 == Returned(-1) && Accounted(Unlinked(fs, path).0, Failures(fs, failed, Unlink(path)))
  {
    FoundIsCached(fs, path);
    FailedIsGet(fs, path);
    OneMoreFailure(fs.table, fs.inodes, FileNums(fs), fs.descs, failed, Found(fs, path));
  }

  lemma RemovedCounts(fs: Fs, failed: seq<nat>, path: seq<Byte>)
    requires Inv(fs) && Accounted(fs, failed) && Removes(fs, path)
    ensures Accounted(Unlinked(fs, path).0, failed)
  {
    FoundIsCached(fs, path);
    var num := Found(fs, path);
    GetKeeps(fs, num);
    RemovesReady(fs, path);
    var p := GotSlot(fs.table, num);
    var fs0 := Freed(Gotten(fs, num), num, p);
    assert !IsCached(fs.table, num) && Exact(fs.table, fs.descs, failed, p);
    assert fs0.table == fs.table[p := fs0.table[p]];
    SlotStep(fs.table, fs.descs, failed, p, fs0.table[p], fs.descs, failed);
    var fs1 := Erased(fs0, num);
    ResizeStep(fs0.table, fs.descs, failed, ROOT_SLOT, fs1.table[ROOT_SLOT], fs.descs);
    assert fs1.table == fs0.table[ROOT_SLOT := fs1.table[ROOT_SLOT]];
  }

  /** Every request keeps the accounts. */
  lemma StepCounts(fs: Fs, failed: seq<nat>, r: Request)
    requires Inv(fs) && Defined(fs, r) && Accounted(fs, failed)
    ensures Accounted(Next(fs, r).0, Failures(fs, failed, r))
  {
    match r
    case Open(proc, path, flags) => OpenCounts(fs, failed, proc, path, flags);
    case Close(proc, fd) => CloseCounts(fs, failed, proc, fd);
    case Rdwt(proc, fd, write, len) => RdwtCounts(fs, failed, proc, fd, write, len);
    case Unlink(path) =>
      if FailsToUnlink(fs, r) {
        FailedCounts(fs, failed, path);
      } else if Removes(fs, path) {
        RemovedCounts(fs, failed, path);
      }
  }

  // ---------------------------------------------------------------- when an unlink succeeds

  /** Some descriptor names the inode. */
  ghost predicate InUse(fs: Fs, num: nat) {
    exists d :: 0 <= d < |fs.descs| && NamedBy(fs, d, num)
  }

  predicate NamedBy(fs: Fs, d: nat, num: nat)
    requires d < |fs.descs|
  {
    0 <= fs.descs[d].inode < |fs.table| && fs.table[fs.descs[d].inode].num == num
  }

  lemma {:induction false} RefsWitness(descs: seq<Desc>, p: nat) returns (d: nat)
    requires Refs(descs, p) > 0
    ensures d < |descs| && descs[d].inode == p
  {
    if descs[|descs| - 1].inode == p {
      d := |descs| - 1;
    } else {
      d := RefsWitness(descs[..|descs| - 1], p);
    }
  }

  /** An inode is cached exactly while a descriptor names it, or an unlink of it has failed. */
  lemma UsedOrFailed(fs: Fs, failed: seq<nat>, num: nat)
    requires Inv(fs) && Accounted(fs, failed) && num in FileNums(fs)
    ensures num < NR_INODES && (Unused(fs.table, num) <==> !InUse(fs, num) && failed[num] == 0)
  {
    assert IsFile(fs.nrSmap, fs.inodes, num);
    if Unused(fs.table, num) {
      assert !IsCached(fs.table, num);
      forall d | 0 <= d < |fs.descs| ensures !NamedBy(fs, d, num) {
        assert DescOk(fs.table, fs.descs[d]);
        RefsPositive(fs.descs, d);
        assert fs.descs[d].inode != NIL ==> Counted(fs.table, fs.descs, fs.descs[d].inode);
      }
    }
    forall q | 0 <= q < |fs.table| && fs.table[q].num == num && fs.table[q].cnt > 0
      ensures InUse(fs, num) || failed[num] > 0
    {
      assert Exact(fs.table, fs.descs, failed, q);
      if failed[num] == 0 {
        var d := RefsWitness(fs.descs, q);
        assert NamedBy(fs, d, num);
      }
    }
  }

  /** An unlink succeeds if and only if the path leads to a regular file that no descriptor names
      and of which no unlink has failed. */
  lemma UnlinkSucceeds(fs: Fs, failed: seq<nat>, path: seq<Byte>)
    requires Inv(fs) && Accounted(fs, failed)
    ensures (FoundIsCached(fs, path);
             var num := Found(fs, path);
             Unlinked(fs, path).1 == Returned(0) <==> num in FileNums(fs) && !InUse(fs, num) && failed[num] == 0)
  {
    FoundIsCached(fs, path);
    var num := Found(fs, path);
    if num in FileNums(fs) {
      UsedOrFailed(fs, failed, num);
    }
    if path == [SLASH] {
      RootHasNoName(fs, path);
    }
    if path != [SLASH] && num != 0 {
      GetKeeps(fs, num);
      RemovesReady(fs, path);
    }
  }

  /** The path "/" leads nowhere, so that the comparison with it in `do_unlink` changes nothing. */
  lemma RootHasNoName(fs: Fs, path: seq<Byte>)
    requires Inv(fs) && path == [SLASH]
    ensures (FoundIsCached(fs, path); Found(fs, path) == 0)
  {
    FoundIsLookup(fs, path);
    assert Head(path) == [];
    forall k: nat | Live(fs.dir, NrEntries(fs), k) ensures CStr(fs.dir[k].name) != [] {
      assert Kept(fs.dir, NrEntries(fs), k);
    }
    if [] in NameMap(fs) {
      var k := EntryOf(fs.dir, NrEntries(fs), []);
    }
  }

  /** Of an inode that is no file's, no unlink has failed; so the number of a new file starts at 0. */
  lemma FailuresAreOfFiles(fs: Fs, failed: seq<nat>, num: nat)
    requires Inv(fs) && Accounted(fs, failed) && RESERVED_INODES <= num < NR_INODES && num !in FileNums(fs)
    ensures failed[num] == 0
  {
    forall p | 0 <= p < |fs.table| && fs.table[p].cnt > 0 ensures fs.table[p].num != num {
      assert Coherent(fs.table, fs.inodes, FileNums(fs), p);
    }
    assert !IsCached(fs.table, num);
  }

  // ---------------------------------------------------------------- runs

  /** How many unlinks of each inode have failed after a run. */
  ghost function FailedIn(fs: Fs, rs: seq<Request>, failed: seq<nat>): (f: seq<nat>)
    requires Inv(fs) && IsRun(fs, rs) && |failed| == NR_INODES
    ensures |f| == NR_INODES && forall n :: 0 <= n < NR_INODES ==> f[n] >= failed[n]
    decreases |rs|
  {
    if rs == [] then failed
    else
      RequestKeeps(fs, rs[0]);
      FailedIn(Next(fs, rs[0]).0, rs[1..], Failures(fs, failed, rs[0]))
  }

  lemma {:induction false} RunCounts(fs: Fs, rs: seq<Request>, failed: seq<nat>)
    requires Inv(fs) && IsRun(fs, rs) && Accounted(fs, failed)
    ensures Accounted(After(fs, rs), FailedIn(fs, rs, failed))
    decreases |rs|
  {
    if rs != [] {
      RequestKeeps(fs, rs[0]);
      StepCounts(fs, failed, rs[0]);
      RunCounts(Next(fs, rs[0]).0, rs[1..], Failures(fs, failed, rs[0]));
    }
  }

  const NONE_FAILED: seq<nat> := seq(4096, _ => 0)

  lemma FreshCounts(fs: Fs)
    requires Fresh(fs)
    ensures Accounted(fs, NONE_FAILED)
  {
    forall p | 0 <= p < |fs.table| ensures Exact(fs.table, fs.descs, NONE_FAILED, p) {
      NoRefs(fs.descs, p);
    }
  }

  /** Over every run from an empty file system: each count is exactly the descriptors, the root
      directory's reference and the failed unlinks, and an unlink succeeds if and only if the file
      is regular, no descriptor names it, and no unlink of it has failed. */
  lemma UnlinkOverRuns(fs: Fs, rs: seq<Request>, path: seq<Byte>)
    requires Fresh(fs) && (FreshIsGood(fs); IsRun(fs, rs))
    ensures Inv(fs) && Accounted(After(fs, rs), FailedIn(fs, rs, NONE_FAILED))
    ensures var fs1 := After(fs, rs);
            (FoundIsCached(fs1, path);
             var num := Found(fs1, path);
             Unlinked(fs1, path).1 == Returned(0) <==>
               num in FileNums(fs1) && !InUse(fs1, num) && FailedIn(fs, rs, NONE_FAILED)[num] == 0)
  {
    FreshIsGood(fs);
    FreshCounts(fs);
    RunCounts(fs, rs, NONE_FAILED);
    UnlinkSucceeds(After(fs, rs), FailedIn(fs, rs, NONE_FAILED), path);
  }

  /** A file of which an unlink has failed can never be removed again, whoever closes it. */
  lemma FailedUnlinkSticks(fs: Fs, failed: seq<nat>, path: seq<Byte>, rs: seq<Request>, path': seq<Byte>)
    requires Inv(fs) && Accounted(fs, failed) && Legal(fs, Unlink(path)) && FailsToUnlink(fs, Unlink(path))
    requires (RequestKeeps(fs, Unlink(path)); IsRun(Unlinked(fs, path).0, rs))
    ensures (RequestKeeps(fs, Unlink(path));
             var fs1 := After(Unlinked(fs, path).0, rs);
             FoundIsCached(fs, path); FoundIsCached(fs1, path');
             Found(fs1, path') == Found(fs, path) ==> Unlinked(fs1, path').1 != Returned(0))
  {
    var r := Unlink(path);
    RequestKeeps(fs, r);
    StepCounts(fs, failed, r);
    var fs0, failed0 := Next(fs, r).0, Failures(fs, failed, r);
    RunCounts(fs0, rs, failed0);
    UnlinkSucceeds(After(fs0, rs), FailedIn(fs0, rs, failed0), path');
  }
}
