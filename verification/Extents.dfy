/** The two maps over time: the sector map is always bit 0 and whole slots of 2048 bits, so that
    first-fit lands on slot boundaries, and both maps count what is in use: one bit for each
    inode, one slot for each file and for the root directory. */
module Extents {
  import opened Volume
  import opened SectorMap

  // ---------------------------------------------------------------- counting

  function Ones(bits: seq<bool>): (n: nat)
    ensures n <= |bits|
  {
    if bits == [] then 0 else Ones(bits[..|bits| - 1]) + if bits[|bits| - 1] then 1 else 0
  }

  lemma {:induction false} OnesSet(bits: seq<bool>, i: nat)
    requires i < |bits| && !bits[i]
    ensures Ones(bits[i := true]) == Ones(bits) + 1
  {
    var n := |bits| - 1;
    if i < n {
      OnesSet(bits[..n], i);
      assert bits[i := true][..n] == bits[..n][i := true];
    } else {
      assert bits[i := true][..n] == bits[..n];
    }
  }

  lemma {:induction false} OnesRange(bits: seq<bool>, from: nat, n: nat)
    requires from + n <= |bits| && forall b :: from <= b < from + n ==> !bits[b]
    ensures Ones(WithRange(bits, from, n, true)) == Ones(bits) + n
  {
    if n == 0 {
      assert WithRange(bits, from, n, true) == bits;
    } else {
      OnesRange(bits, from, n - 1);
      var less := WithRange(bits, from, n - 1, true);
      OnesSet(less, from + n - 1);
      assert WithRange(bits, from, n, true) == less[from + n - 1 := true];
    }
  }

  lemma {:induction false} FullOnes(bits: seq<bool>)
    requires forall b :: 0 <= b < |bits| ==> bits[b]
    ensures Ones(bits) == |bits|
  {
    if bits != [] {
      FullOnes(bits[..|bits| - 1]);
    }
  }

  lemma {:induction false} NoOnes(bits: seq<bool>)
    requires forall b :: 0 <= b < |bits| ==> !bits[b]
    ensures Ones(bits) == 0
  {
    if bits != [] {
      NoOnes(bits[..|bits| - 1]);
    }
  }

  // ---------------------------------------------------------------- a map of whole slots

  function SlotOfBit(b: int): int { (b - 1) / NR_DEFAULT_FILE_SECTS }

  function BitOfSlot(t: nat): nat { 1 + NR_DEFAULT_FILE_SECTS * t }

  /** The slot lies inside the map with all of its bits. */
  predicate Whole(bits: seq<bool>, t: int) { 0 <= t && BitOfSlot(t + 1) <= |bits| }

  /** The map is bit 0 and the slots of `used`. */
  ghost predicate IsSlotMap(bits: seq<bool>, used: set<nat>) {
    |bits| > 0 && (forall t :: t in used ==> Whole(bits, t)) &&
    forall b :: 0 <= b < |bits| ==> (bits[b] <==> b == 0 || SlotOfBit(b) in used)
  }

  lemma SlotBits(t: nat, b: nat)
    ensures SlotOfBit(b) == t <==> BitOfSlot(t) <= b < BitOfSlot(t + 1)
  {
  }

  /** First fit finds the front of the lowest free slot; the kernel's assertions that the bits
      behind it are clear and fit hold exactly when that slot is whole. */
  lemma FirstFit(bits: seq<bool>, used: set<nat>)
    requires IsSlotMap(bits, used)
    ensures var f := FirstClear(bits, 0);
            var t := SlotOfBit(f);
            f < |bits| ==>
              t >= 0 && f == BitOfSlot(t) && t !in used && (forall s :: 0 <= s < t ==> s in used) &&
              (CanAlloc(bits, NR_DEFAULT_FILE_SECTS) <==> Whole(bits, t))
  {
    var f := FirstClear(bits, 0);
    var t := SlotOfBit(f);
    if f < |bits| {
      SlotBits(t, f);
      SlotBits(t, BitOfSlot(t));
      assert bits[BitOfSlot(t)] <==> bits[f];
      forall s | 0 <= s < t ensures s in used {
        SlotBits(s, BitOfSlot(s));
        assert bits[BitOfSlot(s)];
      }
      if Whole(bits, t) {
        forall b | f <= b < f + NR_DEFAULT_FILE_SECTS ensures !bits[b] {
          SlotBits(t, b);
        }
      }
    }
  }

  lemma AllocTakesSlot(bits: seq<bool>, used: set<nat>)
    requires IsSlotMap(bits, used) && CanAlloc(bits, NR_DEFAULT_FILE_SECTS)
    ensures var f := FirstClear(bits, 0);
            var t := SlotOfBit(f);
            0 <= t && t !in used && f == BitOfSlot(t) &&
            IsSlotMap(WithRange(bits, f, NR_DEFAULT_FILE_SECTS, true), used + {t})
  {
    FirstFit(bits, used);
    var f := FirstClear(bits, 0);
    var t := SlotOfBit(f);
    forall b | 0 <= b < |bits|
      ensures WithRange(bits, f, NR_DEFAULT_FILE_SECTS, true)[b] <==> b == 0 || SlotOfBit(b) in used + {t}
    {
      SlotBits(t, b);
    }
  }

  lemma FreeGivesSlotBack(bits: seq<bool>, used: set<nat>, t: nat)
    requires IsSlotMap(bits, used) && t in used
    ensures IsSlotMap(WithRange(bits, BitOfSlot(t), NR_DEFAULT_FILE_SECTS, false), used - {t})
    ensures forall b :: BitOfSlot(t) <= b < BitOfSlot(t + 1) ==> bits[b]
  {
  }

  /** The map has one bit for bit 0 and 2048 for each slot in use. */
  lemma {:induction false} SlotsCount(bits: seq<bool>, used: set<nat>)
    requires IsSlotMap(bits, used)
    ensures Ones(bits) == 1 + NR_DEFAULT_FILE_SECTS * |used|
    decreases |used|
  {
    if used == {} {
      NoOnes(bits[0 := false]);
      OnesSet(bits[0 := false], 0);
      assert bits[0 := false][0 := true] == bits;
    } else {
      var t :| t in used;
      FreeGivesSlotBack(bits, used, t);
      var less := WithRange(bits, BitOfSlot(t), NR_DEFAULT_FILE_SECTS, false);
      SlotsCount(less, used - {t});
      OnesRange(less, BitOfSlot(t), NR_DEFAULT_FILE_SECTS);
      assert WithRange(less, BitOfSlot(t), NR_DEFAULT_FILE_SECTS, true) == bits;
    }
  }

  function UpTo(n: nat): (s: set<nat>)
    ensures |s| == n && forall t: nat :: t in s <==> t < n
  {
    if n == 0 then {} else UpTo(n - 1) + {n - 1}
  }

  lemma {:induction false} SubsetSize(a: set<nat>, b: set<nat>)
    requires a <= b
    ensures |a| <= |b| && (|a| == |b| ==> a == b)
  {
    if a != {} {
      var x :| x in a;
      SubsetSize(a - {x}, b - {x});
    }
  }

  /** An allocation meets the kernel's assertions exactly when the slots in use leave room for
      one more whole slot in the map. */
  lemma RoomIsEnough(bits: seq<bool>, used: set<nat>)
    requires IsSlotMap(bits, used)
    ensures CanAlloc(bits, NR_DEFAULT_FILE_SECTS) <==> BitOfSlot(|used| + 1) <= |bits|
  {
    var slots: nat := (|bits| - 1) / NR_DEFAULT_FILE_SECTS;
    assert forall t: nat :: Whole(bits, t) <==> t < slots;
    SubsetSize(used, UpTo(slots));
    FirstFit(bits, used);
    var f := FirstClear(bits, 0);
    if CanAlloc(bits, NR_DEFAULT_FILE_SECTS) {
      assert SlotOfBit(f) in UpTo(slots);
    }
    if |used| < slots {
      SubsetSize(used * UpTo(slots), used);
      assert used * UpTo(slots) != UpTo(slots);
      var t :| t in UpTo(slots) && t !in used;
      SlotBits(t, BitOfSlot(t));
      assert !bits[BitOfSlot(t)];
      assert f <= BitOfSlot(t);
    }
  }

  // ---------------------------------------------------------------- the inode map

  /** The map is the `reserved` lowest bits and those of `nums`. */
  ghost predicate IsInodeMap(bits: seq<bool>, reserved: nat, nums: set<nat>) {
    reserved <= |bits| && (forall n :: n in nums ==> reserved <= n < |bits|) &&
    forall b: nat :: b < |bits| ==> (bits[b] <==> b < reserved || b in nums)
  }

  lemma {:induction false} InodesCount(bits: seq<bool>, reserved: nat, nums: set<nat>)
    requires IsInodeMap(bits, reserved, nums)
    ensures Ones(bits) == reserved + |nums|
    decreases |bits|
  {
    if bits != [] {
      var n := |bits| - 1;
      var less := bits[..n];
      if reserved == |bits| {
        FullOnes(bits);
        assert forall x :: x !in nums;
      } else {
        assert forall b: nat :: b < n ==> less[b] == bits[b];
        InodesCount(less, reserved, nums - {n});
      }
    }
  }
}
