/**
 * The bitmap frame allocator of kernel/mm/pmm.c: one bit per 4 KB frame, set
 * when the frame is in use, with a search hint and a count of used frames.
 */
module Pmm {

  const PAGE_SIZE := 4096

  /** Bit k of a byte. */
  predicate BitOf(b: bv8, k: nat)
    requires k < 8
  {
    (b >> k) & 1 == 1
  }

  function SetIn(b: bv8, k: nat): bv8
    requires k < 8
  {
    b | ((1 as bv8) << k)
  }

  function ClearIn(b: bv8, k: nat): bv8
    requires k < 8
  {
    b & !((1 as bv8) << k)
  }

  lemma OrBits(b: bv8, m: bv8, j: nat)
    requires j < 8
    ensures BitOf(b | m, j) <==> BitOf(b, j) || BitOf(m, j)
  {
    if j == 0 {} else if j == 1 {} else if j == 2 {} else if j == 3 {}
    else if j == 4 {} else if j == 5 {} else if j == 6 {} else {}
  }

  lemma AndBits(b: bv8, m: bv8, j: nat)
    requires j < 8
    ensures BitOf(b & m, j) <==> BitOf(b, j) && BitOf(m, j)
  {
    if j == 0 {} else if j == 1 {} else if j == 2 {} else if j == 3 {}
    else if j == 4 {} else if j == 5 {} else if j == 6 {} else {}
  }

  lemma NotBits(m: bv8, j: nat)
    requires j < 8
    ensures BitOf(!m, j) <==> !BitOf(m, j)
  {
    if j == 0 {} else if j == 1 {} else if j == 2 {} else if j == 3 {}
    else if j == 4 {} else if j == 5 {} else if j == 6 {} else {}
  }

  lemma MaskBit(k: nat, j: nat)
    requires k < 8 && j < 8
    ensures BitOf((1 as bv8) << k, j) <==> j == k
  {
    if k == 0 {} else if k == 1 {} else if k == 2 {} else if k == 3 {}
    else if k == 4 {} else if k == 5 {} else if k == 6 {} else {}
    if j == 0 {} else if j == 1 {} else if j == 2 {} else if j == 3 {}
    else if j == 4 {} else if j == 5 {} else if j == 6 {} else {}
  }

  lemma SetBit(b: bv8, k: nat, j: nat)
    requires k < 8 && j < 8
    ensures BitOf(SetIn(b, k), j) <==> j == k || BitOf(b, j)
  {
    hide BitOf;
    MaskBit(k, j);
    OrBits(b, (1 as bv8) << k, j);
  }

  lemma ClearBit(b: bv8, k: nat, j: nat)
    requires k < 8 && j < 8
    ensures BitOf(ClearIn(b, k), j) <==> j != k && BitOf(b, j)
  {
    hide BitOf;
    MaskBit(k, j);
    NotBits((1 as bv8) << k, j);
    AndBits(b, !((1 as bv8) << k), j);
  }

  /** bm_test */
  predicate Test(bm: seq<bv8>, i: nat)
    requires i < 8 * |bm|
  {
    BitOf(bm[i / 8], i % 8)
  }

  function WithSet(bm: seq<bv8>, i: nat): (r: seq<bv8>)
    requires i < 8 * |bm|
    ensures |r| == |bm|
  {
    bm[i / 8 := SetIn(bm[i / 8], i % 8)]
  }

  function WithClear(bm: seq<bv8>, i: nat): (r: seq<bv8>)
    requires i < 8 * |bm|
    ensures |r| == |bm|
  {
    bm[i / 8 := ClearIn(bm[i / 8], i % 8)]
  }

  /** Setting or clearing a bit changes that bit alone. */
  lemma TestAfter(bm: seq<bv8>, i: nat, j: nat)
    requires i < 8 * |bm| && j < 8 * |bm|
    ensures Test(WithSet(bm, i), j) <==> j == i || Test(bm, j)
    ensures Test(WithClear(bm, i), j) <==> j != i && Test(bm, j)
  {
    hide BitOf, SetIn, ClearIn;
    assert j == i <==> j / 8 == i / 8 && j % 8 == i % 8;
    if j / 8 == i / 8 {
      SetBit(bm[i / 8], i % 8, j % 8);
      ClearBit(bm[i / 8], i % 8, j % 8);
    }
  }

  ghost function UsedIn(bm: seq<bv8>, total: nat): set<nat>
    requires total <= 8 * |bm|
  {
    set i | 0 <= i < total && Test(bm, i)
  }

  lemma InUsed(bm: seq<bv8>, total: nat, i: nat)
    requires total <= 8 * |bm| && i < total
    ensures i in UsedIn(bm, total) <==> Test(bm, i)
  {
  }

  lemma UsedAfter(bm: seq<bv8>, total: nat, i: nat)
    requires total <= 8 * |bm| && i < total
    ensures UsedIn(WithSet(bm, i), total) == UsedIn(bm, total) + {i}
    ensures UsedIn(WithClear(bm, i), total) == UsedIn(bm, total) - {i}
  {
    hide Test, WithSet, WithClear;
    forall j | 0 <= j < total ensures Test(WithSet(bm, i), j) <==> j == i || Test(bm, j) { TestAfter(bm, i, j); }
    forall j | 0 <= j < total ensures Test(WithClear(bm, i), j) <==> j != i && Test(bm, j) { TestAfter(bm, i, j); }
  }

  /** There are total used frames exactly when all are. */
  lemma UsedCount(bm: seq<bv8>, total: nat)
    requires total <= 8 * |bm|
    ensures |UsedIn(bm, total)| <= total
    ensures |UsedIn(bm, total)| == total <==> forall j :: 0 <= j < total ==> j in UsedIn(bm, total)
  {
    hide Test;
    var u := UsedIn(bm, total);
    SubsetCount(u, Below(total));
  }

  /** The numbers below n. */
  ghost function Below(n: nat): (r: set<nat>)
    ensures |r| == n && forall i :: i in r <==> 0 <= i < n
  {
    if n == 0 then {} else Below(n - 1) + {n - 1}
  }

  lemma SubsetCount<T>(a: set<T>, b: set<T>)
    requires a <= b
    ensures |a| <= |b| && (|a| == |b| <==> a == b)
  {
    assert b == a + (b - a);
  }

  /** All frames of the window [s, s + n) are free. */
  ghost predicate FreeRun(used: set<nat>, s: nat, n: nat)
  {
    forall j :: s <= j < s + n ==> j !in used
  }

  class Pmm {
    var bitmap: seq<bv8>
    const total: nat
    var used: nat
    var hint: nat

    /** used_frames is the number of set bits, and the bitmap covers all frames. */
    ghost predicate Valid()
      reads this
    {
      total <= 8 * |bitmap| && hint <= total && used == |Used()|
    }

    ghost function Used(): set<nat>
      requires total <= 8 * |bitmap|
      reads this
    {
      UsedIn(bitmap, total)
    }

    /** The state pmm_init leaves: a bitmap, its number of set bits, and hint 0. */
    constructor (bitmap: seq<bv8>, total: nat, used: nat)
      requires total <= 8 * |bitmap| && used == |UsedIn(bitmap, total)|
      ensures Valid() && Used() == UsedIn(bitmap, total) && this.total == total
    {
      this.bitmap, this.total, this.used, hint := bitmap, total, used, 0;
    }

    method Mark(i: nat)
      requires Valid() && i < total && i !in Used()
      modifies this
      ensures Valid() && Used() == old(Used()) + {i} && hint == i + 1
    {
      hide Test, WithSet;
      UsedAfter(bitmap, total, i);
      bitmap := WithSet(bitmap, i);
      used := used + 1;
      hint := i + 1;
    }

    /** pmm_alloc_frame: the first free frame from the hint on, cyclically; 0 only when no frame at all is free. */
    method AllocFrame() returns (phys: nat)
      requires Valid() && 0 in Used()
      modifies this
      ensures Valid()
      ensures phys == 0 <==> forall j :: 0 <= j < total ==> j in old(Used())
      ensures phys == 0 <==> old(used) == total
      ensures used == old(used) + if phys == 0 then 0 else 1
      ensures phys == 0 ==> Used() == old(Used())
      ensures phys != 0 ==>
                && phys % PAGE_SIZE == 0 && phys / PAGE_SIZE < total && phys / PAGE_SIZE !in old(Used())
                && Used() == old(Used()) + {phys / PAGE_SIZE} && hint == phys / PAGE_SIZE + 1
                && forall j :: old(hint) <= j < total && (j < phys / PAGE_SIZE || phys / PAGE_SIZE < old(hint)) ==>
                   j in old(Used())
      ensures phys != 0 && phys / PAGE_SIZE < old(hint) ==> forall j :: 0 <= j < phys / PAGE_SIZE ==> j in old(Used())
    {
      hide Test, WithSet, UsedIn;
      UsedCount(bitmap, total);
      var i := Scan(hint, total);
      if i == total {
        i := Scan(0, hint);
        if i == hint { return 0; }
      }
      Mark(i);
      return i * PAGE_SIZE;
    }

    /** The loop that is run first behind the hint and then before it: the first free frame, or hi. */
    method Scan(lo: nat, hi: nat) returns (i: nat)
      requires Valid() && lo <= hi <= total
      ensures lo <= i <= hi && (i < hi ==> i !in Used()) && forall j :: lo <= j < i ==> j in Used()
    {
      hide Test, UsedIn;
      i := lo;
      while i < hi
        invariant lo <= i <= hi && forall j :: lo <= j < i ==> j in Used()
      {
        InUsed(bitmap, total, i);
        if !Test(bitmap, i) { return; }
        i := i + 1;
      }
    }

    /**
     * pmm_alloc_frames: the leftmost free run of two or more frames, or 0 when
     * there is none; a single frame as above.
     */
    method AllocFrames(count: nat) returns (phys: nat)
      requires Valid() && 0 in Used()
      modifies this
      ensures Valid() && phys % PAGE_SIZE == 0
      ensures count == 0 ==> phys == 0
      ensures phys == 0 ==>
              Used() == old(Used())
              && (count > 0 ==> forall s :: 0 <= s && s + count <= total ==> !FreeRun(Used(), s, count))
      ensures phys != 0 ==>
                var start := phys / PAGE_SIZE;
                && start + count <= total && FreeRun(old(Used()), start, count)
                && (count >= 2 ==> forall s :: 0 <= s < start ==> !FreeRun(old(Used()), s, count))
                && forall j :: j in Used() <==> j in old(Used()) || start <= j < start + count
    {
      hide UsedIn, FreeRun;
      if count == 0 { return 0; }
      if count == 1 {
        phys := AllocFrame();
        NoSingleRun(old(Used()), total);
        return;
      }
      phys := FindRun(count);
    }

    method FindRun(count: nat) returns (phys: nat)
      requires Valid() && 0 in Used() && count >= 2
      modifies this
      ensures Valid() && phys % PAGE_SIZE == 0
      ensures phys == 0 ==> Used() == old(Used()) && forall s :: 0 <= s && s + count <= total ==>
              !FreeRun(Used(), s, count)
      ensures phys != 0 ==>
                var start := phys / PAGE_SIZE;
                && start + count <= total && FreeRun(old(Used()), start, count)
                && (forall s :: 0 <= s < start ==> !FreeRun(old(Used()), s, count))
                && forall j :: j in Used() <==> j in old(Used()) || start <= j < start + count
    {
      hide Test, WithSet, UsedIn;
      var runStart, runLen, i := 0, 0, 0;
      while i < total
        invariant 0 <= i <= total && Valid() && Used() == old(Used()) && 0 <= runLen <= i && runLen < count
        invariant runLen > 0 ==> runStart == i - runLen
        invariant forall j :: i - runLen <= j < i ==> j !in Used()
        invariant i > runLen ==> i - runLen - 1 in Used()
        invariant forall s :: 0 <= s && s + count <= i ==> !FreeRun(Used(), s, count)
      {
        InUsed(bitmap, total, i);
        if !Test(bitmap, i) {
          if runLen == 0 { runStart := i; }
          runLen := runLen + 1;
          if runLen == count {
            SetRun(runStart, count);
            return runStart * PAGE_SIZE;
          }
        } else {
          runLen := 0;
        }
        i := i + 1;
        BlockedWindow(Used(), i, runLen, count);
      }
      return 0;
    }

    method SetRun(start: nat, count: nat)
      requires Valid() && start + count <= total && FreeRun(Used(), start, count)
      modifies this
      ensures Valid() && forall j :: j in Used() <==> j in old(Used()) || start <= j < start + count
    {
      hide Test, WithSet, UsedIn;
      var k := 0;
      while k < count
        invariant 0 <= k <= count && total <= 8 * |bitmap| && used == old(used) && hint == old(hint)
        invariant forall j :: j in Used() <==> j in old(Used()) || start <= j < start + k
        invariant |Used()| == used + k
      {
        UsedAfter(bitmap, total, start + k);
        bitmap := WithSet(bitmap, start + k);
        k := k + 1;
      }
      used := used + count;
      hint := start + count;
    }

    /** pmm_free_frame: out-of-range and already free frames are ignored. */
    method FreeFrame(phys: nat)
      requires Valid()
      modifies this
      ensures Valid() && Used() == old(Used()) - {phys / PAGE_SIZE}
      ensures hint == if phys / PAGE_SIZE in old(Used()) && phys / PAGE_SIZE < old(hint) then phys / PAGE_SIZE
              else old(hint)
    {
      hide Test, WithClear;
      var i := phys / PAGE_SIZE;
      if i >= total || !Test(bitmap, i) { return; }
      UsedAfter(bitmap, total, i);
      bitmap := WithClear(bitmap, i);
      used := used - 1;
      if i < hint { hint := i; }
    }

    method FreeFrames(phys: nat, count: nat)
      requires Valid()
      modifies this
      ensures Valid() && forall j :: j in Used() <==>
              j in old(Used()) && !(phys / PAGE_SIZE <= j < phys / PAGE_SIZE + count)
    {
      hide UsedIn;
      var k := 0;
      while k < count
        invariant 0 <= k <= count && Valid()
        invariant forall j :: j in Used() <==> j in old(Used()) && !(phys / PAGE_SIZE <= j < phys / PAGE_SIZE + k)
      {
        FreeFrame(phys + k * PAGE_SIZE);
        k := k + 1;
      }
    }
  }

  lemma NoSingleRun(used: set<nat>, total: nat)
    ensures forall s: nat :: FreeRun(used, s, 1) <==> s !in used
  {
  }

  /** The window that ends at i is not free unless the current run fills it. */
  lemma BlockedWindow(used: set<nat>, i: nat, runLen: nat, count: nat)
    requires runLen < count && runLen <= i && (i > runLen ==> i - runLen - 1 in used)
    ensures count <= i ==> !FreeRun(used, i - count, count)
  {
    if count <= i { assert i - count <= i - runLen - 1 < i - count + count; }
  }
}
