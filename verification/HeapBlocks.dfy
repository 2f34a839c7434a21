/**
 * The kernel heap as a list of blocks: first-fit with splitting, and freeing
 * with coalescing in both directions. Addresses are offsets from KHEAP_VIRT_BASE,
 * which is a multiple of 16.
 */
module HeapBlocks {

  const HEADER := 32
  const ALIGN := 16
  const WORD := 0x1_0000_0000_0000_0000

  datatype Block = Block(addr: nat, size: nat, free: bool)
  {
    function Payload(): nat { addr + HEADER }
    function End(): nat { addr + HEADER + size }
  }

  /** align_up(x, 16) in 64-bit arithmetic. */
  function AlignUp(x: nat): (r: nat)
    ensures r % ALIGN == 0
  {
    (x + (ALIGN - 1)) % WORD / ALIGN * ALIGN
  }

  /** Rounding up covers the request exactly when the addition does not wrap. */
  lemma AlignUpCoversIff(x: nat)
    requires 0 < x < WORD
    ensures AlignUp(x) >= x <==> x + (ALIGN - 1) < WORD
    ensures x + (ALIGN - 1) < WORD ==> AlignUp(x) < x + ALIGN
  {
  }

  /** The blocks lie back to back in address order and fill [0, total). */
  ghost predicate Tiling(bs: seq<Block>, total: nat)
  {
    && |bs| > 0 && bs[0].addr == 0 && bs[|bs| - 1].End() == total
    && (forall i :: 0 <= i < |bs| - 1 ==> bs[i].End() == bs[i + 1].addr)
    && (forall i :: 0 <= i < |bs| ==> bs[i].size % ALIGN == 0)
  }

  ghost predicate NoAdjacentFree(bs: seq<Block>)
  {
    forall i :: 0 <= i < |bs| - 1 ==> !(bs[i].free && bs[i + 1].free)
  }

  lemma {:induction false} InOrder(bs: seq<Block>, total: nat, i: nat, j: nat)
    requires Tiling(bs, total) && i < j < |bs|
    ensures bs[i].End() <= bs[j].addr
    decreases j - i
  {
    if i + 1 < j { InOrder(bs, total, i, j - 1); }
  }

  lemma {:induction false} Aligned(bs: seq<Block>, total: nat, i: nat)
    requires Tiling(bs, total) && i < |bs|
    ensures bs[i].addr % ALIGN == 0
  {
    if i > 0 { Aligned(bs, total, i - 1); }
  }

  lemma EndsInside(bs: seq<Block>, total: nat, i: nat)
    requires Tiling(bs, total) && i < |bs|
    ensures bs[i].End() <= total
  {
    if i < |bs| - 1 { InOrder(bs, total, i, |bs| - 1); }
  }

  /** Payloads are 16-aligned, inside the heap, and disjoint from each other and from every header. */
  lemma PayloadsDisjoint(bs: seq<Block>, total: nat, i: nat, j: nat)
    requires Tiling(bs, total) && i < j < |bs|
    ensures bs[i].Payload() % ALIGN == 0 && bs[i].End() <= total && bs[j].End() <= total
    ensures bs[i].End() <= bs[j].addr < bs[j].Payload()
  {
    Aligned(bs, total, i);
    InOrder(bs, total, i, j);
    EndsInside(bs, total, i);
    EndsInside(bs, total, j);
  }

  // ------------------------------------------------------------- allocation

  /** The first free block at or after i with room for n bytes, or |bs|. */
  function FirstFit(bs: seq<Block>, n: nat, i: nat): (k: nat)
    requires i <= |bs|
    ensures i <= k <= |bs|
    ensures k < |bs| ==> bs[k].free && bs[k].size >= n
    ensures forall j :: i <= j < k ==> !(bs[j].free && bs[j].size >= n)
    decreases |bs| - i
  {
    if i == |bs| then i else if bs[i].free && bs[i].size >= n then i else FirstFit(bs, n, i + 1)
  }

  predicate Splits(b: Block, n: nat)
    requires n <= b.size
  {
    b.size - n >= HEADER + ALIGN
  }

  /** Block i cut to n bytes with state free, the rest becoming a free block if it is large enough. */
  function Carve(bs: seq<Block>, i: nat, n: nat): (r: seq<Block>)
    requires i < |bs| && n <= bs[i].size
  {
    var b := bs[i];
    if Splits(b, n) then
      bs[..i] + [Block(b.addr, n, false), Block(b.addr + HEADER + n, b.size - n - HEADER, true)] + bs[i + 1..]
    else bs[i := Block(b.addr, b.size, false)]
  }

  lemma CarveTiling(bs: seq<Block>, total: nat, i: nat, n: nat)
    requires Tiling(bs, total) && i < |bs| && n <= bs[i].size && n % ALIGN == 0
    ensures Tiling(Carve(bs, i, n), total)
  {
    var b, r := bs[i], Carve(bs, i, n);
    if Splits(b, n) {
      forall k | 0 <= k < |r| - 1 ensures r[k].End() == r[k + 1].addr {
        if k < i - 1 {
          assert bs[k].End() == bs[k + 1].addr;
        } else if k == i - 1 {
          assert bs[k].End() == b.addr;
        } else if k > i {
          assert bs[k - 1].End() == if k < |bs| then bs[k].addr else total;
        }
      }
      forall k | 0 <= k < |r| ensures r[k].size % ALIGN == 0 {
        if k < i { assert r[k] == bs[k]; } else if k > i + 1 { assert r[k] == bs[k - 1]; }
      }
    }
  }

  lemma CarveNoAdjacent(bs: seq<Block>, i: nat, n: nat)
    requires NoAdjacentFree(bs) && i < |bs| && bs[i].free && n <= bs[i].size
    ensures NoAdjacentFree(Carve(bs, i, n))
  {
    var r := Carve(bs, i, n);
    if Splits(bs[i], n) {
      forall k | 0 <= k < |r| - 1 ensures !(r[k].free && r[k + 1].free) {
        if k < i - 1 { assert !(bs[k].free && bs[k + 1].free); }
        if k > i { assert !(bs[k - 1].free && bs[k].free); }
      }
    }
  }

  /** Shrinking a used block in place makes two neighbours free exactly when it splits in front of a free block. */
  lemma ShrinkAdjacentIff(bs: seq<Block>, i: nat, n: nat)
    requires NoAdjacentFree(bs) && i < |bs| && !bs[i].free && n <= bs[i].size
    ensures NoAdjacentFree(Carve(bs, i, n)) <==> !(Splits(bs[i], n) && i + 1 < |bs| && bs[i + 1].free)
  {
    var r := Carve(bs, i, n);
    if Splits(bs[i], n) {
      if i + 1 < |bs| && bs[i + 1].free {
        assert r[i + 1].free && r[i + 2] == bs[i + 1];
      } else {
        forall k | 0 <= k < |r| - 1 ensures !(r[k].free && r[k + 1].free) {
          if k < i - 1 { assert !(bs[k].free && bs[k + 1].free); }
          if k > i + 1 { assert !(bs[k - 1].free && bs[k].free); }
        }
      }
    }
  }

  // ---------------------------------------------------------------- freeing

  /** Blocks i and i + 1 joined into one free block. */
  function Join(bs: seq<Block>, i: nat): seq<Block>
    requires i + 1 < |bs|
  {
    bs[..i] + [Block(bs[i].addr, bs[i].size + HEADER + bs[i + 1].size, true)] + bs[i + 2..]
  }

  function MarkFree(bs: seq<Block>, i: nat): seq<Block>
    requires i < |bs|
  {
    bs[i := bs[i].(free := true)]
  }

  function JoinForward(bs: seq<Block>, i: nat): (r: seq<Block>)
    requires i < |bs|
    ensures i < |r|
  {
    if i + 1 < |bs| && bs[i + 1].free then Join(bs, i) else bs
  }

  function JoinBackward(bs: seq<Block>, i: nat): seq<Block>
    requires i < |bs|
  {
    if i > 0 && bs[i - 1].free then Join(bs, i - 1) else bs
  }

  /** kfree of block i: mark it free, then coalesce forward and backward. */
  function Release(bs: seq<Block>, i: nat): seq<Block>
    requires i < |bs|
  {
    JoinBackward(JoinForward(MarkFree(bs, i), i), i)
  }

  lemma JoinTiling(bs: seq<Block>, total: nat, i: nat)
    requires Tiling(bs, total) && i + 1 < |bs|
    ensures Tiling(Join(bs, i), total)
  {
    var r := Join(bs, i);
    assert bs[i].End() == bs[i + 1].addr;
    forall k | 0 <= k < |r| - 1 ensures r[k].End() == r[k + 1].addr {
      if k < i { assert bs[k].End() == bs[k + 1].addr; } else { assert bs[k + 1].End() == bs[k + 2].addr; }
    }
    forall k | 0 <= k < |r| ensures r[k].size % ALIGN == 0 {
      if k < i { assert r[k] == bs[k]; } else if k > i { assert r[k] == bs[k + 1]; }
    }
  }

  lemma ReleaseTiling(bs: seq<Block>, total: nat, i: nat)
    requires Tiling(bs, total) && i < |bs|
    ensures Tiling(Release(bs, i), total)
  {
    hide Join;
    var m := MarkFree(bs, i);
    assert Tiling(m, total);
    if i + 1 < |m| && m[i + 1].free { JoinTiling(m, total, i); }
    var f := JoinForward(m, i);
    if i > 0 && f[i - 1].free { JoinTiling(f, total, i - 1); }
  }

  /** After a release no two neighbours are free. */
  lemma ReleaseNoAdjacent(bs: seq<Block>, i: nat)
    requires NoAdjacentFree(bs) && i < |bs| && !bs[i].free
    ensures NoAdjacentFree(Release(bs, i))
  {
    var m := MarkFree(bs, i);
    var f := JoinForward(m, i);
    forall k | 0 <= k < |f| - 1 && k != i - 1 ensures !(f[k].free && f[k + 1].free) {
      ForwardPair(bs, i, k);
    }
    assert i > 0 ==> f[i - 1] == bs[i - 1];
    if i > 0 && f[i - 1].free {
      var r := Join(f, i - 1);
      forall k | 0 <= k < |r| - 1 ensures !(r[k].free && r[k + 1].free) {
        if k < i - 1 {
          assert f[k] == bs[k] && f[k + 1] == bs[k + 1];
          assert !(f[k].free && f[k + 1].free);
        } else {
          assert r[k + 1] == f[k + 2] && !(f[k + 1].free && f[k + 2].free);
        }
      }
    }
  }

  lemma ForwardPair(bs: seq<Block>, i: nat, k: nat)
    requires NoAdjacentFree(bs) && i < |bs| && !bs[i].free
    requires k < |JoinForward(MarkFree(bs, i), i)| - 1 && k != i - 1
    ensures var f := JoinForward(MarkFree(bs, i), i); !(f[k].free && f[k + 1].free)
  {
    var m := MarkFree(bs, i);
    var f := JoinForward(m, i);
    if i + 1 < |bs| && bs[i + 1].free {
      if k < i {
        assert f[k] == bs[k] && f[k + 1] == bs[k + 1];
        assert !(bs[k].free && bs[k + 1].free);
      } else {
        assert f[k + 1] == bs[k + 2] && !(bs[k + 1].free && bs[k + 2].free);
        if k > i { assert f[k] == bs[k + 1]; }
      }
    } else {
      assert !(bs[k].free && bs[k + 1].free);
    }
  }

  // -------------------------------------------------------------------- runs

  function Initial(total: nat): seq<Block>
    requires total >= HEADER
  {
    [Block(0, total - HEADER, true)]
  }

  /** One kmalloc that succeeds, or one kfree of a used block. */
  ghost predicate Step(bs: seq<Block>, bs': seq<Block>)
  {
    || (exists n: nat :: n % ALIGN == 0 && FirstFit(bs, n, 0) < |bs| && bs' == Carve(bs, FirstFit(bs, n, 0), n))
    || (exists i :: 0 <= i < |bs| && !bs[i].free && bs' == Release(bs, i))
  }

  ghost predicate Run(run: seq<seq<Block>>, total: nat)
    requires total >= HEADER
  {
    && |run| > 0 && run[0] == Initial(total)
    && forall t :: 0 <= t < |run| - 1 ==> Step(run[t], run[t + 1])
  }

  lemma StepKeeps(bs: seq<Block>, bs': seq<Block>, total: nat)
    requires Tiling(bs, total) && NoAdjacentFree(bs) && Step(bs, bs')
    ensures Tiling(bs', total) && NoAdjacentFree(bs')
  {
    hide Tiling, NoAdjacentFree, Carve, Release;
    if n: nat :| n % ALIGN == 0 && FirstFit(bs, n, 0) < |bs| && bs' == Carve(bs, FirstFit(bs, n, 0), n) {
      CarveTiling(bs, total, FirstFit(bs, n, 0), n);
      CarveNoAdjacent(bs, FirstFit(bs, n, 0), n);
    } else {
      var i :| 0 <= i < |bs| && !bs[i].free && bs' == Release(bs, i);
      ReleaseTiling(bs, total, i);
      ReleaseNoAdjacent(bs, i);
    }
  }

  /** Every state of every kmalloc/kfree run tiles the heap and has no two free neighbours. */
  lemma {:induction false} RunKeeps(run: seq<seq<Block>>, total: nat, t: nat)
    requires total >= HEADER && total % ALIGN == 0 && Run(run, total) && t < |run|
    ensures Tiling(run[t], total) && NoAdjacentFree(run[t])
  {
    hide Step;
    if t > 0 {
      RunKeeps(run, total, t - 1);
      StepKeeps(run[t - 1], run[t], total);
    }
  }

  lemma NotBothFree(bs: seq<Block>, i: nat)
    requires NoAdjacentFree(bs) && i + 1 < |bs|
    ensures !bs[i].free || !bs[i + 1].free
  {
  }

  /** Once everything has been freed the heap is again one block of total - 32 bytes. */
  lemma AllFreeIsInitial(run: seq<seq<Block>>, total: nat, t: nat)
    requires total >= HEADER && total % ALIGN == 0 && Run(run, total) && t < |run|
    requires forall i :: 0 <= i < |run[t]| ==> run[t][i].free
    ensures run[t] == Initial(total)
  {
    RunKeeps(run, total, t);
    var bs := run[t];
    if |bs| > 1 { NotBothFree(bs, 0); }
  }

  // -------------------------------------------------------------- statistics

  function Bytes(bs: seq<Block>, free: bool): nat
  {
    if bs == [] then 0 else Bytes(bs[..|bs| - 1], free) + if bs[|bs| - 1].free == free then bs[|bs| - 1].size else 0
  }

  function FreeBlocks(bs: seq<Block>): nat
  {
    if bs == [] then 0 else FreeBlocks(bs[..|bs| - 1]) + if bs[|bs| - 1].free then 1 else 0
  }

  /** Used bytes, free bytes and headers add up to the heap. */
  lemma {:induction false} Conservation(bs: seq<Block>, total: nat)
    requires Tiling(bs, total)
    ensures Bytes(bs, true) + Bytes(bs, false) + HEADER * |bs| == total
  {
    var n := |bs| - 1;
    if n == 0 {
      assert bs[..0] == [];
    } else {
      assert bs[n - 1].End() == bs[n].addr;
      Conservation(bs[..n], bs[n].addr);
    }
  }

  // -------------------------------------------------------------------- space

  lemma {:induction false} BytesConcat(a: seq<Block>, b: seq<Block>, free: bool)
    ensures Bytes(a + b, free) == Bytes(a, free) + Bytes(b, free)
    decreases |b|
  {
    if b == [] {
      assert a + b == a;
    } else {
      assert (a + b)[..|a + b| - 1] == a + b[..|b| - 1];
      BytesConcat(a, b[..|b| - 1], free);
    }
  }

  lemma BytesPair(x: Block, y: Block, free: bool)
    ensures Bytes([x], free) == if x.free == free then x.size else 0
    ensures Bytes([x, y], free) == Bytes([x], free) + Bytes([y], free)
  {
    assert [x, y] == [x] + [y];
    assert [x][..0] == [] && [y][..0] == [];
    BytesConcat([x], [y], free);
  }

  /** The free bytes of a list in which block i has been replaced. */
  lemma BytesReplaced(bs: seq<Block>, i: nat, mid: seq<Block>)
    requires i < |bs|
    ensures Bytes(bs[..i] + mid + bs[i + 1..], true) ==
            Bytes(bs, true) - (if bs[i].free then bs[i].size else 0) + Bytes(mid, true)
  {
    assert bs == bs[..i] + [bs[i]] + bs[i + 1..];
    BytesConcat(bs[..i] + [bs[i]], bs[i + 1..], true);
    BytesConcat(bs[..i], [bs[i]], true);
    BytesConcat(bs[..i] + mid, bs[i + 1..], true);
    BytesConcat(bs[..i], mid, true);
    BytesPair(bs[i], bs[i], true);
  }

  /**
   * r is bs with block i used for n bytes and no more than it must be: fewer than 48
   * bytes more stay with it, what is given back is a block of at least 16 bytes, and
   * all but the 32 bytes of its header is free afterwards.
   */
  ghost predicate Trimmed(bs: seq<Block>, i: nat, n: nat, r: seq<Block>)
    requires i < |bs| && n <= bs[i].size
  {
    && i < |r| && r[i].addr == bs[i].addr && !r[i].free && n <= r[i].size < n + 48
    && (forall b :: b in r && b.free ==> b in bs || b.size >= 16)
    && var given := bs[i].size - r[i].size;
       Bytes(r, true) == Bytes(bs, true) - (if bs[i].free then bs[i].size else 0) + if given == 0 then 0 else given - 32
  }

  /** The block of payload p is in use and has n bytes, and fewer than 48 more. */
  ghost predicate Fits(bs: seq<Block>, p: nat, n: nat)
  {
    exists b :: b in bs && !b.free && b.Payload() == p && n <= b.size < n + 48
  }

  lemma TrimmedFits(bs: seq<Block>, i: nat, n: nat, r: seq<Block>)
    requires i < |bs| && n <= bs[i].size && Trimmed(bs, i, n, r)
    ensures Fits(r, bs[i].Payload(), n)
  {
    assert r[i] in r;
  }

  /** A release takes no other used block away. */
  lemma ReleaseSpares(bs: seq<Block>, i: nat, b: Block)
    requires i < |bs| && b in bs && b != bs[i] && !b.free
    ensures b in Release(bs, i)
  {
    hide Join;
    var m := MarkFree(bs, i);
    var j :| 0 <= j < |bs| && bs[j] == b;
    assert m[j] == b;
    if i + 1 < |m| && m[i + 1].free { JoinSpares(m, i, b); }
    var f := JoinForward(m, i);
    ForwardFree(m, i);
    if i > 0 && f[i - 1].free { JoinSpares(f, i - 1, b); }
  }

  lemma JoinSpares(bs: seq<Block>, i: nat, b: Block)
    requires i + 1 < |bs| && b in bs && b != bs[i] && b != bs[i + 1]
    ensures b in Join(bs, i)
  {
    var j :| 0 <= j < |bs| && bs[j] == b;
    assert Join(bs, i)[if j < i then j else j - 1] == b;
  }

  lemma ForwardFree(bs: seq<Block>, i: nat)
    requires i < |bs| && bs[i].free
    ensures JoinForward(bs, i)[i].free
  {
  }

  lemma CarveTrims(bs: seq<Block>, i: nat, n: nat)
    requires i < |bs| && n <= bs[i].size
    ensures Trimmed(bs, i, n, Carve(bs, i, n))
  {
    var b, r := bs[i], Carve(bs, i, n);
    var x, y := Block(b.addr, n, false),
        Block(b.addr + HEADER + n, if Splits(b, n) then b.size - n - HEADER else 0, true);
    if Splits(b, n) {
      BytesReplaced(bs, i, [x, y]);
      BytesPair(x, y, true);
      BytesPair(y, y, true);
    } else {
      var u := Block(b.addr, b.size, false);
      assert r == bs[..i] + [u] + bs[i + 1..];
      BytesReplaced(bs, i, [u]);
      BytesPair(u, u, true);
    }
  }
}
