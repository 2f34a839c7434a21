/**
 * Whole runs of the kernel heap in its memory: any sequence of kmalloc, kfree and
 * krealloc of live payloads, and stores by the payloads' owners.
 */
module HeapRuns {
  import opened HeapBlocks
  import opened H = Heap

  datatype Op = Alloc(n: nat) | FreeIt(p: nat) | Store(p: nat, k: nat, v: nat) | Resize(p: nat, n: nat)
  {
    predicate Names(p: nat) { if Alloc? then false else this.p == p }
  }

  ghost predicate LiveAt(bs: seq<Block>, p: nat)
  {
    exists b :: b in bs && !b.free && b.Payload() == p
  }

  /** live is the set of payload addresses in use. */
  ghost predicate LiveIs(bs: seq<Block>, live: set<nat>)
  {
    forall p :: p in live <==> LiveAt(bs, p)
  }

  /** Every used block of bs that op does not name is still there with the same bytes. */
  ghost predicate Kept(bs: seq<Block>, m: seq<Cell>, bs': seq<Block>, m': seq<Cell>, spared: set<nat>)
  {
    |m'| == |m| && forall b :: b in bs && !b.free && b.Payload() in spared ==> b in bs' && SameBytes(m, m', b)
  }

  ghost predicate SameBytes(m: seq<Cell>, m': seq<Cell>, b: Block)
    requires |m'| == |m|
  {
    forall k :: b.Payload() <= k < b.End() && k < |m| ==> m'[k] == m[k]
  }

  // -------------------------------------------------------- used blocks of a list

  lemma JoinUsed(bs: seq<Block>, i: nat, b: Block)
    requires i + 1 < |bs| && bs[i].free && bs[i + 1].free && !b.free
    ensures b in Join(bs, i) <==> b in bs
  {
    var r := Join(bs, i);
    if b in bs {
      var j :| 0 <= j < |bs| && bs[j] == b;
      assert r[if j < i then j else j - 1] == b;
    }
    if b in r {
      var j :| 0 <= j < |r| && r[j] == b;
      assert bs[if j < i then j else j + 1] == b;
    }
  }

  lemma CarveUsed(bs: seq<Block>, i: nat, n: nat, b: Block)
    requires i < |bs| && n <= bs[i].size && bs[i].free && !b.free
    ensures i < |Carve(bs, i, n)| && (b in Carve(bs, i, n) <==> b in bs || b == Carve(bs, i, n)[i])
    ensures Carve(bs, i, n)[i].addr == bs[i].addr && !Carve(bs, i, n)[i].free && Carve(bs, i, n)[i].size >= n
  {
    var r := Carve(bs, i, n);
    if b in bs {
      var j :| 0 <= j < |bs| && bs[j] == b;
      assert r[if j < i || !Splits(bs[i], n) then j else j + 1] == b;
    }
    if b in r {
      var j :| 0 <= j < |r| && r[j] == b;
      if j != i { assert bs[if j < i || !Splits(bs[i], n) then j else j - 1] == b; }
    }
  }

  lemma ReleaseUsed(bs: seq<Block>, total: nat, i: nat, b: Block)
    requires Tiling(bs, total) && i < |bs| && !bs[i].free && !b.free
    ensures b in Release(bs, i) <==> b in bs && b.Payload() != bs[i].Payload()
  {
    hide Join, Tiling;
    var m := MarkFree(bs, i);
    MarkUsed(bs, total, i, b);
    if i + 1 < |m| && m[i + 1].free { JoinUsed(m, i, b); }
    var f := JoinForward(m, i);
    JoinedFree(m, i);
    if i > 0 && f[i - 1].free { JoinUsed(f, i - 1, b); }
  }

  /** Shrinking a used block replaces it by a shorter one at the same address. */
  lemma ShrinkUsed(bs: seq<Block>, total: nat, i: nat, n: nat, b: Block)
    requires Tiling(bs, total) && i < |bs| && n <= bs[i].size && !bs[i].free && !b.free
    ensures i < |Carve(bs, i, n)|
            && (b in Carve(bs, i, n) <==> (b in bs && b.Payload() != bs[i].Payload()) || b == Carve(bs, i, n)[i])
    ensures Carve(bs, i, n)[i].addr == bs[i].addr && !Carve(bs, i, n)[i].free
  {
    hide Tiling;
    var m := MarkFree(bs, i);
    assert Carve(m, i, n) == Carve(bs, i, n);
    MarkUsed(bs, total, i, b);
    CarveUsed(m, i, n, b);
  }

  lemma JoinedFree(bs: seq<Block>, i: nat)
    requires i < |bs| && bs[i].free
    ensures JoinForward(bs, i)[i].free
  {
  }

  lemma MarkUsed(bs: seq<Block>, total: nat, i: nat, b: Block)
    requires Tiling(bs, total) && i < |bs| && !b.free
    ensures b in MarkFree(bs, i) <==> b in bs && b.Payload() != bs[i].Payload()
  {
    hide Tiling;
    var m := MarkFree(bs, i);
    if b in m {
      var j :| 0 <= j < |m| && m[j] == b;
      assert bs[j] == b && j != i;
      DifferentBlocks(bs, total, i, j);
    }
    if b in bs && b.Payload() != bs[i].Payload() {
      var j :| 0 <= j < |bs| && bs[j] == b;
      assert m[j] == b;
    }
  }

  lemma DifferentBlocks(bs: seq<Block>, total: nat, i: nat, j: nat)
    requires Tiling(bs, total) && i < |bs| && j < |bs| && i != j
    ensures bs[i].addr != bs[j].addr
  {
    if i < j { InOrder(bs, total, i, j); } else { InOrder(bs, total, j, i); }
  }

  // -------------------------------------------------------------- what ops keep

  lemma AllocKept(bs: seq<Block>, m: seq<Cell>, m': seq<Cell>, i: nat, n: nat, live: set<nat>, spared: set<nat>)
    requires i < |bs| && n <= bs[i].size && bs[i].free && PayloadsKept(m, m', bs) && LiveIs(bs, live)
    ensures Kept(bs, m, Carve(bs, i, n), m', spared) && LiveIs(Carve(bs, i, n), live + {bs[i].Payload()})
  {
    hide Carve;
    var r := Carve(bs, i, n);
    CarveUsed(bs, i, n, bs[i].(free := false));
    forall b: Block | !b.free ensures b in r <==> b in bs || b == r[i] { CarveUsed(bs, i, n, b); }
    assert r[i] in r && r[i].Payload() == bs[i].Payload() && !r[i].free;
    forall p ensures LiveAt(r, p) <==> LiveAt(bs, p) || p == bs[i].Payload() {}
    KeptPayload(bs, m, m');
  }

  lemma KeptPayload(bs: seq<Block>, m: seq<Cell>, m': seq<Cell>)
    requires PayloadsKept(m, m', bs)
    ensures |m'| == |m| && forall b :: b in bs && !b.free ==> SameBytes(m, m', b)
  {
  }

  lemma FreeKept(bs: seq<Block>, m: seq<Cell>, m': seq<Cell>, total: nat, i: nat, live: set<nat>, spared: set<nat>)
    requires Tiling(bs, total) && i < |bs| && !bs[i].free && PayloadsKept(m, m', MarkFree(bs, i)) && LiveIs(bs, live)
    requires bs[i].Payload() !in spared
    ensures Kept(bs, m, Release(bs, i), m', spared) && LiveIs(Release(bs, i), live - {bs[i].Payload()})
  {
    hide Release, Tiling, MarkFree;
    var r := Release(bs, i);
    forall b: Block | !b.free
      ensures b in r <==> b in bs && b.Payload() != bs[i].Payload()
    {
      ReleaseUsed(bs, total, i, b);
    }
    forall p ensures LiveAt(r, p) <==> LiveAt(bs, p) && p != bs[i].Payload() {}
    KeptPayload(MarkFree(bs, i), m, m');
    forall b | b in bs && !b.free && b.Payload() in spared ensures b in MarkFree(bs, i) { MarkUsed(bs, total, i, b); }
  }

  lemma ShrinkKept(bs: seq<Block>, m: seq<Cell>, m': seq<Cell>, total: nat, i: nat, n: nat, live: set<nat>,
      spared: set<nat>)
    requires Tiling(bs, total) && i < |bs| && n <= bs[i].size && !bs[i].free && PayloadsKept(m, m', MarkFree(bs, i))
             && LiveIs(bs, live)
    requires bs[i].Payload() !in spared
    ensures Kept(bs, m, Carve(bs, i, n), m', spared) && LiveIs(Carve(bs, i, n), live)
  {
    hide Carve, Tiling, MarkFree;
    var r := Carve(bs, i, n);
    ShrinkUsed(bs, total, i, n, bs[i]);
    forall b: Block | !b.free
      ensures b in r <==> (b in bs && b.Payload() != bs[i].Payload()) || b == r[i]
    {
      ShrinkUsed(bs, total, i, n, b);
    }
    assert r[i] in r && r[i].Payload() == bs[i].Payload();
    assert bs[i] in bs;
    forall p ensures LiveAt(r, p) <==> LiveAt(bs, p) {}
    KeptPayload(MarkFree(bs, i), m, m');
    forall b | b in bs && !b.free && b.Payload() in spared ensures b in MarkFree(bs, i) { MarkUsed(bs, total, i, b); }
  }

  /** A growing krealloc: block a is carved for the new payload, block i released. */
  lemma MoveKept(bs: seq<Block>, m: seq<Cell>, m': seq<Cell>, total: nat, a: nat, n: nat, i: nat, live: set<nat>,
      spared: set<nat>)
    requires Tiling(bs, total) && a < |bs| && n <= bs[a].size && bs[a].free && n % ALIGN == 0
    requires i < |bs| && !bs[i].free && PayloadsKept(m, m', MarkFree(bs, i)) && LiveIs(bs, live)
             && bs[i].Payload() !in spared
    ensures Kept(bs, m, Moved(bs, a, n, i), m', spared)
    ensures LiveIs(Moved(bs, a, n, i), live + {bs[a].Payload()} - {bs[i].Payload()})
  {
    hide Carve, Tiling, Release, MarkFree;
    var c, i' := Carve(bs, a, n), CarvedIndex(bs, a, n, i);
    CarveTiling(bs, total, a, n);
    CarvedBlocks(bs, a, n, i);
    KeptSame(m, bs);
    AllocKept(bs, m, m, a, n, live, spared);
    var r := Release(c, i');
    forall b: Block | !b.free
      ensures b in r <==> b in c && b.Payload() != bs[i].Payload()
    {
      ReleaseUsed(c, total, i', b);
    }
    forall p ensures LiveAt(r, p) <==> LiveAt(c, p) && p != bs[i].Payload() {}
    KeptPayload(MarkFree(bs, i), m, m');
    forall b | b in bs && !b.free && b.Payload() in spared
      ensures b in r && SameBytes(m, m', b)
    {
      MarkUsed(bs, total, i, b);
    }
  }

  lemma StoreKept(bs: seq<Block>, m: seq<Cell>, total: nat, i: nat, k: nat, c: Cell, spared: set<nat>)
    requires Tiling(bs, total) && |m| == total && Linked(m, bs) && i < |bs| && k < bs[i].size
             && bs[i].Payload() + k < |m|
    requires bs[i].Payload() !in spared
    ensures var m' := m[bs[i].Payload() + k := c]; Linked(m', bs) && Kept(bs, m, bs, m', spared)
  {
    hide Linked, Tiling;
    var m' := m[bs[i].Payload() + k := c];
    StillLinked(m, m', bs, total, i, bs[i].size);
    forall b | b in bs && !b.free && b.Payload() in spared ensures SameBytes(m, m', b) {
      var j :| 0 <= j < |bs| && bs[j] == b;
      if i < j { InOrder(bs, total, i, j); } else if j < i { InOrder(bs, total, j, i); }
    }
  }

  lemma NothingKept(bs: seq<Block>, m: seq<Cell>, spared: set<nat>)
    ensures Kept(bs, m, bs, m, spared)
  {
  }

  // -------------------------------------------------------------------- the runs

  /** The block a live payload belongs to. */
  lemma LiveBlock(bs: seq<Block>, live: set<nat>, p: nat) returns (i: nat)
    requires LiveIs(bs, live) && p in live
    ensures i < |bs| && !bs[i].free && bs[i].Payload() == p
  {
    assert LiveAt(bs, p);
    var b :| b in bs && !b.free && b.Payload() == p;
    i :| 0 <= i < |bs| && bs[i] == b;
  }

  /**
   * One operation; operations on addresses that are not live, and stores outside
   * their payload, are skipped. Only krealloc can leave two free neighbours.
   */
  method Apply(h: Heap, op: Op, live: set<nat>, ghost spared: set<nat>) returns (live': set<nat>)
    requires h.Valid() && LiveIs(h.blocks, live) && forall p :: p in spared ==> !op.Names(p)
    modifies h
    ensures h.Valid() && LiveIs(h.blocks, live')
    ensures !op.Resize? && old(NoAdjacentFree(h.blocks)) ==> NoAdjacentFree(h.blocks)
    ensures Kept(old(h.blocks), old(h.mem), h.blocks, h.mem, spared)
  {
    hide Tiling, Linked, NoAdjacentFree, LiveIs, Kept, Carve, Release, AlignUp, PayloadsKept;
    live' := live;
    NothingKept(h.blocks, h.mem, spared);
    ghost var bs, m := h.blocks, h.mem;
    match op
    case Alloc(request) =>
      if request < WORD {
        ghost var n := AlignUp(request);
        ghost var i := FirstFit(bs, n, 0);
        var p := h.Malloc(request);
        if p != 0 {
          AllocKept(bs, m, h.mem, i, n, live, spared);
          if NoAdjacentFree(bs) { CarveNoAdjacent(bs, i, n); }
          live' := live + {p};
        }
      }
    case FreeIt(p) =>
      if p in live {
        ghost var i := LiveBlock(bs, live, p);
        var panicked := h.Free(p, i);
        FreeKept(bs, m, h.mem, h.total, i, live, spared);
        if NoAdjacentFree(bs) { ReleaseNoAdjacent(bs, i); }
        live' := live - {p};
      }
    case Store(p, k, v) =>
      if p in live {
        ghost var i := LiveBlock(bs, live, p);
        HeaderAt(h.mem, h.blocks, i);
        if k < h.mem[p - HEADER].size {
          EndsInside(h.blocks, h.total, i);
          StoreKept(bs, m, h.total, i, k, Data(v), spared);
          h.mem := h.mem[p + k := Data(v)];
        }
      }
    case Resize(p, n) =>
      if p in live && n < WORD { live' := ApplyResize(h, p, n, live, spared); }
  }

  /** krealloc of a live payload: freed, shrunk in place, moved, or left alone when nothing fits. */
  method ApplyResize(h: Heap, p: nat, n: nat, live: set<nat>, ghost spared: set<nat>) returns (live': set<nat>)
    requires h.Valid() && LiveIs(h.blocks, live) && p in live && p !in spared && n < WORD
    modifies h
    ensures h.Valid() && LiveIs(h.blocks, live')
    ensures Kept(old(h.blocks), old(h.mem), h.blocks, h.mem, spared)
  {
    hide Tiling, Linked, LiveIs, Kept, Carve, Release, AlignUp, PayloadsKept, Moved;
    live' := live;
    NothingKept(h.blocks, h.mem, spared);
    ghost var bs, m := h.blocks, h.mem;
    ghost var i := LiveBlock(bs, live, p);
    ghost var size := AlignUp(n);
    var r := h.Realloc(p, n, i);
    if n == 0 {
      FreeKept(bs, m, h.mem, h.total, i, live, spared);
      live' := live - {p};
    } else if r == p {
      if bs[i].size >= size {
        ShrinkKept(bs, m, h.mem, h.total, i, size, live, spared);
      } else {
        SamePayload(bs, h.total, FirstFit(bs, size, 0), i);
      }
    } else if r != 0 {
      MoveKept(bs, m, h.mem, h.total, FirstFit(bs, size, 0), size, i, live, spared);
      live' := live + {r} - {p};
    }
  }

  lemma SamePayload(bs: seq<Block>, total: nat, a: nat, i: nat)
    requires Tiling(bs, total) && a < |bs| && i < |bs| && bs[a].free && !bs[i].free
    ensures bs[a].Payload() != bs[i].Payload()
  {
    hide Tiling;
    DifferentBlocks(bs, total, a, i);
  }

  /**
   * Every run keeps headers and links exact, and payloads that no operation names
   * keep their place and their bytes. Without krealloc it never leaves two free
   * neighbours, so that the heap is the single block it started as once nothing is
   * live any more.
   */
  method Run(h: Heap, ops: seq<Op>, live: set<nat>, ghost spared: set<nat>) returns (live': set<nat>)
    requires h.Valid() && LiveIs(h.blocks, live)
    requires forall p, op :: p in spared && op in ops ==> !op.Names(p)
    modifies h
    ensures h.Valid() && LiveIs(h.blocks, live')
    ensures Kept(old(h.blocks), old(h.mem), h.blocks, h.mem, spared)
    ensures old(NoAdjacentFree(h.blocks)) && (forall op :: op in ops ==> !op.Resize?) ==>
              NoAdjacentFree(h.blocks) && (live' == {} ==> h.total >= HEADER && h.blocks == Initial(h.total))
  {
    hide NoAdjacentFree, LiveIs, Kept, Heap.Valid;
    live' := live;
    NothingKept(h.blocks, h.mem, spared);
    ghost var bs0, m0 := h.blocks, h.mem;
    ghost var plain := NoAdjacentFree(h.blocks) && forall op :: op in ops ==> !op.Resize?;
    for k := 0 to |ops|
      invariant h.Valid() && LiveIs(h.blocks, live') && (plain ==> NoAdjacentFree(h.blocks))
      invariant Kept(bs0, m0, h.blocks, h.mem, spared)
    {
      ghost var bs1, m1 := h.blocks, h.mem;
      live' := Apply(h, ops[k], live', spared);
      KeptTwice(bs0, m0, bs1, m1, h.blocks, h.mem, spared);
    }
    if plain && live' == {} { EmptyIsInitial(h); }
  }

  lemma KeptTwice(bs: seq<Block>, m: seq<Cell>, bs1: seq<Block>, m1: seq<Cell>, bs2: seq<Block>, m2: seq<Cell>,
      spared: set<nat>)
    requires Kept(bs, m, bs1, m1, spared) && Kept(bs1, m1, bs2, m2, spared)
    ensures Kept(bs, m, bs2, m2, spared)
  {
    forall b | b in bs && !b.free && b.Payload() in spared ensures b in bs2 && SameBytes(m, m2, b) {
      assert b in bs1 && SameBytes(m, m1, b) && SameBytes(m1, m2, b);
    }
  }

  lemma EmptyIsInitial(h: Heap)
    requires h.Valid() && NoAdjacentFree(h.blocks) && LiveIs(h.blocks, {})
    ensures h.total >= HEADER && h.blocks == Initial(h.total)
  {
    hide NoAdjacentFree;
    var bs := h.blocks;
    forall i | 0 <= i < |bs| ensures bs[i].free {
      assert !LiveAt(bs, bs[i].Payload());
      assert bs[i] in bs;
    }
    if |bs| > 1 { NotBothFree(bs, 0); }
  }
}
