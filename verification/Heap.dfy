/**
 * The kernel heap of kernel/mm/heap.c in its memory: block headers with size,
 * state and next/prev links lie between the payloads, and every operation
 * rewrites headers in place. Proved against the block lists of HeapBlocks.
 */
module Heap {
  import opened HeapBlocks

  datatype Link = Null | At(addr: nat)

  /** A memory cell: the first cell of a header, one of its other 31 bytes, or data. */
  datatype Cell = Head(size: nat, free: bool, next: Link, prev: Link) | Rest | Data(b: nat)

  /** A new header at address a. */
  function PutHeader(mem: seq<Cell>, a: nat, h: Cell): (r: seq<Cell>)
    requires a + HEADER <= |mem|
    ensures |r| == |mem|
    ensures r[a] == h
    ensures forall k :: 0 <= k < |mem| && !(a <= k < a + HEADER) ==> r[k] == mem[k]
  {
    mem[..a] + [h] + seq(HEADER - 1, i => Rest) + mem[a + HEADER..]
  }

  /** The header block i must have. */
  function HeaderOf(bs: seq<Block>, i: nat): Cell
    requires i < |bs|
  {
    Head(bs[i].size, bs[i].free,
         if i + 1 < |bs| then At(bs[i + 1].addr) else Null,
         if i > 0 then At(bs[i - 1].addr) else Null)
  }

  /** Every block's header is in memory, with next and prev links that mirror the list. */
  ghost predicate Linked(mem: seq<Cell>, bs: seq<Block>)
  {
    forall i :: 0 <= i < |bs| ==> bs[i].addr < |mem| && mem[bs[i].addr] == HeaderOf(bs, i)
  }

  /** The payload of every used block of bs is the same in both memories. */
  ghost predicate PayloadsKept(mem: seq<Cell>, mem': seq<Cell>, bs: seq<Block>)
  {
    |mem'| == |mem| &&
    forall i, k :: 0 <= i < |bs| && !bs[i].free && bs[i].Payload() <= k < bs[i].End() && k < |mem| ==> mem'[k] == mem[k]
  }

  /** The memory after block i has been carved to n bytes. */
  function CarvedMem(mem: seq<Cell>, bs: seq<Block>, i: nat, n: nat): (r: seq<Cell>)
    requires i < |bs| && n <= bs[i].size && bs[i].End() <= |mem| && (i + 1 < |bs| ==> bs[i + 1].addr < |mem|)
    ensures |r| == |mem|
  {
    var b := bs[i];
    var h := HeaderOf(bs, i);
    if Splits(b, n) then
      var s := b.addr + HEADER + n;
      var m1 := PutHeader(mem, s, Head(b.size - n - HEADER, true, h.next, At(b.addr)));
      var m2 := if i + 1 < |bs| then m1[bs[i + 1].addr := HeaderOf(bs, i + 1).(prev := At(s))] else m1;
      m2[b.addr := Head(n, false, At(s), h.prev)]
    else mem[b.addr := h.(free := false)]
  }

  lemma CarvedLinked(mem: seq<Cell>, bs: seq<Block>, i: nat, n: nat, total: nat)
    requires Tiling(bs, total) && |mem| == total && Linked(mem, bs) && i < |bs| && n <= bs[i].size
    ensures bs[i].End() <= |mem| && (i + 1 < |bs| ==> bs[i + 1].addr < |mem|)
    ensures Linked(CarvedMem(mem, bs, i, n), Carve(bs, i, n))
    ensures PayloadsKept(mem, CarvedMem(mem, bs, i, n), MarkFree(bs, i))
  {
    hide Tiling, CarvedMem, Carve;
    EndsInside(bs, total, i);
    if i + 1 < |bs| { HeaderAt(mem, bs, i + 1); }
    var mem', r := CarvedMem(mem, bs, i, n), Carve(bs, i, n);
    forall k | 0 <= k < |r| ensures r[k].addr < |mem'| && mem'[r[k].addr] == HeaderOf(r, k) {
      CarvedHeader(mem, bs, i, n, total, k);
    }
    forall j, k | 0 <= j < |bs| && j != i && bs[j].Payload() <= k < bs[j].End() && k < |mem|
      ensures mem'[k] == mem[k]
    {
      CarvedPayload(mem, bs, i, n, total, j, k);
    }
  }

  lemma CarvedPayload(mem: seq<Cell>, bs: seq<Block>, i: nat, n: nat, total: nat, j: nat, k: nat)
    requires Tiling(bs, total) && |mem| == total && i < |bs| && n <= bs[i].size
    requires bs[i].End() <= |mem| && (i + 1 < |bs| ==> bs[i + 1].addr < |mem|)
    requires j < |bs| && j != i && bs[j].Payload() <= k < bs[j].End() && k < |mem|
    ensures CarvedMem(mem, bs, i, n)[k] == mem[k]
  {
    hide Tiling, PutHeader;
    Placement(bs, total, i, j);
    if i + 1 < |bs| { NotAHeader(bs, total, j, k, i + 1); }
    if Splits(bs[i], n) { CarvedCells(mem, bs, i, n, total, k); }
  }

  /** Which cells a split rewrites. */
  lemma CarvedCells(mem: seq<Cell>, bs: seq<Block>, i: nat, n: nat, total: nat, a: nat)
    requires Tiling(bs, total) && |mem| == total && i < |bs| && n <= bs[i].size && Splits(bs[i], n) && a < total
    requires bs[i].End() <= |mem| && (i + 1 < |bs| ==> bs[i + 1].addr < |mem|)
    ensures var mem', s := CarvedMem(mem, bs, i, n), bs[i].addr + HEADER + n;
            && (a == bs[i].addr ==> mem'[a] == Head(n, false, At(s), HeaderOf(bs, i).prev))
            && (a == s ==> mem'[a] == Head(bs[i].size - n - HEADER, true, HeaderOf(bs, i).next, At(bs[i].addr)))
            && (i + 1 < |bs| && a == bs[i + 1].addr ==> mem'[a] == HeaderOf(bs, i + 1).(prev := At(s)))
            && (a != bs[i].addr && !(s <= a < s + HEADER) && (i + 1 < |bs| ==> a != bs[i + 1].addr) ==>
                mem'[a] == mem[a])
  {
    hide Tiling, PutHeader;
    if i + 1 < |bs| { InOrder(bs, total, i, i + 1); }
  }

  lemma CarvedHeader(mem: seq<Cell>, bs: seq<Block>, i: nat, n: nat, total: nat, k: nat)
    requires Tiling(bs, total) && |mem| == total && Linked(mem, bs) && i < |bs| && n <= bs[i].size
    requires bs[i].End() <= |mem| && (i + 1 < |bs| ==> bs[i + 1].addr < |mem|) && k < |Carve(bs, i, n)|
    ensures var mem', r := CarvedMem(mem, bs, i, n), Carve(bs, i, n);
            r[k].addr < |mem'| && mem'[r[k].addr] == HeaderOf(r, k)
  {
    hide Tiling, PutHeader, Linked;
    if Splits(bs[i], n) {
      var j := if k <= i then k else k - 1;
      HeaderAt(mem, bs, j);
      Placement(bs, total, i, j);
      CarvedSplitHeader(mem, bs, i, n, total, k);
    } else {
      HeaderAt(mem, bs, k);
      if k != i { DistinctHeaders(bs, total, k, i); }
    }
  }

  /** Blocks before i end before it; blocks after i start behind it. */
  lemma Placement(bs: seq<Block>, total: nat, i: nat, j: nat)
    requires Tiling(bs, total) && i < |bs| && j < |bs|
    ensures j < i ==> bs[j].End() <= bs[i].addr
    ensures j > i ==> bs[i].End() <= bs[j].addr
    ensures j > i + 1 ==> bs[i + 1].End() <= bs[j].addr
  {
    if j < i { InOrder(bs, total, j, i); }
    if j > i { InOrder(bs, total, i, j); }
    if j > i + 1 { InOrder(bs, total, i + 1, j); }
  }

  lemma CarvedSplitHeader(mem: seq<Cell>, bs: seq<Block>, i: nat, n: nat, total: nat, k: nat)
    requires Tiling(bs, total) && |mem| == total && Linked(mem, bs) && i < |bs| && n <= bs[i].size && Splits(bs[i], n)
    requires bs[i].End() <= |mem| && (i + 1 < |bs| ==> bs[i + 1].addr < |mem|) && k < |bs| + 1
    ensures var mem', r := CarvedMem(mem, bs, i, n), Carve(bs, i, n);
            r[k].addr < |mem'| && mem'[r[k].addr] == HeaderOf(r, k)
  {
    hide Tiling, PutHeader, Linked, CarvedMem;
    var j := if k <= i then k else k - 1;
    var r := Carve(bs, i, n);
    HeaderAt(mem, bs, j);
    Placement(bs, total, i, j);
    if i + 1 < |bs| {
      Placement(bs, total, i, i + 1);
      Placement(bs, total, j, i + 1);
    }
    assert r[k].addr == if k == i + 1 then bs[i].addr + HEADER + n else bs[j].addr;
    CarvedCells(mem, bs, i, n, total, r[k].addr);
  }

  /** The memory after blocks i and i + 1 have been joined. */
  function JoinedMem(mem: seq<Cell>, bs: seq<Block>, i: nat): (r: seq<Cell>)
    requires i + 1 < |bs| && bs[i].addr < |mem| && (i + 2 < |bs| ==> bs[i + 2].addr < |mem|)
    ensures |r| == |mem|
  {
    var m1 := mem[bs[i].addr :=
        Head(bs[i].size + HEADER + bs[i + 1].size, true, HeaderOf(bs, i + 1).next, HeaderOf(bs, i).prev)];
    if i + 2 < |bs| then m1[bs[i + 2].addr := HeaderOf(bs, i + 2).(prev := At(bs[i].addr))] else m1
  }

  lemma JoinedLinked(mem: seq<Cell>, bs: seq<Block>, i: nat, total: nat)
    requires Tiling(bs, total) && |mem| == total && Linked(mem, bs) && i + 1 < |bs|
    ensures bs[i].addr < |mem| && (i + 2 < |bs| ==> bs[i + 2].addr < |mem|)
    ensures Linked(JoinedMem(mem, bs, i), Join(bs, i))
    ensures PayloadsKept(mem, JoinedMem(mem, bs, i), bs)
  {
    hide Tiling;
    assert bs[i].addr < |mem| && (i + 2 < |bs| ==> bs[i + 2].addr < |mem|);
    var mem', r := JoinedMem(mem, bs, i), Join(bs, i);
    forall k | 0 <= k < |r| ensures r[k].addr < |mem'| && mem'[r[k].addr] == HeaderOf(r, k) {
      JoinedHeader(mem, bs, i, total, k);
    }
    forall j, k | 0 <= j < |bs| && bs[j].Payload() <= k < bs[j].End() && k < |mem| ensures mem'[k] == mem[k] {
      NotAHeader(bs, total, j, k, i);
      if i + 2 < |bs| { NotAHeader(bs, total, j, k, i + 2); }
    }
  }

  /** No header lies inside a payload. */
  lemma NotAHeader(bs: seq<Block>, total: nat, j: nat, k: nat, i: nat)
    requires Tiling(bs, total) && j < |bs| && i < |bs| && bs[j].Payload() <= k < bs[j].End()
    ensures k != bs[i].addr
  {
    if j < i { InOrder(bs, total, j, i); } else if i < j { InOrder(bs, total, i, j); }
  }

  lemma DistinctHeaders(bs: seq<Block>, total: nat, i: nat, j: nat)
    requires Tiling(bs, total) && i < |bs| && j < |bs| && i != j
    ensures bs[i].addr != bs[j].addr
  {
    if j < i { InOrder(bs, total, j, i); } else { InOrder(bs, total, i, j); }
  }

  lemma JoinedHeader(mem: seq<Cell>, bs: seq<Block>, i: nat, total: nat, k: nat)
    requires Tiling(bs, total) && |mem| == total && Linked(mem, bs) && i + 1 < |bs| && k < |Join(bs, i)|
    requires bs[i].addr < |mem| && (i + 2 < |bs| ==> bs[i + 2].addr < |mem|)
    ensures var mem', r := JoinedMem(mem, bs, i), Join(bs, i);
            r[k].addr < |mem'| && mem'[r[k].addr] == HeaderOf(r, k)
  {
    hide Tiling, Linked;
    var j := if k <= i then k else k + 1;
    if j != i { DistinctHeaders(bs, total, j, i); }
    if i + 2 < |bs| && j != i + 2 { DistinctHeaders(bs, total, j, i + 2); }
    HeaderAt(mem, bs, j);
    assert k != i ==> Join(bs, i)[k] == bs[j];
  }

  lemma MarkedLinked(mem: seq<Cell>, bs: seq<Block>, i: nat, total: nat)
    requires Tiling(bs, total) && |mem| == total && Linked(mem, bs) && i < |bs|
    ensures bs[i].addr < |mem|
    ensures var mem' := mem[bs[i].addr := HeaderOf(bs, i).(free := true)];
            Linked(mem', MarkFree(bs, i)) && PayloadsKept(mem, mem', bs) && Tiling(MarkFree(bs, i), total)
  {
    hide Tiling;
    MarkTiling(bs, i, total);
    HeaderAt(mem, bs, i);
    var mem', r := mem[bs[i].addr := HeaderOf(bs, i).(free := true)], MarkFree(bs, i);
    forall k | 0 <= k < |r| ensures r[k].addr < |mem'| && mem'[r[k].addr] == HeaderOf(r, k) {
      if k != i { DistinctHeaders(bs, total, k, i); }
      HeaderAt(mem, bs, k);
    }
    forall j, k | 0 <= j < |bs| && bs[j].Payload() <= k < bs[j].End() && k < |mem| ensures mem'[k] == mem[k] {
      NotAHeader(bs, total, j, k, i);
    }
  }

  lemma MarkTiling(bs: seq<Block>, i: nat, total: nat)
    requires Tiling(bs, total) && i < |bs|
    ensures Tiling(MarkFree(bs, i), total)
  {
  }

  class Heap {
    const total: nat
    var mem: seq<Cell>
    ghost var blocks: seq<Block>

    ghost predicate Valid()
      reads this
    {
      |mem| == total && Tiling(blocks, total) && Linked(mem, blocks)
    }

    /** kheap_init: one free block. */
    constructor (total: nat)
      requires total >= HEADER && total % ALIGN == 0
      ensures Valid() && this.total == total && blocks == Initial(total)
    {
      this.total := total;
      mem := PutHeader(seq(total, i => Data(0)), 0, Head(total - HEADER, true, Null, Null));
      blocks := [Block(0, total - HEADER, true)];
    }

    /** kmalloc: the payload address, or 0 when no free block fits. */
    method Malloc(request: nat) returns (p: nat)
      requires Valid() && request < WORD
      modifies this
      ensures Valid()
      ensures var n := AlignUp(request); var i := FirstFit(old(blocks), n, 0);
              if request == 0 || i == |old(blocks)| then p == 0 && blocks == old(blocks) && mem == old(mem)
              else p == old(blocks)[i].Payload() && blocks == Carve(old(blocks), i, n)
      ensures PayloadsKept(old(mem), mem, old(blocks))
      ensures p != 0 ==>
              var n := AlignUp(request);
              Fits(blocks, p, n) && Trimmed(old(blocks), FirstFit(old(blocks), n, 0), n, blocks)
    {
      hide Tiling, Linked, Carve, PayloadsKept, AlignUp, Trimmed, Fits;
      KeptSame(mem, blocks);
      if request == 0 { return 0; }
      var n := AlignUp(request);
      HeadFirst(blocks, total);
      var b := At(0);
      ghost var i := 0;
      while b != Null
        invariant Valid() && mem == old(mem) && blocks == old(blocks)
        invariant 0 <= i <= |blocks| && b == if i < |blocks| then At(blocks[i].addr) else Null
        invariant FirstFit(blocks, n, 0) == FirstFit(blocks, n, i)
        decreases |blocks| - i
      {
        HeaderAt(mem, blocks, i);
        var h := mem[b.addr];
        if h.free && h.size >= n {
          Take(b.addr, n, i);
          TrimmedFits(old(blocks), i, n, blocks);
          KeptWeaker(old(mem), mem, old(blocks), i);
          return b.addr + HEADER;
        }
        b := h.next;
        i := i + 1;
      }
      return 0;
    }

    /** The body of the first-fit loop: split if worthwhile, mark used. */
    method Take(b: nat, n: nat, ghost i: nat)
      requires Valid() && i < |blocks| && b == blocks[i].addr && n <= blocks[i].size && n % ALIGN == 0
      modifies this
      ensures Valid() && blocks == Carve(old(blocks), i, n) && Trimmed(old(blocks), i, n, blocks)
      ensures PayloadsKept(old(mem), mem, MarkFree(old(blocks), i))
      ensures var p := b + HEADER;
              p + n <= |mem| == |old(mem)| && mem[p..p + n] == old(mem)[p..p + n]
    {
      hide Tiling, Linked, PayloadsKept, PutHeader, Carve, Trimmed;
      CarveTrims(blocks, i, n);
      CarvedKeepsFront(mem, blocks, i, n, total);
      CarvedLinked(mem, blocks, i, n, total);
      CarveTiling(blocks, total, i, n);
      HeaderAt(mem, blocks, i);
      if i + 1 < |blocks| { HeaderAt(mem, blocks, i + 1); }
      var h := mem[b];
      var leftover := h.size - n;
      if leftover >= HEADER + ALIGN {
        var split := b + HEADER + n;
        mem := PutHeader(mem, split, Head(leftover - HEADER, true, h.next, At(b)));
        if h.next != Null {
          SplitBeforeNext(blocks, total, i, n);
          mem := mem[h.next.addr := mem[h.next.addr].(prev := At(split))];
        }
        mem := mem[b := Head(n, false, At(split), h.prev)];
      } else {
        mem := mem[b := h.(free := false)];
      }
      blocks := Carve(blocks, i, n);
    }

    /** kfree of NULL or the payload of block i: nothing, a panic on a double free, or the release. */
    method Free(p: nat, ghost i: nat) returns (panicked: bool)
      requires Valid() && (p != 0 ==> i < |blocks| && p == blocks[i].Payload())
      modifies this
      ensures Valid()
      ensures panicked <==> p != 0 && old(blocks)[i].free
      ensures p == 0 || panicked ==> blocks == old(blocks) && mem == old(mem)
      ensures p != 0 && !panicked ==>
              blocks == Release(old(blocks), i) && PayloadsKept(old(mem), mem, MarkFree(old(blocks), i))
    {
      hide Tiling, Linked, PayloadsKept, Release;
      if p == 0 { return false; }
      HeaderAt(mem, blocks, i);
      if mem[p - HEADER].free { return true; }
      Coalesce(p, i);
      return false;
    }

    /** The rest of kfree: mark free, coalesce forward, coalesce backward. */
    method Coalesce(p: nat, ghost i: nat)
      requires Valid() && i < |blocks| && !blocks[i].free && p == blocks[i].Payload()
      modifies this
      ensures Valid() && blocks == Release(old(blocks), i)
      ensures PayloadsKept(old(mem), mem, MarkFree(old(blocks), i))
    {
      hide Tiling, Linked, PayloadsKept, Join, JoinedMem;
      ghost var bs0, mem0 := blocks, mem;
      var b := p - HEADER;
      HeaderAt(mem, blocks, i);
      MarkedLinked(mem, blocks, i, total);
      mem := mem[b := mem[b].(free := true)];
      blocks := MarkFree(blocks, i);
      ghost var bs1, mem1 := blocks, mem;
      HeaderAt(mem, blocks, i);
      var h := mem[b];
      if i + 1 < |blocks| { HeaderAt(mem, blocks, i + 1); }
      if h.next != Null && mem[h.next.addr].free { JoinAt(b, i); }
      ghost var bs2, mem2 := blocks, mem;
      assert bs2 == JoinForward(bs1, i);
      ForwardFacts(bs1, i);
      HeaderAt(mem, blocks, i);
      if i > 0 { HeaderAt(mem, blocks, i - 1); }
      h := mem[b];
      if h.prev != Null && mem[h.prev.addr].free { JoinAt(h.prev.addr, i - 1); }
      KeptThrough(mem0, mem1, mem2, mem, bs0, bs1, bs2, i);
    }

    /**
     * krealloc of a live payload p of block i (or of NULL, p == 0): shrink in
     * place, or allocate, copy and free. Every other live payload is kept.
     */
    method Realloc(p: nat, newSize: nat, ghost i: nat) returns (r: nat)
      requires Valid() && newSize < WORD
      requires p != 0 ==> i < |blocks| && !blocks[i].free && p == blocks[i].Payload()
      modifies this
      ensures Valid()
      ensures p != 0 ==> PayloadsKept(old(mem), mem, MarkFree(old(blocks), i))
      ensures p == 0 && newSize == 0 ==> r == 0 && blocks == old(blocks)
      ensures p != 0 && newSize == 0 ==> r == 0 && blocks == Release(old(blocks), i)
      ensures p != 0 && newSize > 0 && old(blocks)[i].size >= AlignUp(newSize) ==>
                r == p && blocks == Carve(old(blocks), i, AlignUp(newSize))
                && Trimmed(old(blocks), i, AlignUp(newSize), blocks)
      ensures r != 0 ==> Fits(blocks, r, AlignUp(newSize))
      ensures newSize > 0 && (p == 0 || old(blocks)[i].size < AlignUp(newSize)) ==>
                var a := FirstFit(old(blocks), AlignUp(newSize), 0);
                if a == |old(blocks)| then r == 0 && blocks == old(blocks) && mem == old(mem)
                else
                  && r == old(blocks)[a].Payload()
                  && blocks == if p == 0 then Carve(old(blocks), a, AlignUp(newSize))
                     else Moved(old(blocks), a, AlignUp(newSize), i)
      ensures p != 0 && r != 0 && newSize + (ALIGN - 1) < WORD ==>
                var keep := if old(blocks)[i].size < newSize then old(blocks)[i].size else newSize;
                r + keep <= |mem| && p + keep <= |old(mem)| && mem[r..r + keep] == old(mem)[p..p + keep]
    {
      hide Tiling, Linked, PayloadsKept, Carve, Release, AlignUp, FirstFit, Trimmed, Fits;
      if p == 0 {
        r := Malloc(newSize);
        return;
      }
      if newSize == 0 {
        Coalesce(p, i);
        return 0;
      }
      EndsInside(blocks, total, i);
      HeaderAt(mem, blocks, i);
      var b := p - HEADER;
      var aligned := AlignUp(newSize);
      AlignUpCoversIff(newSize);
      if mem[b].size >= aligned {
        Take(b, aligned, i);
        TrimmedFits(old(blocks), i, aligned, blocks);
        r := p;
        if newSize <= aligned { FrontSlice(mem, p, old(mem), p, aligned, newSize); }
      } else {
        KeptSame(mem, MarkFree(blocks, i));
        ghost var size := blocks[i].size;
        r := Move(p, newSize, i);
        if r != 0 && newSize < size { FrontSlice(mem, r, old(mem), p, size, newSize); }
      }
    }

    /** The growing case of krealloc: a new block, a copy of the whole old payload, a free. */
    method Move(p: nat, newSize: nat, ghost i: nat) returns (r: nat)
      requires Valid() && 0 < newSize < WORD && i < |blocks| && !blocks[i].free && p == blocks[i].Payload()
      requires blocks[i].size < AlignUp(newSize)
      modifies this
      ensures Valid()
      ensures var n := AlignUp(newSize); var a := FirstFit(old(blocks), n, 0);
              if a == |old(blocks)| then r == 0 && blocks == old(blocks) && mem == old(mem)
              else r == old(blocks)[a].Payload() && blocks == Moved(old(blocks), a, n, i)
      ensures PayloadsKept(old(mem), mem, MarkFree(old(blocks), i))
      ensures r != 0 ==> Fits(blocks, r, AlignUp(newSize))
      ensures r != 0 ==> r + old(blocks)[i].size <= |mem| && p + old(blocks)[i].size <= |old(mem)|
                         && mem[r..r + old(blocks)[i].size] == old(mem)[p..p + old(blocks)[i].size]
    {
      hide Tiling, Linked, PayloadsKept, Carve, Release, AlignUp, Trimmed, Fits;
      ghost var bs0, mem0, n := blocks, mem, AlignUp(newSize);
      ghost var a := FirstFit(bs0, n, 0);
      EndsInside(bs0, total, i);
      HeadFirst(bs0, total);
      r := Malloc(newSize);
      KeptSame(mem0, MarkFree(bs0, i));
      if r == 0 { return; }
      ghost var bs1, mem1 := blocks, mem;
      ghost var i' := CarvedIndex(bs0, a, n, i);
      CarvedBlocks(bs0, a, n, i);
      HeaderAt(mem, blocks, i');
      var size := mem[p - HEADER].size;
      EndsInside(blocks, total, a);
      EndsInside(blocks, total, i');
      OldPayload(mem0, mem1, bs0, i);
      CopyPayload(r, p, size, a, i');
      ghost var mem2 := mem;
      Coalesce(p, i');
      DistinctHeaders(bs0, total, a, i);
      FitsStill(bs1, i', r, n, p);
      NewPayload(mem2, mem, bs1, i', a, size);
      MovedKept(mem0, mem1, mem2, mem, bs0, bs1, i, i', a, n, size, total);
    }

    /** kmemcpy between two payloads. */
    method CopyPayload(dst: nat, src: nat, n: nat, ghost a: nat, ghost i: nat)
      requires Valid() && a < |blocks| && i < |blocks| && a != i
      requires dst == blocks[a].Payload() && src == blocks[i].Payload() && n <= blocks[a].size && n <= blocks[i].size
      requires dst + n <= |mem| && src + n <= |mem|
      modifies this`mem
      ensures Valid() && |mem| == |old(mem)|
      ensures mem[dst..dst + n] == old(mem)[src..src + n]
      ensures forall k :: 0 <= k < |mem| && !(dst <= k < dst + n) ==> mem[k] == old(mem)[k]
    {
      hide Tiling, Linked;
      Placement(blocks, total, a, i);
      var k := 0;
      while k < n
        invariant 0 <= k <= n && |mem| == |old(mem)|
        invariant mem[dst..dst + k] == old(mem)[src..src + k]
        invariant forall x :: 0 <= x < |mem| && !(dst <= x < dst + n) ==> mem[x] == old(mem)[x]
      {
        ghost var before := mem;
        mem := mem[dst + k := mem[src + k]];
        OneMore(before, mem, old(mem), dst, src, k);
        k := k + 1;
      }
      StillLinked(old(mem), mem, blocks, total, a, n);
    }

    /** kheap_get_stats: the counters obtained by walking the next links. */
    method Stats() returns (used: nat, free: nat, count: nat, freeCount: nat, largest: nat)
      requires Valid()
      ensures used == Bytes(blocks, false) && free == Bytes(blocks, true) && count == |blocks|
      ensures freeCount == FreeBlocks(blocks)
      ensures used + free + HEADER * count == total
      ensures forall i :: 0 <= i < |blocks| && blocks[i].free ==> blocks[i].size <= largest
      ensures largest == 0 || exists i :: 0 <= i < |blocks| && blocks[i].free && blocks[i].size == largest
    {
      hide Tiling, Linked;
      used, free, count, freeCount, largest := 0, 0, 0, 0, 0;
      HeadFirst(blocks, total);
      Conservation(blocks, total);
      var b := At(0);
      while b != Null
        invariant count <= |blocks| && b == if count < |blocks| then At(blocks[count].addr) else Null
        invariant freeCount == FreeBlocks(blocks[..count])
        invariant used == Bytes(blocks[..count], false) && free == Bytes(blocks[..count], true)
        invariant forall i :: 0 <= i < count && blocks[i].free ==> blocks[i].size <= largest
        invariant largest == 0 || exists i :: 0 <= i < count && blocks[i].free && blocks[i].size == largest
        decreases |blocks| - count
      {
        HeaderAt(mem, blocks, count);
        assert blocks[..count + 1][..count] == blocks[..count];
        var h := mem[b.addr];
        if h.free {
          freeCount := freeCount + 1;
          free := free + h.size;
          if h.size > largest { largest := h.size; }
        } else {
          used := used + h.size;
        }
        count := count + 1;
        b := h.next;
      }
      assert blocks[..count] == blocks;
    }

    /** Absorb the block after the one at b. */
    method JoinAt(b: nat, ghost i: nat)
      requires Valid() && i + 1 < |blocks| && b == blocks[i].addr && blocks[i].free
      modifies this
      ensures Valid() && blocks == Join(old(blocks), i)
      ensures PayloadsKept(old(mem), mem, old(blocks))
    {
      hide Tiling, Linked, PayloadsKept, Join;
      HeaderAt(mem, blocks, i);
      HeaderAt(mem, blocks, i + 1);
      if i + 2 < |blocks| { HeaderAt(mem, blocks, i + 2); }
      JoinedLinked(mem, blocks, i, total);
      JoinTiling(blocks, total, i);
      if i + 2 < |blocks| { DistinctHeaders(blocks, total, i, i + 2); }
      var h := mem[b];
      var nx := mem[h.next.addr];
      mem := mem[b := Head(h.size + HEADER + nx.size, true, nx.next, h.prev)];
      if nx.next != Null { mem := mem[nx.next.addr := mem[nx.next.addr].(prev := At(b))]; }
      blocks := Join(blocks, i);
    }
  }

  lemma FitsStill(bs: seq<Block>, i: nat, r: nat, n: nat, p: nat)
    requires Fits(bs, r, n) && i < |bs| && bs[i].Payload() == p && r != p
    ensures Fits(Release(bs, i), r, n)
  {
    hide Release;
    var b :| b in bs && !b.free && b.Payload() == r && n <= b.size < n + 48;
    ReleaseSpares(bs, i, b);
  }

  lemma HeaderAt(mem: seq<Cell>, bs: seq<Block>, i: nat)
    requires Linked(mem, bs) && i < |bs|
    ensures bs[i].addr < |mem| && mem[bs[i].addr] == HeaderOf(bs, i)
  {
  }

  lemma HeadFirst(bs: seq<Block>, total: nat)
    requires Tiling(bs, total)
    ensures |bs| > 0 && bs[0].addr == 0
  {
  }

  lemma SplitBeforeNext(bs: seq<Block>, total: nat, i: nat, n: nat)
    requires Tiling(bs, total) && i + 1 < |bs| && n + HEADER <= bs[i].size
    ensures bs[i].addr + HEADER + n + HEADER <= bs[i + 1].addr
  {
  }

  /** A forward join leaves the block's address and everything before it. */
  lemma ForwardFacts(bs: seq<Block>, i: nat)
    requires i < |bs| && bs[i].free
    ensures var f := JoinForward(bs, i);
            i < |f| && f[i].addr == bs[i].addr && f[i].free && (i > 0 ==> f[i - 1] == bs[i - 1])
  {
  }

  lemma KeptThrough(m0: seq<Cell>, m1: seq<Cell>, m2: seq<Cell>, m3: seq<Cell>, bs0: seq<Block>, bs1: seq<Block>,
      bs2: seq<Block>, i: nat)
    requires i < |bs0| && bs1 == MarkFree(bs0, i) && bs2 == JoinForward(bs1, i)
    requires PayloadsKept(m0, m1, bs0) && PayloadsKept(m1, m2, bs1) && PayloadsKept(m2, m3, bs2)
    ensures PayloadsKept(m0, m3, bs1)
  {
    forall j, k | 0 <= j < |bs1| && !bs1[j].free && bs1[j].Payload() <= k < bs1[j].End() && k < |m0|
      ensures m3[k] == m0[k]
    {
      assert bs0[j] == bs1[j];
      var j' := if i + 1 < |bs1| && bs1[i + 1].free && j > i then j - 1 else j;
      assert bs2[j'] == bs1[j];
    }
  }

  lemma KeptSame(m: seq<Cell>, bs: seq<Block>)
    ensures PayloadsKept(m, m, bs)
  {
  }

  lemma KeptWeaker(m0: seq<Cell>, m1: seq<Cell>, bs: seq<Block>, i: nat)
    requires i < |bs| && bs[i].free && PayloadsKept(m0, m1, MarkFree(bs, i))
    ensures PayloadsKept(m0, m1, bs)
  {
    assert MarkFree(bs, i) == bs;
  }

  lemma OneMore(m: seq<Cell>, m': seq<Cell>, m0: seq<Cell>, dst: nat, src: nat, k: nat)
    requires dst + k < |m| && src + k < |m| == |m0| && m[src + k] == m0[src + k] && m' == m[dst + k := m[src + k]]
    requires m[dst..dst + k] == m0[src..src + k]
    ensures m'[dst..dst + k + 1] == m0[src..src + k + 1]
  {
    assert m'[dst..dst + k] == m[dst..dst + k];
    assert m'[dst..dst + k + 1] == m'[dst..dst + k] + [m'[dst + k]];
    assert m0[src..src + k + 1] == m0[src..src + k] + [m0[src + k]];
  }

  /** Writing inside the payload of block a touches no header. */
  lemma StillLinked(m: seq<Cell>, m': seq<Cell>, bs: seq<Block>, total: nat, a: nat, n: nat)
    requires Tiling(bs, total) && Linked(m, bs) && a < |bs| && n <= bs[a].size && |m'| == |m|
    requires forall x :: 0 <= x < |m| && !(bs[a].Payload() <= x < bs[a].Payload() + n) ==> m'[x] == m[x]
    ensures Linked(m', bs)
  {
    hide Tiling;
    forall j | 0 <= j < |bs| ensures bs[j].addr < |m'| && m'[bs[j].addr] == HeaderOf(bs, j) {
      Placement(bs, total, a, j);
    }
  }

  /** Shrinking a block leaves the first n bytes of its payload. */
  lemma CarvedKeepsFront(mem: seq<Cell>, bs: seq<Block>, i: nat, n: nat, total: nat)
    requires Tiling(bs, total) && |mem| == total && i < |bs| && n <= bs[i].size && Linked(mem, bs)
    ensures bs[i].End() <= |mem| && (i + 1 < |bs| ==> bs[i + 1].addr < |mem|)
    ensures var p := bs[i].Payload(); CarvedMem(mem, bs, i, n)[p..p + n] == mem[p..p + n]
  {
    hide Tiling, PutHeader;
    EndsInside(bs, total, i);
    if i + 1 < |bs| {
      HeaderAt(mem, bs, i + 1);
      InOrder(bs, total, i, i + 1);
    }
    var p, mem' := bs[i].Payload(), CarvedMem(mem, bs, i, n);
    forall k | p <= k < p + n ensures mem'[k] == mem[k] {
      if Splits(bs[i], n) { CarvedCells(mem, bs, i, n, total, k); }
    }
  }

  lemma FrontSlice(m: seq<Cell>, p: nat, m': seq<Cell>, p': nat, n: nat, k: nat)
    requires k <= n && p + n <= |m| && p' + n <= |m'| && m[p..p + n] == m'[p'..p' + n]
    ensures m[p..p + k] == m'[p'..p' + k]
  {
    assert m[p..p + n][..k] == m[p..p + k] && m'[p'..p' + n][..k] == m'[p'..p' + k];
  }

  /** Where block i is after block a has been carved. */
  function CarvedIndex(bs: seq<Block>, a: nat, n: nat, i: nat): nat
    requires a < |bs| && n <= bs[a].size
  {
    if Splits(bs[a], n) && a < i then i + 1 else i
  }

  /** The blocks after a growing krealloc: block a carved to n bytes, then block i released. */
  function Moved(bs: seq<Block>, a: nat, n: nat, i: nat): seq<Block>
    requires a < |bs| && n <= bs[a].size && i < |bs|
  {
    Release(Carve(bs, a, n), CarvedIndex(bs, a, n, i))
  }

  lemma CarvedBlocks(bs: seq<Block>, a: nat, n: nat, i: nat)
    requires a < |bs| && i < |bs| && i != a && n <= bs[a].size
    ensures var r, i' := Carve(bs, a, n), CarvedIndex(bs, a, n, i);
            && a < |r| && i' < |r| && i' != a && r[i'] == bs[i]
            && r[a].addr == bs[a].addr && !r[a].free && r[a].size >= n
  {
  }

  lemma OldPayload(m0: seq<Cell>, m1: seq<Cell>, bs: seq<Block>, i: nat)
    requires PayloadsKept(m0, m1, bs) && i < |bs| && !bs[i].free && bs[i].End() <= |m0|
    ensures |m1| == |m0| && m1[bs[i].Payload()..bs[i].End()] == m0[bs[i].Payload()..bs[i].End()]
  {
    forall k | bs[i].Payload() <= k < bs[i].End() ensures m1[k] == m0[k] {}
  }

  lemma NewPayload(m2: seq<Cell>, m3: seq<Cell>, bs: seq<Block>, i: nat, a: nat, n: nat)
    requires i < |bs| && a < |bs| && a != i && !bs[a].free && bs[a].End() <= |m2| && n <= bs[a].size
    requires PayloadsKept(m2, m3, MarkFree(bs, i))
    ensures var p := bs[a].Payload(); |m3| == |m2| && m3[p..p + n] == m2[p..p + n]
  {
    OldPayload(m2, m3, MarkFree(bs, i), a);
    FrontSlice(m3, bs[a].Payload(), m2, bs[a].Payload(), bs[a].size, n);
  }

  lemma MovedKept(m0: seq<Cell>, m1: seq<Cell>, m2: seq<Cell>, m3: seq<Cell>, bs0: seq<Block>, bs1: seq<Block>,
                  i: nat, i': nat, a: nat, n: nat, size: nat, total: nat)
    requires i < |bs0| && a < |bs0| && i != a && bs0[a].free && n <= bs0[a].size && size <= n
    requires bs1 == Carve(bs0, a, n) && i' == CarvedIndex(bs0, a, n, i) && Tiling(bs1, total) && i' < |bs1|
    requires PayloadsKept(m0, m1, bs0) && |m2| == |m1| && PayloadsKept(m2, m3, MarkFree(bs1, i'))
    requires forall k :: 0 <= k < |m1| && !(bs0[a].Payload() <= k < bs0[a].Payload() + size) ==> m2[k] == m1[k]
    ensures PayloadsKept(m0, m3, MarkFree(bs0, i))
  {
    hide Tiling, Carve;
    var f := MarkFree(bs0, i);
    forall j, k | 0 <= j < |f| && !f[j].free && f[j].Payload() <= k < f[j].End() && k < |m0|
      ensures m3[k] == m0[k]
    {
      CarvedBlocks(bs0, a, n, j);
      CarvedBlocks(bs0, a, n, i);
      var j' := CarvedIndex(bs0, a, n, j);
      assert m1[k] == m0[k] by { assert bs0[j] == f[j]; }
      Placement(bs1, total, a, j');
      assert MarkFree(bs1, i')[j'] == bs0[j];
    }
  }
}
