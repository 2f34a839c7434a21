/**
 * The mappings vmm_init makes, as laws about addresses: the direct map of the
 * first 4 GB and the kernel's image.
 */
module VmmInit {
  import opened Bits
  import opened PageTables
  import opened AddressSpaces
  import opened Vmm
  import P = Pmm

  const HUGE := 0x20_0000
  const HHDM_TOP := 0x1_0000_0000

  /** Physical addresses have 52 bits. */
  const PHYS := 0x10_0000_0000_0000

  const KERNEL := Flags(true, false, WRITABLE)

  // ------------------------------------------------------------------ addresses

  /** The 2 MB around an address are the addresses that share its upper indices: those that agree in bits 21 to 47. */
  lemma BesideIff(v: nat, w: nat)
    ensures Beside(true, v, w) <==> w / HUGE % 0x800_0000 == v / HUGE % 0x800_0000
  {
    hide Index;
    HugeDigits(v);
    HugeDigits(w);
    Digits(Index(v, 2), Index(v, 3), Index(v, 4), 0, Index(w, 2), Index(w, 3), Index(w, 4), 0);
  }

  lemma HugeDigits(v: nat)
    ensures v / HUGE % 0x800_0000 == Index(v, 2) + 512 * Index(v, 3) + 0x4_0000 * Index(v, 4)
  {
    var p := v / HUGE;
    assert Index(v, 2) == p % 512;
    assert Index(v, 3) == p / 512 % 512 by { assert v / 0x4000_0000 == p / 512; }
    assert Index(v, 4) == p / 0x4_0000 % 512 by { assert v / 0x80_0000_0000 == p / 0x4_0000; }
    hide Index;
    DirectoryDigits(p);
  }

  lemma DirectoryDigits(p: nat)
    ensures p % 0x800_0000 == p % 512 + 512 * (p / 512 % 512) + 0x4_0000 * (p / 0x4_0000 % 512)
  {
    var q := p / 512;
    assert p / 0x4_0000 == q / 512;
  }

  lemma HugeFrameExact(phys: nat)
    requires phys % HUGE == 0 && phys < PHYS
    ensures HugeFrameOf(phys) * PAGE_SIZE == phys
  {
    assert phys / HUGE < 0x8000_0000;
  }

  lemma FrameExact(phys: nat)
    requires phys % PAGE_SIZE == 0 && phys < PHYS
    ensures FrameOf(phys) * PAGE_SIZE == phys
  {
    assert phys / PAGE_SIZE < 0x100_0000_0000;
  }

  /** What a successful mapping means for addresses: byte d of the page is byte d of the frame. */
  method MapAndTranslate(vm: Vmm, root: nat, v: nat, phys: nat, flags: Flags, d: nat) returns (r: Outcome, to: nat)
    requires vm.Valid() && vm.IsRoot(root) && flags.present
    requires v % PAGE_SIZE == 0 && phys % PAGE_SIZE == 0 && phys < PHYS && d < PAGE_SIZE
    modifies vm`mem, vm`lvl, vm`tlb, vm.pmm
    ensures r.Done? ==> to == phys + d
  {
    hide Walk, Index, SamePage, P.UsedIn, WellFormed, Accounts, SameWalks, Coherent, Joins, JoinsWith, Keeps, Maps,
        Stored, LeafOf, Translate;
    r := vm.MapPage(root, v, phys, flags);
    to := vm.TranslatePml4(root, v + d);
    if r.Done? {
      SamePageOffset(v, d);
      PageOffset(vm.mem, root, v, phys, flags, d);
    }
  }

  lemma PageOffset(mem: Memory, root: nat, v: nat, phys: nat, flags: Flags, d: nat)
    requires v % PAGE_SIZE == 0 && phys % PAGE_SIZE == 0 && phys < PHYS && d < PAGE_SIZE && flags.present
    requires Walk(mem, 4, root, v + d) == LeafOf(phys, flags)
    ensures Translate(mem, root, v + d) == Mapped(phys + d)
  {
    hide Walk;
    FrameExact(phys);
    assert (v + d) % PAGE_SIZE == d;
  }

  lemma SamePageOffset(v: nat, d: nat)
    requires v % PAGE_SIZE == 0 && d < PAGE_SIZE
    ensures SamePage(v, v + d)
  {
    hide SamePage;
    SamePageIff(v, v + d);
    assert (v + d) / PAGE_SIZE == v / PAGE_SIZE;
  }

  // ------------------------------------------------------------- the direct map

  /** Address a behind offset. */
  function Virt(offset: nat, a: nat): nat { offset + a }

  /** The first top bytes of physical memory, mapped at hhdm in pages of 2 MB. */
  ghost predicate HugeMap(mem: Memory, root: nat, hhdm: nat, top: nat)
  {
    forall a :: 0 <= a < top ==> Walk(mem, 4, root, Virt(hhdm, a)) == Page(a / HUGE * HUGE, 2)
  }

  /** The first top bytes of a frame range at phys, mapped at virt in pages of 4 KB. */
  ghost predicate Image(mem: Memory, root: nat, virt: nat, phys: nat, top: nat)
  {
    forall a :: 0 <= a < top ==> Walk(mem, 4, root, Virt(virt, a)) == Page(phys + a / PAGE_SIZE * PAGE_SIZE, 1)
  }

  /** Byte a behind virt is byte a behind phys. */
  ghost predicate Linear(mem: Memory, root: nat, virt: nat, phys: nat, top: nat)
  {
    forall a :: 0 <= a < top ==> Translate(mem, root, Virt(virt, a)) == Mapped(phys + a)
  }

  lemma HugeLinear(mem: Memory, root: nat, hhdm: nat, top: nat)
    requires HugeMap(mem, root, hhdm, top) && hhdm % HUGE == 0
    ensures Linear(mem, root, hhdm, 0, top)
  {
    hide Walk;
    forall a | 0 <= a < top ensures Translate(mem, root, Virt(hhdm, a)) == Mapped(0 + a) {
      assert Walk(mem, 4, root, Virt(hhdm, a)) == Page(a / HUGE * HUGE, 2);
      OffsetKept(hhdm, a, HUGE);
    }
  }

  lemma ImageLinear(mem: Memory, root: nat, virt: nat, phys: nat, top: nat)
    requires Image(mem, root, virt, phys, top) && virt % PAGE_SIZE == 0
    ensures Linear(mem, root, virt, phys, top)
  {
    hide Walk;
    forall a | 0 <= a < top ensures Translate(mem, root, Virt(virt, a)) == Mapped(phys + a) {
      assert Walk(mem, 4, root, Virt(virt, a)) == Page(phys + a / PAGE_SIZE * PAGE_SIZE, 1);
      OffsetKept(virt, a, PAGE_SIZE);
    }
  }

  lemma OffsetKept(v: nat, a: nat, span: nat)
    requires span > 0 && v % span == 0
    ensures (v + a) % span == a % span && a / span * span + a % span == a && (v + a) / span == v / span + a / span
  {
    assert v == span * (v / span) && a == span * (a / span) + a % span;
    assert v + a == span * (v / span + a / span) + a % span;
    DivModUnique(v + a, span, v / span + a / span, a % span);
  }

  /** Numbers less than n apart differ modulo n. */
  lemma DifferentPages(p: nat, q: nat, n: nat)
    requires p < q < p + n
    ensures p % n != q % n
  {
    if p % n == q % n {
      assert q - p == n * (q / n - p / n);
      if q / n > p / n { MulMono(1, q / n - p / n, n); } else { MulMono(q / n - p / n, 0, n); }
    }
  }

  /** The loop of vmm_init over the first 4 GB; it panics only when there is no frame left for a table. */
  method MapHhdm(vm: Vmm, hhdm: nat) returns (panicked: bool)
    requires vm.Valid() && hhdm % HUGE == 0
    modifies vm`mem, vm`lvl, vm.pmm
    ensures vm.Valid() && (panicked ==> Full(vm))
    ensures !panicked ==> HugeMap(vm.mem, vm.kernel, hhdm, HHDM_TOP)
  {
    hide Walk, Beside, P.UsedIn, WellFormed, HugeMap, Accounts, SameWalks;
    var p := 0;
    NothingMapped(vm.mem, vm.kernel, hhdm);
    while p < HHDM_TOP
      invariant 0 <= p <= HHDM_TOP && p % HUGE == 0 && vm.Valid() && HugeMap(vm.mem, vm.kernel, hhdm, p)
      decreases HHDM_TOP - p
    {
      ghost var mem0 := vm.mem;
      var ok := vm.MapHuge2MB(hhdm + p, p, KERNEL);
      if !ok { return true; }
      HugeMapGrows(mem0, vm.mem, vm.kernel, hhdm, p);
      p := p + HUGE;
    }
    return false;
  }

  lemma NothingMapped(mem: Memory, root: nat, hhdm: nat)
    ensures HugeMap(mem, root, hhdm, 0)
  {
  }

  lemma HugeMapGrows(mem: Memory, mem': Memory, root: nat, hhdm: nat, p: nat)
    requires HugeMap(mem, root, hhdm, p) && hhdm % HUGE == 0 && p % HUGE == 0 && p < HHDM_TOP
    requires forall w :: Beside(true, hhdm + p, w) ==> Walk(mem', 4, root, w) == HugeLeafOf(p, KERNEL)
    requires forall w :: !Beside(true, hhdm + p, w) ==> Walk(mem', 4, root, w) == Walk(mem, 4, root, w)
    ensures HugeMap(mem', root, hhdm, p + HUGE)
  {
    hide Walk, Beside;
    HugeFrameExact(p);
    forall a | 0 <= a < p + HUGE ensures Walk(mem', 4, root, Virt(hhdm, a)) == Page(a / HUGE * HUGE, 2) {
      BesideIff(hhdm + p, hhdm + a);
      OffsetKept(hhdm, a, HUGE);
      OffsetKept(hhdm, p, HUGE);
      if a < p {
        DifferentPages((hhdm + a) / HUGE, (hhdm + p) / HUGE, 0x800_0000);
        assert Walk(mem, 4, root, Virt(hhdm, a)) == Page(a / HUGE * HUGE, 2);
      } else {
        assert a / HUGE == p / HUGE;
      }
    }
  }

  /** The loop of vmm_init over the kernel's image; it panics as well when the image lies in the direct map. */
  method MapImage(vm: Vmm, hhdm: nat, virt: nat, phys: nat, pages: nat) returns (panicked: bool)
    requires vm.Valid() && HugeMap(vm.mem, vm.kernel, hhdm, HHDM_TOP) && Coherent(vm.mem, vm.cr3, vm.tlb)
    requires virt % PAGE_SIZE == 0 && phys % PAGE_SIZE == 0 && phys + pages * PAGE_SIZE <= PHYS
             && pages <= 0x10_0000_0000
    modifies vm`mem, vm`lvl, vm`tlb, vm.pmm
    ensures vm.Valid() && Coherent(vm.mem, vm.cr3, vm.tlb)
    ensures panicked ==>
            Full(vm) || exists i :: 0 <= i < pages && Is2MB(Walk(vm.mem, 4, vm.kernel, Virt(virt, i * PAGE_SIZE)))
    ensures !panicked ==> HugeMap(vm.mem, vm.kernel, hhdm, HHDM_TOP)
    ensures !panicked ==> Image(vm.mem, vm.kernel, virt, phys, pages * PAGE_SIZE)
  {
    hide Walk, SamePage, P.UsedIn, WellFormed, HugeMap, Image, Accounts, SameWalks, Coherent, Joins, JoinsWith, Keeps;
    NoImage(vm.mem, vm.kernel, virt, phys);
    for i := 0 to pages
      invariant vm.Valid() && Coherent(vm.mem, vm.cr3, vm.tlb) && HugeMap(vm.mem, vm.kernel, hhdm, HHDM_TOP)
      invariant Image(vm.mem, vm.kernel, virt, phys, i * PAGE_SIZE)
    {
      ghost var mem0, lvl0 := vm.mem, vm.lvl;
      var v, to := virt + i * PAGE_SIZE, phys + i * PAGE_SIZE;
      var r := vm.MapPage(vm.kernel, v, to, KERNEL);
      if !r.Done? {
        assert Walk(vm.mem, 4, vm.kernel, Virt(virt, i * PAGE_SIZE)) == Walk(mem0, 4, vm.kernel, v) by {
          SameWalksAt(mem0, lvl0, vm.mem, vm.kernel, v);
        }
        return true;
      }
      HugeMapStays(mem0, vm.mem, vm.kernel, hhdm, v);
      ImageGrows(mem0, vm.mem, vm.kernel, virt, phys, i);
    }
    return false;
  }

  lemma SameWalksAt(mem: Memory, lvl: map<nat, nat>, mem': Memory, t: nat, v: nat)
    requires SameWalks(mem, lvl, mem') && t in lvl && lvl[t] == 4
    ensures Walk(mem', 4, t, v) == Walk(mem, 4, t, v)
  {
    hide Walk;
    assert Walk(mem', lvl[t], t, v) == Walk(mem, lvl[t], t, v);
  }

  /** No frame is free. */
  ghost predicate Full(vm: Vmm)
    reads vm, vm.pmm
    requires vm.pmm.total <= 8 * |vm.pmm.bitmap|
  {
    forall j :: 0 <= j < |vm.mem| ==> j in vm.pmm.Used()
  }

  lemma NoImage(mem: Memory, root: nat, virt: nat, phys: nat)
    ensures Image(mem, root, virt, phys, 0)
  {
  }

  /** A 4 KB page that could be mapped lies in no page of 2 MB. */
  lemma HugeMapStays(mem: Memory, mem': Memory, root: nat, hhdm: nat, v: nat)
    requires HugeMap(mem, root, hhdm, HHDM_TOP) && !Is2MB(Walk(mem, 4, root, v))
    requires forall w :: !SamePage(v, w) ==> Walk(mem', 4, root, w) == Walk(mem, 4, root, w)
    ensures HugeMap(mem', root, hhdm, HHDM_TOP)
  {
    hide Walk, SamePage;
    forall a | 0 <= a < HHDM_TOP ensures Walk(mem', 4, root, Virt(hhdm, a)) == Page(a / HUGE * HUGE, 2) {
      assert Walk(mem, 4, root, Virt(hhdm, a)) == Page(a / HUGE * HUGE, 2);
      if SamePage(v, Virt(hhdm, a)) { SameWalk(mem, 4, root, v, Virt(hhdm, a)); }
    }
  }

  lemma ImageGrows(mem: Memory, mem': Memory, root: nat, virt: nat, phys: nat, i: nat)
    requires Image(mem, root, virt, phys, i * PAGE_SIZE) && virt % PAGE_SIZE == 0 && phys % PAGE_SIZE == 0
    requires phys + (i + 1) * PAGE_SIZE <= PHYS && i < 0x10_0000_0000
    requires forall w :: SamePage(virt + i * PAGE_SIZE, w) ==>
             Walk(mem', 4, root, w) == LeafOf(phys + i * PAGE_SIZE, KERNEL)
    requires forall w :: !SamePage(virt + i * PAGE_SIZE, w) ==> Walk(mem', 4, root, w) == Walk(mem, 4, root, w)
    ensures Image(mem', root, virt, phys, (i + 1) * PAGE_SIZE)
  {
    hide Walk, SamePage;
    var top := i * PAGE_SIZE;
    FrameExact(phys + top);
    forall a | 0 <= a < top + PAGE_SIZE
      ensures Walk(mem', 4, root, Virt(virt, a)) == Page(phys + a / PAGE_SIZE * PAGE_SIZE, 1)
    {
      SamePageIff(virt + top, virt + a);
      OffsetKept(virt, a, PAGE_SIZE);
      OffsetKept(virt, top, PAGE_SIZE);
      if a < top {
        DifferentPages((virt + a) / PAGE_SIZE, (virt + top) / PAGE_SIZE, 0x10_0000_0000);
        assert Walk(mem, 4, root, Virt(virt, a)) == Page(phys + a / PAGE_SIZE * PAGE_SIZE, 1);
      } else {
        assert a / PAGE_SIZE == i;
      }
    }
  }

  /**
   * vmm_init from the new PML4 on. If it does not panic, the direct map and the
   * kernel's image are linear: each byte is where its offset says. It panics only
   * without a free frame, or when the image meets a 2 MB page.
   */
  method Init(vm: Vmm, hhdm: nat, virt: nat, phys: nat, pages: nat) returns (panicked: bool)
    requires vm.Valid() && vm.cr3 == vm.kernel && vm.tlb == {} && hhdm % HUGE == 0
    requires virt % PAGE_SIZE == 0 && phys % PAGE_SIZE == 0 && phys + pages * PAGE_SIZE <= PHYS
             && pages <= 0x10_0000_0000
    modifies vm`mem, vm`lvl, vm`tlb, vm`cr3, vm.pmm
    ensures vm.Valid() && Coherent(vm.mem, vm.cr3, vm.tlb)
    ensures !panicked ==> vm.cr3 == vm.kernel && Linear(vm.mem, vm.kernel, hhdm, 0, HHDM_TOP)
    ensures !panicked ==> Linear(vm.mem, vm.kernel, virt, phys, pages * PAGE_SIZE)
    ensures panicked ==>
            Full(vm) || exists i :: 0 <= i < pages && Is2MB(Walk(vm.mem, 4, vm.kernel, Virt(virt, i * PAGE_SIZE)))
  {
    hide HugeMap, Image, Linear, Walk, WellFormed, P.UsedIn;
    panicked := MapHhdm(vm, hhdm);
    if panicked { return; }
    panicked := MapImage(vm, hhdm, virt, phys, pages);
    if panicked { return; }
    HugeLinear(vm.mem, vm.kernel, hhdm, HHDM_TOP);
    ImageLinear(vm.mem, vm.kernel, virt, phys, pages * PAGE_SIZE);
    vm.LoadCr3(vm.kernel);
  }
}
