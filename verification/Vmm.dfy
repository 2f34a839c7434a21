/**
 * The virtual memory manager of kernel/mm/vmm.c over the frame allocator:
 * mapping, unmapping, creating and destroying address spaces, and a TLB that
 * may hold any walk of the loaded CR3.
 */
module Vmm {
  import opened PageTables
  import opened AddressSpaces
  import P = Pmm

  datatype Flags = Flags(present: bool, huge: bool, rest: nat)
  datatype Outcome = Done | NoMemory | Panic
  datatype Step = Found(table: nat) | Missing | Split

  /** The flag bits of an intermediate entry besides PRESENT: WRITABLE and USER. */
  const INTERMEDIATE := 6
  const WRITABLE := 2

  /** A cached translation: the page of the given level around v starts at base. */
  datatype TlbEntry = TlbEntry(v: nat, level: nat, base: nat)

  predicate Covers(e: TlbEntry, w: nat)
  {
    forall k :: e.level <= k <= 4 ==> Index(e.v, k) == Index(w, k)
  }

  /** Every cached entry is what a walk from cr3 finds. */
  ghost predicate Coherent(mem: Memory, cr3: nat, tlb: set<TlbEntry>)
  {
    forall e :: e in tlb ==> Walk(mem, 4, cr3, e.v) == Page(e.base, e.level)
  }

  /** What coherence is for: the hardware's answer from any cached entry is the answer of the tables. */
  lemma CachedAnswer(mem: Memory, cr3: nat, tlb: set<TlbEntry>, e: TlbEntry, w: nat)
    requires Coherent(mem, cr3, tlb) && e in tlb && Covers(e, w)
    ensures Translate(mem, cr3, w) == Mapped(e.base + w % Span(e.level))
  {
    hide Index;
    SameEnd(mem, 4, cr3, e.v, w);
  }

  lemma {:induction false} SameEnd(mem: Memory, level: nat, f: nat, v: nat, w: nat)
    requires 1 <= level <= 4 && Walk(mem, level, f, v).Page?
    requires forall k :: Walk(mem, level, f, v).level <= k <= 4 ==> Index(v, k) == Index(w, k)
    ensures Walk(mem, level, f, v).level <= level && Walk(mem, level, f, w) == Walk(mem, level, f, v)
  {
    hide Index;
    var e := At(mem, f, Index(v, level));
    if level > 1 && !(level == 2 && e.huge) { SameEnd(mem, level - 1, e.frame, v, w); }
    assert Index(v, level) == Index(w, level);
  }

  /** A walk that passes table p goes on from there. */
  lemma {:induction false} WalkFrom(mem: Memory, level: nat, f: nat, v: nat, l: nat, p: nat)
    requires 1 <= l <= level <= 4 && TableAt(mem, level, f, v, l) == Table(p)
    ensures Walk(mem, level, f, v) == Walk(mem, l, p, v)
    decreases level
  {
    hide Index;
    if level > l { WalkFrom(mem, level - 1, At(mem, f, Index(v, level)).frame, v, l, p); }
  }

  /** How many tables are missing on the path of v from table p of level l down to level b. */
  function Lacking(mem: Memory, l: nat, p: nat, v: nat, b: nat): (n: nat)
    requires 1 <= b <= l <= 4
    decreases l
  {
    if l == b then 0
    else
      var e := At(mem, p, Index(v, l));
      if e.present then Lacking(mem, l - 1, e.frame, v, b) else l - b
  }

  lemma NoneLacking(mem: Memory, l: nat, p: nat, v: nat)
    requires 1 <= l <= 4
    ensures Lacking(mem, l, p, v, l) == 0
  {
  }

  /** A new table is one less, and those below it are still missing. */
  lemma LackingLess(mem: Memory, p: nat, v: nat, l: nat, f: nat, flags: nat, mem': Memory)
    requires Shaped(mem) && p < |mem| && f < |mem| && f != p && 2 <= l <= 4 && !At(mem, p, Index(v, l)).present
    requires mem' == Created(mem, p, Index(v, l), f, flags)
    ensures forall b :: 1 <= b < l ==> Lacking(mem', l - 1, f, v, b) + 1 == Lacking(mem, l, p, v, b)
  {
    hide Index, Created;
    AtCreated(mem, p, Index(v, l), f, flags, f, Index(v, l - 1));
  }

  lemma FramesBound(bm: seq<bv8>, total: nat)
    requires total <= 8 * |bm|
    ensures |P.UsedIn(bm, total)| <= total
  {
    P.UsedCount(bm, total);
  }

  /** The frames in use grew by exactly the tables that were added. */
  ghost predicate Accounts(lvl: map<nat, nat>, used: set<nat>, lvl': map<nat, nat>, used': set<nat>)
  {
    used' == used + (lvl'.Keys - lvl.Keys) && used !! (lvl'.Keys - lvl.Keys)
  }

  lemma AccountsTransitive(l0: map<nat, nat>, u0: set<nat>, l1: map<nat, nat>, u1: set<nat>, l2: map<nat, nat>,
      u2: set<nat>)
    requires Accounts(l0, u0, l1, u1) && Accounts(l1, u1, l2, u2) && l0.Keys <= l1.Keys <= l2.Keys
    ensures Accounts(l0, u0, l2, u2)
  {
    assert l2.Keys - l0.Keys == (l2.Keys - l1.Keys) + (l1.Keys - l0.Keys);
  }

  class Vmm {
    var mem: Memory
    ghost var lvl: map<nat, nat>
    const pmm: P.Pmm
    const kernel: nat
    var cr3: nat
    var tlb: set<TlbEntry>

    /** The tables form trees of in-use frames; kernel and cr3 are PML4s; frame 0 is reserved. */
    ghost predicate Valid()
      reads this, pmm
    {
      && pmm.Valid() && pmm.total == |mem| && 0 in pmm.Used()
      && WellFormed(mem, lvl) && lvl.Keys <= pmm.Used()
      && IsRoot(kernel) && IsRoot(cr3)
    }

    ghost predicate IsRoot(r: nat)
      reads this
    {
      r in lvl && lvl[r] == 4
    }

    /** The end of vmm_init: CR3 has just been loaded with the kernel's PML4. */
    constructor (mem: Memory, ghost lvl: map<nat, nat>, pmm: P.Pmm, kernel: nat)
      requires pmm.Valid() && pmm.total == |mem| && 0 in pmm.Used()
      requires WellFormed(mem, lvl) && lvl.Keys <= pmm.Used() && kernel in lvl && lvl[kernel] == 4
      ensures Valid() && this.mem == mem && this.lvl == lvl && this.pmm == pmm && this.kernel == kernel
      ensures cr3 == kernel && Coherent(mem, cr3, tlb)
    {
      this.mem, this.lvl, this.pmm, this.kernel, cr3, tlb := mem, lvl, pmm, kernel, kernel, {};
    }

    /** get_or_create_table for the table below the level-l table p on the path of v. */
    method GetOrCreate(ghost root: nat, v: nat, l: nat, p: nat, flags: nat) returns (r: Step)
      requires Valid() && IsRoot(root) && 2 <= l <= 4 && TableAt(mem, 4, root, v, l) == Table(p)
      modifies this`mem, this`lvl, pmm
      ensures Valid() && WellFormed(old(mem), old(lvl))
      ensures Grew(old(mem), old(lvl), mem, lvl, root, Index(v, 4) < USER_SLOTS)
      ensures Accounts(old(lvl), old(pmm.Used()), lvl, pmm.Used())
      ensures r.Found? ==> TableAt(mem, 4, root, v, l - 1) == Table(r.table)
      ensures r.Found? && !At(old(mem), p, Index(v, l)).present ==>
              At(mem, p, Index(v, l)) == Entry(r.table, true, false, flags)
      ensures r.Missing? ==> Walk(mem, 4, root, v).NoPage? && forall j :: 0 <= j < |mem| ==> j in pmm.Used()
      ensures r.Missing? ==> pmm.used == pmm.total && forall b :: 1 <= b < l ==> Lacking(mem, l, p, v, b) > 0
      ensures r.Found? ==> forall b :: 1 <= b < l ==>
                pmm.used + Lacking(mem, l - 1, r.table, v, b) == old(pmm.used) + Lacking(old(mem), l, p, v, b)
      ensures !r.Found? ==> mem == old(mem) && pmm.used == old(pmm.used)
      ensures r.Split? ==> l == 2 && Is2MB(Walk(mem, 4, root, v))
    {
      hide Index, Grew, Created, Put, Zeroed, WellFormed, TableAt, P.UsedIn, P.Pmm.Valid;
      TableAtLevel(mem, lvl, root, v, l, p);
      Rows(mem, lvl, p);
      PathEnd(mem, lvl, root, v, l, p);
      var i := Index(v, l);
      GrewReflexive(mem, lvl, root, Index(v, 4) < USER_SLOTS);
      if !mem[p][i].present {
        var phys := pmm.AllocFrame();
        if phys == 0 { return Missing; }
        var f: nat := phys / PAGE_SIZE;
        CreatedWellFormed(mem, lvl, p, i, f, flags);
        CreatedGrew(mem, lvl, root, v, l, p, f, flags);
        AtCreated(mem, p, i, f, flags, p, i);
        CreatedRows(mem, p, i, f, flags);
        Rows(Created(mem, p, i, f, flags), lvl[f := l - 1], p);
        mem := Zeroed(mem, f);
        mem := Put(mem, p, i, Entry(f, true, false, flags));
        lvl := lvl[f := l - 1];
        LackingLess(old(mem), p, v, l, f, flags, mem);
      } else {
        TableAtStep(mem, 4, root, v, l, p);
      }
      if mem[p][i].huge { return Split; }
      return Found(mem[p][i].frame);
    }

    /** The directory of v, with the tables above it, created where they are missing. */
    method Directory(root: nat, v: nat, flags: nat) returns (r: Step)
      requires Valid() && IsRoot(root)
      modifies this`mem, this`lvl, pmm
      ensures Valid() && WellFormed(old(mem), old(lvl)) && !r.Split?
      ensures Grew(old(mem), old(lvl), mem, lvl, root, Index(v, 4) < USER_SLOTS)
      ensures Accounts(old(lvl), old(pmm.Used()), lvl, pmm.Used())
      ensures r.Found? ==> TableAt(mem, 4, root, v, 2) == Table(r.table)
      ensures r.Missing? ==> Walk(mem, 4, root, v).NoPage? && forall j :: 0 <= j < |mem| ==> j in pmm.Used()
      ensures r.Missing? ==> pmm.used == pmm.total && forall b :: 1 <= b <= 2 ==>
                old(pmm.used) + Lacking(old(mem), 4, root, v, b) > pmm.total
      ensures r.Found? ==> forall b :: 1 <= b <= 2 ==>
                pmm.used + Lacking(mem, 2, r.table, v, b) == old(pmm.used) + Lacking(old(mem), 4, root, v, b)
    {
      hide Index, Grew, WellFormed, TableAt, Walk, P.UsedIn, Accounts, Lacking;
      TableAtSelf(mem, root, v);
      var own := Index(v, 4) < USER_SLOTS;
      ghost var mem0, lvl0, used0 := mem, lvl, pmm.Used();
      r := GetOrCreate(root, v, 4, root, flags);
      if !r.Found? { return; }
      ghost var mem1, lvl1, used1 := mem, lvl, pmm.Used();
      GrewKeys(mem0, lvl0, mem1, lvl1, root, own);
      r := GetOrCreate(root, v, 3, r.table, flags);
      GrewKeys(mem1, lvl1, mem, lvl, root, own);
      GrewTransitive(mem0, lvl0, mem1, lvl1, mem, lvl, root, own);
      AccountsTransitive(lvl0, used0, lvl1, used1, lvl, pmm.Used());
    }

    /** The first part of vmm_map_page_pml4: the leaf table of v, created where it is missing. */
    method Descend(root: nat, v: nat) returns (r: Step)
      requires Valid() && IsRoot(root)
      modifies this`mem, this`lvl, pmm
      ensures Valid() && WellFormed(old(mem), old(lvl))
      ensures Grew(old(mem), old(lvl), mem, lvl, root, Index(v, 4) < USER_SLOTS)
      ensures Accounts(old(lvl), old(pmm.Used()), lvl, pmm.Used())
      ensures r.Found? ==> TableAt(mem, 4, root, v, 1) == Table(r.table)
      ensures r.Missing? ==> forall j :: 0 <= j < |mem| ==> j in pmm.Used()
      ensures r.Missing? ==> old(pmm.used) + Lacking(old(mem), 4, root, v, 1) > pmm.total
      ensures r.Found? ==> pmm.used == old(pmm.used) + Lacking(old(mem), 4, root, v, 1)
      ensures r.Split? <==> Is2MB(Walk(mem, 4, root, v))
    {
      hide Index, Grew, WellFormed, TableAt, Walk, P.UsedIn, Accounts, Lacking;
      var own := Index(v, 4) < USER_SLOTS;
      ghost var mem0, lvl0, used0 := mem, lvl, pmm.Used();
      r := Directory(root, v, INTERMEDIATE);
      if !r.Found? { return; }
      ghost var mem1, lvl1, used1 := mem, lvl, pmm.Used();
      GrewKeys(mem0, lvl0, mem1, lvl1, root, own);
      r := GetOrCreate(root, v, 2, r.table, INTERMEDIATE);
      GrewKeys(mem1, lvl1, mem, lvl, root, own);
      GrewTransitive(mem0, lvl0, mem1, lvl1, mem, lvl, root, own);
      AccountsTransitive(lvl0, used0, lvl1, used1, lvl, pmm.Used());
      if r.Found? {
        LeafEnd(mem, root, v, r.table);
        NoneLacking(mem, 1, r.table, v);
      }
    }

    /**
     * vmm_map_huge_2mb: in the kernel's space the 2 MB around v are mapped to the
     * 2 MB around phys, whatever was there before, and no other page changes.
     */
    method MapHuge2MB(v: nat, phys: nat, flags: Flags) returns (ok: bool)
      requires Valid()
      modifies this`mem, this`lvl, pmm
      ensures Valid() && WellFormed(old(mem), old(lvl)) && Extends(old(lvl), lvl)
      ensures Accounts(old(lvl), old(pmm.Used()), lvl, pmm.Used())
      ensures ok ==> forall w :: Beside(true, v, w) ==> Walk(mem, 4, kernel, w) == HugeLeafOf(phys, flags)
      ensures ok ==> forall t, w :: t in old(lvl) && old(lvl)[t] == 4 && !Beside(true, v, w) ==>
                Walk(mem, 4, t, w) == Walk(old(mem), 4, t, w)
      ensures !ok ==> SameWalks(old(mem), old(lvl), mem) && forall j :: 0 <= j < |mem| ==> j in pmm.Used()
      ensures ok <==> old(pmm.used) + Lacking(old(mem), 4, kernel, v, 2) <= pmm.total
    {
      hide Index, WellFormed, TableAt, Walk, P.UsedIn, Accounts, Joins, Keeps, Put, RootsKept, Beside, EndOf, Lacking;
      var step := Directory(kernel, v, WRITABLE);
      if !step.Found? { return false; }
      var pd := step.table;
      NoneLacking(mem, 2, pd, v);
      FramesBound(pmm.bitmap, pmm.total);
      TableAtLevel(mem, lvl, kernel, v, 2, pd);
      Rows(mem, lvl, pd);
      var e := Entry(HugeFrameOf(phys), flags.present, true, flags.rest);
      HugeWellFormed(mem, lvl, pd, Index(v, 2), e);
      HugePut(old(mem), old(lvl), mem, lvl, kernel, v, pd, e);
      HugeEnd(phys, flags);
      mem := Put(mem, pd, Index(v, 2), e);
      return true;
    }

    /** vmm_flush_tlb: forget every cached page that contains v. */
    method FlushTlb(v: nat)
      modifies this`tlb
      ensures forall e :: e in tlb <==> e in old(tlb) && !Covers(e, v)
    {
      tlb := set e | e in tlb && !Covers(e, v);
    }

    /**
     * vmm_map_page_pml4. Success maps page v of root to the frame of phys and
     * changes no other page of any address space, and for a user-half page
     * nothing at all in any other space. Failure changes no translation.
     */
    method MapPage(root: nat, v: nat, phys: nat, flags: Flags) returns (r: Outcome)
      requires Valid() && IsRoot(root)
      modifies this`mem, this`lvl, this`tlb, pmm
      ensures Valid() && WellFormed(old(mem), old(lvl)) && Extends(old(lvl), lvl)
      ensures r.Done? ==> forall w :: SamePage(v, w) ==>
                Walk(mem, 4, root, w) == LeafOf(phys, flags)
      ensures r.Done? ==> Stored(mem, root, v, Entry(FrameOf(phys), flags.present, flags.huge, flags.rest))
      ensures r.Done? ==>
              forall t, w :: t in old(lvl) && old(lvl)[t] == 4 &&
                             (!SamePage(v, w) || (t != root && Index(v, 4) < USER_SLOTS)) ==>
                Walk(mem, 4, t, w) == Walk(old(mem), 4, t, w)
      ensures r.Done? ==> Maps(old(mem), old(lvl), mem, root, v, LeafOf(phys, flags))
      ensures !r.Done? ==> SameWalks(old(mem), old(lvl), mem)
      ensures r.Panic? <==> Is2MB(Walk(old(mem), 4, root, v))
      ensures r.NoMemory? ==> forall j :: 0 <= j < |mem| ==> j in pmm.Used()
      ensures r.NoMemory? ==> old(pmm.used) + Lacking(old(mem), 4, root, v, 1) > pmm.total
      ensures r.Done? ==> pmm.used == old(pmm.used) + Lacking(old(mem), 4, root, v, 1) <= pmm.total
      ensures old(Coherent(mem, cr3, tlb)) && (root == kernel || root == cr3 || Index(v, 4) < USER_SLOTS) ==>
              Coherent(mem, cr3, tlb)
      ensures Accounts(old(lvl), old(pmm.Used()), lvl, pmm.Used()) && Keeps(old(mem), old(lvl), mem)
      ensures !r.Done? ==> Joins(old(mem), old(lvl), mem, lvl, root, Index(v, 4) < USER_SLOTS)
      ensures r.Done? && flags.present && Walk(old(mem), 4, root, v).NoPage? ==>
                JoinsWith(old(mem), old(lvl), mem, lvl, root, Index(v, 4) < USER_SLOTS, FrameOf(phys))
    {
      hide Index, WellFormed, TableAt, Walk, P.UsedIn, Accounts, Joins, JoinsWith, Keeps, InUser, InUserTabs, Put,
          SamePage, Covers, Stored, Maps, RootsKept, Lacking;
      var step := Descend(root, v);
      FramesBound(pmm.bitmap, pmm.total);
      assert Walk(mem, 4, root, v) == Walk(old(mem), 4, root, v);
      if step.Missing? { return NoMemory; }
      if step.Split? { return Panic; }
      var pt := step.table;
      TableAtLevel(mem, lvl, root, v, 1, pt);
      Rows(mem, lvl, pt);
      var e := Entry(FrameOf(phys), flags.present, flags.huge, flags.rest);
      MapLeaf(old(mem), old(lvl), mem, lvl, root, v, pt, e);
      LeafStored(mem, lvl, root, v, pt, e);
      LeafMaps(old(mem), old(lvl), mem, lvl, root, v, pt, e);
      ghost var flush := root == kernel || cr3 == root;
      if old(Coherent(mem, cr3, tlb)) && (root == kernel || root == cr3 || Index(v, 4) < USER_SLOTS) {
        MapCoherent(old(mem), old(lvl), Put(mem, pt, Index(v, 1), e), root, v, cr3, tlb, flush);
      }
      mem := Put(mem, pt, Index(v, 1), e);
      if root == kernel || cr3 == root { FlushTlb(v); }
      return Done;
    }

    /** vmm_translate_pml4: the unrolled walk, 0 where there is no mapping. */
    method TranslatePml4(root: nat, v: nat) returns (phys: nat)
      ensures phys == match Translate(mem, root, v) case Unmapped => 0 case Mapped(p) => p
    {
      hide Index;
      var e4 := At(mem, root, Index(v, 4));
      if !e4.present { return 0; }
      assert Walk(mem, 4, root, v) == Walk(mem, 3, e4.frame, v);
      var e3 := At(mem, e4.frame, Index(v, 3));
      if !e3.present { return 0; }
      assert Walk(mem, 3, e4.frame, v) == Walk(mem, 2, e3.frame, v);
      var e2 := At(mem, e3.frame, Index(v, 2));
      if !e2.present { return 0; }
      if e2.huge { return e2.frame / SLOTS * SLOTS * PAGE_SIZE + v % 0x20_0000; }
      var e1 := At(mem, e2.frame, Index(v, 1));
      if !e1.present { return 0; }
      return e1.frame * PAGE_SIZE + v % PAGE_SIZE;
    }

    /**
     * vmm_unmap_page: the 4 KB or 2 MB page around v disappears from the kernel's
     * space, and no other page anywhere.
     */
    method UnmapPage(v: nat) returns (ok: bool)
      requires Valid()
      modifies this`mem, this`tlb
      ensures Valid() && Walk(mem, 4, kernel, v).NoPage?
      ensures Walk(old(mem), 4, kernel, v).Page? ==> ok
      ensures ok <==> Lacking(old(mem), 4, kernel, v, 1) == 0
      ensures forall t, w :: t in lvl && lvl[t] == 4 && !Beside(Is2MB(Walk(old(mem), 4, kernel, v)), v, w) ==>
                Walk(mem, 4, t, w) == Walk(old(mem), 4, t, w)
      ensures old(Coherent(mem, cr3, tlb)) ==> Coherent(mem, cr3, tlb)
    {
      hide Index, WellFormed, Walk, P.UsedIn, Put, SamePage, Covers, Beside, TableAt;
      TableAtSelf(mem, kernel, v);
      var e4 := At(mem, kernel, Index(v, 4));
      PathEnd(mem, lvl, kernel, v, 4, kernel);
      if !e4.present { return false; }
      DownStep(mem, lvl, kernel, v, 4, kernel);
      var e3 := At(mem, e4.frame, Index(v, 3));
      PathEnd(mem, lvl, kernel, v, 3, e4.frame);
      if !e3.present { return false; }
      DownStep(mem, lvl, kernel, v, 3, e4.frame);
      var e2 := At(mem, e3.frame, Index(v, 2));
      PathEnd(mem, lvl, kernel, v, 2, e3.frame);
      if !e2.present { return false; }
      Rows(mem, lvl, e3.frame);
      if e2.huge {
        ClearHuge(mem, lvl, kernel, v, e3.frame, cr3, tlb);
        mem := Put(mem, e3.frame, Index(v, 2), EMPTY);
      } else {
        DownStep(mem, lvl, kernel, v, 2, e3.frame);
        Rows(mem, lvl, e2.frame);
        ClearLeaf(mem, lvl, kernel, v, e2.frame, cr3, tlb);
        mem := Put(mem, e2.frame, Index(v, 1), EMPTY);
      }
      FlushTlb(v);
      return true;
    }

    /** vmm_create_user_pml4: an address space with nothing in its user half and the kernel's upper half, or 0. */
    method CreateUserPml4() returns (root: nat)
      requires Valid()
      modifies this`mem, this`lvl, pmm
      ensures Valid()
      ensures root == 0 ==> mem == old(mem) && lvl == old(lvl) && pmm.Used() == old(pmm.Used())
      ensures root == 0 <==> forall j :: 0 <= j < |mem| ==> j in old(pmm.Used())
      ensures root != 0 ==>
                && root !in old(pmm.Used()) && pmm.Used() == old(pmm.Used()) + {root} && lvl == old(lvl)[root := 4]
                && WellFormed(old(mem), old(lvl)) && root < |mem| && kernel < |mem|
                && mem == Forked(old(mem), kernel, root)
      ensures old(Coherent(mem, cr3, tlb)) ==> Coherent(mem, cr3, tlb)
    {
      hide P.UsedIn, Forked, Index, Walk;
      var phys := pmm.AllocFrame();
      if phys == 0 { return 0; }
      root := phys / PAGE_SIZE;
      var i := 0;
      ghost var used := pmm.Used();
      while i < USER_SLOTS
        invariant lvl == old(lvl) && pmm.Valid() && pmm.Used() == used
        invariant 0 <= i <= USER_SLOTS && |mem| == |old(mem)| && |mem[root]| == SLOTS
                  && mem == old(mem)[root := mem[root]]
        invariant forall j :: 0 <= j < i ==> mem[root][j] == EMPTY
      {
        mem := mem[root := mem[root][i := EMPTY]];
        i := i + 1;
      }
      while i < SLOTS
        invariant lvl == old(lvl) && pmm.Valid() && pmm.Used() == used
        invariant USER_SLOTS <= i <= SLOTS && |mem| == |old(mem)| && |mem[root]| == SLOTS
                  && mem == old(mem)[root := mem[root]]
        invariant forall j :: 0 <= j < USER_SLOTS ==> mem[root][j] == EMPTY
        invariant forall j :: USER_SLOTS <= j < i ==> mem[root][j] == old(mem)[kernel][j]
      {
        mem := mem[root := mem[root][i := mem[kernel][i]]];
        i := i + 1;
      }
      ForkedRow(old(mem), kernel, root, mem);
      ForkedWellFormed(old(mem), old(lvl), kernel, root);
      lvl := lvl[root := 4];
      forall v ensures Walk(mem, 4, cr3, v) == Walk(old(mem), 4, cr3, v) {
        ForkedTranslate(old(mem), old(lvl), kernel, root, cr3, v);
      }
    }

    /** The loops of vmm_destroy_user_pml4 over one table: every frame below table t is freed, then t. */
    method FreeTree(level: nat, t: nat)
      requires pmm.Valid() && 1 <= level <= 3
      modifies pmm
      ensures pmm.Valid()
      ensures forall x :: x in pmm.Used() <==> x in old(pmm.Used()) && !InFoot(mem, level, t, x)
      decreases level
    {
      hide P.UsedIn, InFoot;
      FootDef(mem, level, t);
      var i := 0;
      while i < SLOTS
        invariant 0 <= i <= SLOTS && pmm.Valid()
        invariant forall x :: x in pmm.Used() <==>
                    x in old(pmm.Used()) && !exists j :: 0 <= j < i && InEntry(mem, level, At(mem, t, j), x)
      {
        var e := At(mem, t, i);
        if e.present {
          if level == 1 {
            pmm.FreeFrame(e.frame * PAGE_SIZE);
          } else if !e.huge {
            FreeTree(level - 1, e.frame);
          }
        }
        i := i + 1;
      }
      pmm.FreeFrame(t * PAGE_SIZE);
    }

    /** vmm_destroy_user_pml4: exactly the frames of root's user half return to the allocator. */
    method DestroyUserPml4(root: nat)
      requires Valid() && IsRoot(root)
      modifies this`lvl, pmm
      ensures pmm.Valid()
      ensures root == kernel || root == 0 ==> lvl == old(lvl) && pmm.Used() == old(pmm.Used())
      ensures root != kernel && root != 0 ==>
                && lvl == Without(mem, old(lvl), root)
                && forall x :: x in pmm.Used() <==> x in old(pmm.Used()) && !InUser(mem, root, x)
      ensures root != kernel && root != cr3 && Private(mem, old(lvl), root) && !InUser(mem, root, 0) ==> Valid()
    {
      hide P.UsedIn, InFoot, WellFormed, InUserTabs, Private, Walk, Index;
      if root == kernel || root == 0 { return; }
      var i := 0;
      while i < USER_SLOTS
        invariant 0 <= i <= USER_SLOTS && pmm.Valid() && lvl == old(lvl)
        invariant forall x :: x in pmm.Used() <==>
                    x in old(pmm.Used()) && !exists j :: 0 <= j < i && InEntry(mem, 4, At(mem, root, j), x)
      {
        var e := At(mem, root, i);
        if e.present { FreeTree(3, e.frame); }
        i := i + 1;
      }
      pmm.FreeFrame(root * PAGE_SIZE);
      lvl := Without(mem, lvl, root);
      if root != cr3 && Private(mem, old(lvl), root) && !InUser(mem, root, 0) {
        WithoutWellFormed(mem, old(lvl), root);
        RootOutside(mem, old(lvl), root, kernel);
        RootOutside(mem, old(lvl), root, cr3);
      }
    }

    /** The scheduler's CR3 reload: skipped when the value does not change, otherwise it empties the TLB. */
    method LoadCr3(root: nat)
      requires Valid() && IsRoot(root)
      modifies this`cr3, this`tlb
      ensures Valid() && cr3 == root
      ensures old(Coherent(mem, cr3, tlb)) ==> Coherent(mem, cr3, tlb)
    {
      if root != cr3 { cr3, tlb := root, {}; }
    }

    /** The hardware may cache the walk of any address. */
    method FillTlb(v: nat)
      modifies this`tlb
      ensures old(Coherent(mem, cr3, tlb)) ==> Coherent(mem, cr3, tlb)
    {
      hide Walk;
      match Walk(mem, 4, cr3, v)
      case NoPage =>
      case Page(base, level) => tlb := tlb + {TlbEntry(v, level, base)};
    }
  }

  lemma FootDef(mem: Memory, level: nat, t: nat)
    requires 1 <= level <= 4
    ensures forall x :: InFoot(mem, level, t, x) <==>
            x == t || exists i :: 0 <= i < SLOTS && InEntry(mem, level, At(mem, t, i), x)
  {
  }

  lemma ForkedRow(mem: Memory, kernel: nat, f: nat, mem': Memory)
    requires Shaped(mem) && kernel < |mem| && f < |mem| && |mem'| == |mem| && |mem'[f]| == SLOTS
             && mem' == mem[f := mem'[f]]
    requires forall j :: 0 <= j < USER_SLOTS ==> mem'[f][j] == EMPTY
    requires forall j :: USER_SLOTS <= j < SLOTS ==> mem'[f][j] == mem[kernel][j]
    ensures mem' == Forked(mem, kernel, f)
  {
    assert mem'[f] == Forked(mem, kernel, f)[f];
  }

  /** Another PML4 is no frame of a private address space. */
  lemma RootOutside(mem: Memory, lvl: map<nat, nat>, root: nat, r: nat)
    requires WellFormed(mem, lvl) && root in lvl && lvl[root] == 4 && Private(mem, lvl, root) && r in lvl && lvl[r] == 4
             && r != root
    ensures !InUser(mem, root, r)
  {
    hide InUser;
    if InUserTabs(mem, root, r) {
      var j :| 0 <= j < USER_SLOTS && BelowSlot(mem, 4, At(mem, root, j), r);
      assert Links(mem, lvl, root, j) && Leads(mem, lvl, root, j);
      TabsLevel(mem, lvl, At(mem, root, j).frame, r);
    }
  }

  /** w shares with v the page of 4 KB, or of 2 MB. */
  ghost predicate Beside(huge: bool, v: nat, w: nat)
  {
    if huge then forall k :: 2 <= k <= 4 ==> Index(v, k) == Index(w, k) else SamePage(v, w)
  }

  lemma DownStep(mem: Memory, lvl: map<nat, nat>, root: nat, v: nat, l: nat, p: nat)
    requires WellFormed(mem, lvl) && root in lvl && lvl[root] == 4 && 2 <= l <= 4
             && TableAt(mem, 4, root, v, l) == Table(p)
    requires At(mem, p, Index(v, l)).present && !(l == 2 && At(mem, p, Index(v, l)).huge)
    ensures var c := At(mem, p, Index(v, l)).frame;
            TableAt(mem, 4, root, v, l - 1) == Table(c) && c in lvl && lvl[c] == l - 1
  {
    hide Index, TableAt;
    TableAtStep(mem, 4, root, v, l, p);
    TableAtLevel(mem, lvl, root, v, l - 1, At(mem, p, Index(v, l)).frame);
  }

  lemma ClearLeaf(mem: Memory, lvl: map<nat, nat>, root: nat, v: nat, pt: nat, cr3: nat, tlb: set<TlbEntry>)
    requires WellFormed(mem, lvl) && root in lvl && lvl[root] == 4 && pt in lvl && lvl[pt] == 1
    requires TableAt(mem, 4, root, v, 1) == Table(pt) && cr3 in lvl && lvl[cr3] == 4
    ensures var mem' := Put(mem, pt, Index(v, 1), EMPTY);
            && WellFormed(mem', lvl) && Walk(mem', 4, root, v).NoPage? && !Is2MB(Walk(mem, 4, root, v))
            && (forall t, w :: t in lvl && lvl[t] == 4 && !Beside(false, v, w) ==>
                Walk(mem', 4, t, w) == Walk(mem, 4, t, w))
            && (Coherent(mem, cr3, tlb) ==> forall tlb' :: tlb' <= tlb && (forall e :: e in tlb' ==> !Covers(e, v)) ==>
                Coherent(mem', cr3, tlb'))
  {
    hide Index, TableAt, Walk, Put, WellFormed;
    Rows(mem, lvl, pt);
    var mem' := Put(mem, pt, Index(v, 1), EMPTY);
    LeafWellFormed(mem, lvl, pt, Index(v, 1), EMPTY);
    LeafEnd(mem, root, v, pt);
    LeafTranslate(mem, lvl, root, v, pt, EMPTY, root, v);
    forall t, w | t in lvl && lvl[t] == 4 && !Beside(false, v, w) ensures Walk(mem', 4, t, w) == Walk(mem, 4, t, w) {
      LeafTranslate(mem, lvl, root, v, pt, EMPTY, t, w);
    }
    forall e: TlbEntry | e.level >= 1 && SamePage(v, e.v) ensures Covers(e, v) { UncoveredPage(e, v); }
  }

  lemma ClearHuge(mem: Memory, lvl: map<nat, nat>, root: nat, v: nat, pd: nat, cr3: nat, tlb: set<TlbEntry>)
    requires WellFormed(mem, lvl) && root in lvl && lvl[root] == 4 && pd in lvl && lvl[pd] == 2
    requires TableAt(mem, 4, root, v, 2) == Table(pd) && cr3 in lvl && lvl[cr3] == 4
    requires At(mem, pd, Index(v, 2)).present && At(mem, pd, Index(v, 2)).huge
    ensures var mem' := Put(mem, pd, Index(v, 2), EMPTY);
            && WellFormed(mem', lvl) && Walk(mem', 4, root, v).NoPage? && Is2MB(Walk(mem, 4, root, v))
            && (forall t, w :: t in lvl && lvl[t] == 4 && !Beside(true, v, w) ==>
                Walk(mem', 4, t, w) == Walk(mem, 4, t, w))
            && (Coherent(mem, cr3, tlb) ==> forall tlb' :: tlb' <= tlb && (forall e :: e in tlb' ==> !Covers(e, v)) ==>
                Coherent(mem', cr3, tlb'))
  {
    hide Index, TableAt, Walk, Put, WellFormed;
    Rows(mem, lvl, pd);
    var i := Index(v, 2);
    var mem' := Put(mem, pd, i, EMPTY);
    HugeWellFormed(mem, lvl, pd, i, EMPTY);
    HugeWalk(mem, lvl, pd, i, EMPTY, root, v);
    PathEnd(mem, lvl, root, v, 2, pd);
    forall t, w | t in lvl && lvl[t] == 4 && Walk(mem', 4, t, w) != Walk(mem, 4, t, w)
      ensures Beside(true, v, w) && Is2MB(Walk(mem, 4, t, w))
    {
      HugeWalk(mem, lvl, pd, i, EMPTY, t, w);
      TableUnique(mem, lvl, root, v, t, w, 2, pd);
      PathEnd(mem, lvl, t, w, 2, pd);
    }
  }

  /** phys & ADDR_MASK_2M as a frame number: bits 21 to 51. */
  function HugeFrameOf(phys: nat): nat
  {
    phys / 0x20_0000 % 0x8000_0000 * SLOTS
  }

  /** Where a walk ends that reads the entry vmm_map_huge_2mb writes. */
  function HugeLeafOf(phys: nat, flags: Flags): Leaf
  {
    if flags.present then Page(HugeFrameOf(phys) * PAGE_SIZE, 2) else NoPage
  }

  lemma HugeEnd(phys: nat, flags: Flags)
    ensures EndOf(Entry(HugeFrameOf(phys), flags.present, true, flags.rest)) == HugeLeafOf(phys, flags)
  {
  }

  lemma HugePut(mem0: Memory, lvl0: map<nat, nat>, mem: Memory, lvl: map<nat, nat>, root: nat, v: nat, pd: nat,
      e: Entry)
    requires WellFormed(mem, lvl) && root in lvl && lvl[root] == 4 && pd in lvl && lvl[pd] == 2
             && (e.present ==> e.huge)
    requires Extends(lvl0, lvl) && SameWalks(mem0, lvl0, mem) && TableAt(mem, 4, root, v, 2) == Table(pd)
    requires pd < |mem| && |mem[pd]| == SLOTS
    ensures var mem' := Put(mem, pd, Index(v, 2), e);
            && (forall w :: Beside(true, v, w) ==> Walk(mem', 4, root, w) == EndOf(e))
            && (forall t, w :: t in lvl0 && lvl0[t] == 4 && !Beside(true, v, w) ==>
                Walk(mem', 4, t, w) == Walk(mem0, 4, t, w))
  {
    hide Index, TableAt, Walk, Put, WellFormed, EndOf;
    var i := Index(v, 2);
    var mem' := Put(mem, pd, i, e);
    forall w | Beside(true, v, w) ensures Walk(mem', 4, root, w) == EndOf(e) {
      HugeWalk(mem, lvl, pd, i, e, root, w);
      SameDirectory(mem, 4, root, v, w);
    }
    forall t, w | t in lvl0 && lvl0[t] == 4 && !Beside(true, v, w) ensures Walk(mem', 4, t, w) == Walk(mem0, 4, t, w) {
      HugeWalk(mem, lvl, pd, i, e, t, w);
      if TableAt(mem, 4, t, w, 2) == Table(pd) { TableUnique(mem, lvl, root, v, t, w, 2, pd); }
      assert Walk(mem, lvl0[t], t, w) == Walk(mem0, lvl0[t], t, w);
    }
  }

  lemma {:induction false} SameDirectory(mem: Memory, level: nat, f: nat, v: nat, w: nat)
    requires 2 <= level <= 4 && Beside(true, v, w)
    ensures TableAt(mem, level, f, v, 2) == TableAt(mem, level, f, w, 2)
  {
    hide Index;
    if level > 2 { SameDirectory(mem, level - 1, At(mem, f, Index(v, level)).frame, v, w); }
  }

  /** Where a walk ends that reads the entry vmm_map_page_pml4 writes. */
  function LeafOf(phys: nat, flags: Flags): Leaf
  {
    if flags.present then Page(FrameOf(phys) * PAGE_SIZE, 1) else NoPage
  }

  /** Slot i of the two PML4s refers to one and the same table. */
  ghost predicate Shares(mem: Memory, t: nat, root: nat, i: nat)
  {
    At(mem, t, i).present && At(mem, root, i).present && At(mem, t, i).frame == At(mem, root, i).frame
  }

  /** The page of v now ends at leaf in root and in every PML4 that shared its slot; every other walk is as before. */
  ghost predicate Maps(mem0: Memory, lvl0: map<nat, nat>, mem': Memory, root: nat, v: nat, leaf: Leaf)
  {
    forall t, w :: t in lvl0 && lvl0[t] == 4 ==>
      Walk(mem', 4, t, w) ==
      if SamePage(v, w) && (t == root || Shares(mem0, t, root, Index(v, 4))) then leaf else Walk(mem0, 4, t, w)
  }

  lemma LeafMaps(mem0: Memory, lvl0: map<nat, nat>, mem: Memory, lvl: map<nat, nat>, root: nat, v: nat, pt: nat,
      e: Entry)
    requires WellFormed(mem0, lvl0) && WellFormed(mem, lvl) && root in lvl0 && lvl0[root] == 4 && pt in lvl
             && lvl[pt] == 1
    requires Grew(mem0, lvl0, mem, lvl, root, Index(v, 4) < USER_SLOTS) && TableAt(mem, 4, root, v, 1) == Table(pt)
    requires pt < |mem| && |mem[pt]| == SLOTS
    ensures Maps(mem0, lvl0, Put(mem, pt, Index(v, 1), e), root, v,
                 if e.present then Page(e.frame * PAGE_SIZE, 1) else NoPage)
  {
    hide Index, WellFormed, TableAt, Walk, Put, Joins, SamePage, Shares;
    var mem' := Put(mem, pt, Index(v, 1), e);
    forall t, w | t in lvl0 && lvl0[t] == 4
      ensures Walk(mem', 4, t, w) ==
              if SamePage(v, w) && (t == root || Shares(mem0, t, root, Index(v, 4)))
              then if e.present then Page(e.frame * PAGE_SIZE, 1) else NoPage
              else Walk(mem0, 4, t, w)
    {
      LeafWalk(mem, lvl, pt, Index(v, 1), e, t, w);
      assert Walk(mem, lvl0[t], t, w) == Walk(mem0, lvl0[t], t, w);
      LeafReached(mem0, lvl0, mem, lvl, root, v, pt, t, w);
    }
  }

  /** Which walks end in the leaf slot of v: those for its page, from root or a PML4 that shared the slot. */
  lemma LeafReached(mem0: Memory, lvl0: map<nat, nat>, mem: Memory, lvl: map<nat, nat>, root: nat, v: nat, pt: nat,
      t: nat, w: nat)
    requires WellFormed(mem0, lvl0) && WellFormed(mem, lvl) && root in lvl0 && lvl0[root] == 4 && t in lvl0
             && lvl0[t] == 4
    requires Extends(lvl0, lvl) && Keeps(mem0, lvl0, mem) && RootsKept(mem0, lvl0, mem, root)
             && TableAt(mem, 4, root, v, 1) == Table(pt)
    ensures LeafTable(mem, 4, t, w) == Table(pt) && Index(w, 1) == Index(v, 1) <==>
            SamePage(v, w) && (t == root || Shares(mem0, t, root, Index(v, 4)))
  {
    hide Index, WellFormed, TableAt, SamePage;
    var i := Index(v, 4);
    if SamePage(v, w) {
      SameLeafTable(mem, 4, t, v, w);
      FirstIndex(v, w);
    }
    if LeafTable(mem, 4, t, w) == Table(pt) && Index(w, 1) == Index(v, 1) {
      TableUnique(mem, lvl, root, v, t, w, 1, pt);
      FourIndices(v, w);
      SameLeafTable(mem, 4, t, v, w);
      if t != root {
        SlotShared(mem, lvl, root, t, v, pt);
        if !At(mem0, root, i).present { OldSlot(mem0, lvl0, t, i); }
      }
    }
    if SamePage(v, w) && Shares(mem0, t, root, i) { SharedPath(mem, t, root, v); }
  }

  lemma FourIndices(v: nat, w: nat)
    requires (forall k :: 1 < k <= 4 ==> Index(v, k) == Index(w, k)) && Index(w, 1) == Index(v, 1)
    ensures SamePage(v, w)
  {
  }

  lemma FirstIndex(v: nat, w: nat)
    requires SamePage(v, w)
    ensures Index(v, 1) == Index(w, 1)
  {
  }

  lemma OldSlot(mem: Memory, lvl: map<nat, nat>, t: nat, i: nat)
    requires WellFormed(mem, lvl) && t in lvl && lvl[t] == 4 && i < SLOTS && At(mem, t, i).present
    ensures At(mem, t, i).frame in lvl
  {
    assert Links(mem, lvl, t, i) && Leads(mem, lvl, t, i);
  }

  /** Walks of one page that meet in a leaf table go through the same slot. */
  lemma SlotShared(mem: Memory, lvl: map<nat, nat>, root: nat, t: nat, v: nat, pt: nat)
    requires WellFormed(mem, lvl) && root in lvl && t in lvl && lvl[root] == lvl[t] == 4
    requires LeafTable(mem, 4, root, v) == Table(pt) && LeafTable(mem, 4, t, v) == Table(pt)
    ensures Shares(mem, t, root, Index(v, 4))
  {
    hide Index;
    var i := Index(v, 4);
    assert Links(mem, lvl, root, i) && Links(mem, lvl, t, i);
    assert Leads(mem, lvl, root, i) && Leads(mem, lvl, t, i);
    TableUnique(mem, lvl, At(mem, root, i).frame, v, At(mem, t, i).frame, v, 1, pt);
  }

  lemma SharedPath(mem: Memory, t: nat, root: nat, v: nat)
    requires Shares(mem, t, root, Index(v, 4))
    ensures LeafTable(mem, 4, t, v) == LeafTable(mem, 4, root, v) && Walk(mem, 4, t, v) == Walk(mem, 4, root, v)
  {
    hide Index;
  }

  /** The leaf table of v under root holds entry e for it. */
  ghost predicate Stored(mem: Memory, root: nat, v: nat, e: Entry)
  {
    var t := TableAt(mem, 4, root, v, 1);
    t.Table? && At(mem, t.f, Index(v, 1)) == e
  }

  lemma LeafStored(mem: Memory, lvl: map<nat, nat>, root: nat, v: nat, pt: nat, e: Entry)
    requires WellFormed(mem, lvl) && root in lvl && lvl[root] == 4 && pt in lvl && lvl[pt] == 1
    requires TableAt(mem, 4, root, v, 1) == Table(pt) && pt < |mem| && |mem[pt]| == SLOTS
    ensures Stored(Put(mem, pt, Index(v, 1), e), root, v, e)
  {
    hide Index, Put, WellFormed, TableAt;
    PathKept(mem, lvl, pt, Index(v, 1), e, root, v);
    AtPut(mem, pt, Index(v, 1), e, pt, Index(v, 1));
  }

  lemma {:induction false} PathKept(mem: Memory, lvl: map<nat, nat>, pt: nat, i: nat, e: Entry, t: nat, v: nat)
    requires WellFormed(mem, lvl) && pt in lvl && lvl[pt] == 1 && i < SLOTS && t in lvl
    ensures TableAt(Put(mem, pt, i, e), lvl[t], t, v, 1) == TableAt(mem, lvl[t], t, v, 1)
    decreases lvl[t]
  {
    hide Index, Put;
    if lvl[t] > 1 {
      var j := Index(v, lvl[t]);
      AtPut(mem, pt, i, e, t, j);
      if Links(mem, lvl, t, j) {
        assert Leads(mem, lvl, t, j);
        PathKept(mem, lvl, pt, i, e, At(mem, t, j).frame, v);
      }
    }
  }

  /** phys & ADDR_MASK_4K as a frame number: bits 12 to 51. */
  function FrameOf(phys: nat): nat
  {
    phys / PAGE_SIZE % 0x100_0000_0000
  }

  /** Joins, with the mapped frame joining as well. */
  ghost predicate JoinsWith(mem: Memory, lvl: map<nat, nat>, mem': Memory, lvl': map<nat, nat>, root: nat, own: bool,
      frame: nat)
  {
    && (forall t, x :: t in lvl && lvl[t] == 4 ==>
          (InUser(mem', t, x) <==> InUser(mem, t, x) || (t == root && own && ((x in lvl' && x !in lvl) || x == frame))))
    && (own ==> forall x :: x in lvl' && x !in lvl ==> InUserTabs(mem', root, x))
  }

  /** From mem0 through the created tables (mem) to the written leaf. */
  lemma MapLeaf(mem0: Memory, lvl0: map<nat, nat>, mem: Memory, lvl: map<nat, nat>, root: nat, v: nat, pt: nat,
      e: Entry)
    requires WellFormed(mem0, lvl0) && WellFormed(mem, lvl) && root in lvl0 && lvl0[root] == 4 && pt in lvl
             && lvl[pt] == 1
    requires Grew(mem0, lvl0, mem, lvl, root, Index(v, 4) < USER_SLOTS) && TableAt(mem, 4, root, v, 1) == Table(pt)
    ensures var mem' := Put(mem, pt, Index(v, 1), e);
            && WellFormed(mem', lvl) && Keeps(mem0, lvl0, mem')
            && (forall w :: SamePage(v, w) ==>
                Walk(mem', 4, root, w) == if e.present then Page(e.frame * PAGE_SIZE, 1) else NoPage)
            && Elsewhere(mem0, lvl0, mem', root, v)
            && (e.present && Walk(mem0, 4, root, v).NoPage? ==>
                JoinsWith(mem0, lvl0, mem', lvl, root, Index(v, 4) < USER_SLOTS, e.frame))
  {
    hide Index, WellFormed, TableAt, Walk, InUser, InUserTabs, Put, SamePage, Joins, JoinsWith, Keeps;
    Rows(mem, lvl, pt);
    var i := Index(v, 1);
    var mem' := Put(mem, pt, i, e);
    LeafWellFormed(mem, lvl, pt, i, e);
    LeafKeeps(mem0, lvl0, mem, lvl, pt, i, e);
    forall w | SamePage(v, w)
      ensures Walk(mem', 4, root, w) == if e.present then Page(e.frame * PAGE_SIZE, 1) else NoPage
    {
      LeafTranslate(mem, lvl, root, v, pt, e, root, w);
    }
    forall t, w | t in lvl0 && lvl0[t] == 4 && (!SamePage(v, w) || (t != root && Index(v, 4) < USER_SLOTS))
      ensures Walk(mem', 4, t, w) == Walk(mem0, 4, t, w)
    {
      LeafTranslate(mem, lvl, root, v, pt, e, t, w);
      assert Walk(mem, lvl0[t], t, w) == Walk(mem0, lvl0[t], t, w);
    }
    if e.present && Walk(mem0, 4, root, v).NoPage? {
      LeafEnd(mem, root, v, pt);
      assert Walk(mem, lvl0[root], root, v) == Walk(mem0, lvl0[root], root, v);
      LeafJoins(mem0, lvl0, mem, lvl, root, v, pt, e);
    }
  }

  /** No other page changed anywhere, and no page of another space if v is a user address. */
  ghost predicate Elsewhere(mem0: Memory, lvl0: map<nat, nat>, mem': Memory, root: nat, v: nat)
  {
    forall t, w :: t in lvl0 && lvl0[t] == 4 && (!SamePage(v, w) || (t != root && Index(v, 4) < USER_SLOTS)) ==>
      Walk(mem', 4, t, w) == Walk(mem0, 4, t, w)
  }

  lemma LeafKeeps(mem0: Memory, lvl0: map<nat, nat>, mem: Memory, lvl: map<nat, nat>, pt: nat, i: nat, e: Entry)
    requires WellFormed(mem, lvl) && pt in lvl && lvl[pt] == 1 && i < SLOTS && Extends(lvl0, lvl)
             && Keeps(mem0, lvl0, mem)
    ensures Keeps(mem0, lvl0, Put(mem, pt, i, e))
  {
    forall g, j | g in lvl0 && lvl0[g] >= 2 && At(mem0, g, j).present
      ensures At(Put(mem, pt, i, e), g, j) == At(mem0, g, j)
    {
      AtPut(mem, pt, i, e, g, j);
    }
  }

  lemma LeafJoins(mem0: Memory, lvl0: map<nat, nat>, mem: Memory, lvl: map<nat, nat>, root: nat, v: nat, pt: nat,
      e: Entry)
    requires WellFormed(mem0, lvl0) && WellFormed(mem, lvl) && root in lvl0 && lvl0[root] == 4 && pt in lvl
             && lvl[pt] == 1
    requires Grew(mem0, lvl0, mem, lvl, root, Index(v, 4) < USER_SLOTS) && TableAt(mem, 4, root, v, 1) == Table(pt)
    requires !At(mem, pt, Index(v, 1)).present && e.present
    ensures JoinsWith(mem0, lvl0, Put(mem, pt, Index(v, 1), e), lvl, root, Index(v, 4) < USER_SLOTS, e.frame)
  {
    hide Index, WellFormed, TableAt, Walk, InUser, InUserTabs, Put;
    Rows(mem, lvl, pt);
    var own := Index(v, 4) < USER_SLOTS;
    var mem' := Put(mem, pt, Index(v, 1), e);
    forall t, x | t in lvl0 && lvl0[t] == 4
      ensures InUser(mem', t, x) <==>
              InUser(mem0, t, x) || (t == root && own && ((x in lvl && x !in lvl0) || x == e.frame))
    {
      LeafUser(mem, lvl, t, pt, Index(v, 1), e, x);
      PathOwner(mem, lvl, root, v, 1, pt, t);
    }
    LeafKeeps(mem, lvl, mem, lvl, pt, Index(v, 1), e);
    forall x | own && x in lvl && x !in lvl0 ensures InUserTabs(mem', root, x) {
      KeepsUserTabs(mem, lvl, mem', root, x);
    }
  }

  /** With the flush rule, what stays cached is still what a walk finds. */
  lemma MapCoherent(mem0: Memory, lvl0: map<nat, nat>, mem': Memory, root: nat, v: nat, cr3: nat, tlb: set<TlbEntry>,
      flush: bool)
    requires Coherent(mem0, cr3, tlb) && cr3 in lvl0 && lvl0[cr3] == 4 && Elsewhere(mem0, lvl0, mem', root, v)
    requires flush || (root != cr3 && Index(v, 4) < USER_SLOTS)
    ensures forall tlb' :: tlb' <= tlb && (flush ==> forall e :: e in tlb' ==> !Covers(e, v)) ==>
            Coherent(mem', cr3, tlb')
  {
    hide Index, Walk;
    forall tlb' | tlb' <= tlb && (flush ==> forall e :: e in tlb' ==> !Covers(e, v)) ensures Coherent(mem', cr3, tlb') {
      forall e | e in tlb' ensures Walk(mem', 4, cr3, e.v) == Page(e.base, e.level) {
        if SamePage(v, e.v) { UncoveredPage(e, v); }
      }
    }
  }

  /**
   * The case the flush rule leaves out, a PML4 that is neither the kernel's nor
   * loaded: every coherent TLB stays coherent exactly when the loaded PML4 does not
   * share the slot, or the page was unmapped, or already mapped to the same frame.
   */
  lemma UnflushedIff(mem: Memory, lvl: map<nat, nat>, mem': Memory, root: nat, v: nat, leaf: Leaf, cr3: nat)
    requires root in lvl && cr3 in lvl && lvl[root] == lvl[cr3] == 4 && root != cr3
             && Maps(mem, lvl, mem', root, v, leaf)
    ensures (forall tlb: set<TlbEntry> :: Coherent(mem, cr3, tlb) ==> Coherent(mem', cr3, tlb)) <==>
            !Shares(mem, cr3, root, Index(v, 4)) || Walk(mem, 4, root, v).NoPage? || Walk(mem, 4, root, v) == leaf
  {
    hide Index, Walk, SamePage, Shares;
    SamePageAsItself(v);
    var old_ := Walk(mem, 4, root, v);
    if Shares(mem, cr3, root, Index(v, 4)) {
      SharedPath(mem, cr3, root, v);
      if old_.Page? && old_ != leaf {
        var tlb := {TlbEntry(v, old_.level, old_.base)};
        assert Coherent(mem, cr3, tlb) && !Coherent(mem', cr3, tlb);
      }
    }
    if !Shares(mem, cr3, root, Index(v, 4)) || old_.NoPage? || old_ == leaf {
      forall tlb: set<TlbEntry> | Coherent(mem, cr3, tlb) ensures Coherent(mem', cr3, tlb) {
        forall e | e in tlb ensures Walk(mem', 4, cr3, e.v) == Page(e.base, e.level) {
          if SamePage(v, e.v) { SameWalk(mem, 4, cr3, v, e.v); }
        }
      }
    }
  }

  lemma SamePageAsItself(v: nat)
    ensures SamePage(v, v)
  {
  }

  lemma {:induction false} SameWalk(mem: Memory, level: nat, f: nat, v: nat, w: nat)
    requires 1 <= level <= 4 && SamePage(v, w)
    ensures Walk(mem, level, f, v) == Walk(mem, level, f, w)
  {
    hide Index;
    if level > 1 { SameWalk(mem, level - 1, At(mem, f, Index(v, level)).frame, v, w); }
  }

  /** In the user half no two address spaces share a slot. */
  lemma UserSlotsApart(mem: Memory, lvl: map<nat, nat>, t: nat, root: nat, i: nat)
    requires WellFormed(mem, lvl) && t in lvl && root in lvl && lvl[t] == lvl[root] == 4 && i < USER_SLOTS
             && Shares(mem, t, root, i)
    ensures t == root
  {
    assert Links(mem, lvl, t, i) && Links(mem, lvl, root, i);
    assert Apart(mem, lvl, t, i, root, i);
  }

  lemma UncoveredPage(e: TlbEntry, v: nat)
    requires SamePage(v, e.v) && e.level >= 1
    ensures Covers(e, v)
  {
  }

  predicate Is2MB(w: Leaf)
  {
    w.Page? && w.level == 2
  }

  lemma TableAtSelf(mem: Memory, root: nat, v: nat)
    ensures TableAt(mem, 4, root, v, 4) == Table(root)
  {
  }

  lemma GrewKeys(mem: Memory, lvl: map<nat, nat>, mem': Memory, lvl': map<nat, nat>, root: nat, own: bool)
    requires Grew(mem, lvl, mem', lvl', root, own)
    ensures lvl.Keys <= lvl'.Keys && forall t :: t in lvl ==> lvl'[t] == lvl[t]
  {
  }

  /** A walk that reaches its leaf table does not end at a 2 MB page. */
  lemma LeafEnd(mem: Memory, root: nat, v: nat, pt: nat)
    requires TableAt(mem, 4, root, v, 1) == Table(pt)
    ensures !Is2MB(Walk(mem, 4, root, v))
    ensures Walk(mem, 4, root, v).NoPage? <==> !At(mem, pt, Index(v, 1)).present
  {
    hide Index, TableAt;
    WalkFrom(mem, 4, root, v, 1, pt);
  }

  /** How the entry found at level l decides the walk. */
  lemma PathEnd(mem: Memory, lvl: map<nat, nat>, root: nat, v: nat, l: nat, p: nat)
    requires WellFormed(mem, lvl) && 2 <= l <= 4 && TableAt(mem, 4, root, v, l) == Table(p) && p in lvl && lvl[p] == l
    ensures At(mem, p, Index(v, l)).present && At(mem, p, Index(v, l)).huge ==> l == 2 && Is2MB(Walk(mem, 4, root, v))
    ensures !At(mem, p, Index(v, l)).present ==> Walk(mem, 4, root, v).NoPage?
  {
    hide Index, TableAt;
    WalkFrom(mem, 4, root, v, l, p);
    if Links(mem, lvl, p, Index(v, l)) { assert Leads(mem, lvl, p, Index(v, l)); }
  }

  lemma Rows(mem: Memory, lvl: map<nat, nat>, p: nat)
    requires WellFormed(mem, lvl) && p in lvl
    ensures Shaped(mem) && p < |mem| && |mem[p]| == SLOTS
    ensures forall i: nat :: i < SLOTS ==> At(mem, p, i) == mem[p][i]
  {
  }

  lemma CreatedRows(mem: Memory, parent: nat, i: nat, f: nat, flags: nat)
    requires Shaped(mem) && parent < |mem| && f < |mem| && i < SLOTS
    ensures Shaped(Zeroed(mem, f))
            && Put(Zeroed(mem, f), parent, i, Entry(f, true, false, flags)) == Created(mem, parent, i, f, flags)
  {
  }
}
