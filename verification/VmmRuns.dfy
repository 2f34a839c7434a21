/**
 * Whole runs of the memory manager: the TLB stays coherent through any mix of
 * mappings, unmappings, CR3 switches and hardware fills, and the frame bitmap
 * is always the frames held elsewhere plus the disjoint frames of the live
 * address spaces, so that destroying what was created restores it exactly.
 */
module VmmRuns {
  import opened PageTables
  import opened AddressSpaces
  import opened Vmm
  import P = Pmm

  // ---------------------------------------------------------------- coherence

  datatype Event =
    | Map(root: nat, v: nat, phys: nat, flags: Flags) | Unmap(v: nat) | Create
    | Switch(root: nat) | Fill(v: nat)

  /** A mapping is made through the kernel's PML4, or in the user half of another one. */
  predicate Disciplined(e: Event, kernel: nat)
  {
    e.Map? ==> e.root == kernel || Index(e.v, 4) < USER_SLOTS
  }

  /** After any run of disciplined events, every cached entry is what a walk of the loaded CR3 finds. */
  method RunEvents(vm: Vmm, roots: set<nat>, events: seq<Event>) returns (roots': set<nat>)
    requires vm.Valid() && Coherent(vm.mem, vm.cr3, vm.tlb)
    requires forall r :: r in roots ==> vm.IsRoot(r)
    requires forall e :: e in events ==> Disciplined(e, vm.kernel)
    modifies vm, vm.pmm
    ensures vm.Valid() && Coherent(vm.mem, vm.cr3, vm.tlb)
    ensures roots <= roots' && forall r :: r in roots' ==> vm.IsRoot(r)
  {
    hide Index, Coherent, WellFormed, SameWalks, Joins, JoinsWith, Accounts, Keeps, Walk, P.UsedIn, P.Pmm.Valid, Forked;
    roots' := roots;
    for k := 0 to |events|
      invariant vm.Valid() && Coherent(vm.mem, vm.cr3, vm.tlb)
      invariant roots <= roots' && forall r :: r in roots' ==> vm.IsRoot(r)
    {
      var e := events[k];
      assert Disciplined(e, vm.kernel);
      if e.Map? {
        if e.root in roots' { var r := vm.MapPage(e.root, e.v, e.phys, e.flags); }
      } else if e.Unmap? {
        var ok := vm.UnmapPage(e.v);
      } else if e.Create? {
        var r := vm.CreateUserPml4();
        if r != 0 { roots' := roots' + {r}; }
      } else if e.Switch? {
        if e.root in roots' { vm.LoadCr3(e.root); }
      } else {
        vm.FillTlb(e.v);
      }
    }
  }

  // ------------------------------------------------------------- conservation

  /**
   * The frames in use are base plus the frames of the live address spaces;
   * these are disjoint from base and from each other, and no page is a table.
   */
  ghost predicate Ledger(mem: Memory, lvl: map<nat, nat>, used: set<nat>, base: set<nat>, live: set<nat>)
  {
    && (forall r :: r in live ==> r in lvl && lvl[r] == 4 && Private(mem, lvl, r))
    && (forall x :: x in used <==> x in base || exists r :: r in live && InUser(mem, r, x))
    && (forall r, x :: r in live && InUser(mem, r, x) ==> x !in base)
    && (forall r, s, x :: r in live && s in live && InUser(mem, r, x) && InUser(mem, s, x) ==> r == s)
  }

  lemma LedgerEmpty(mem: Memory, lvl: map<nat, nat>, used: set<nat>)
    ensures Ledger(mem, lvl, used, used, {})
  {
  }

  lemma LedgerHold(mem: Memory, lvl: map<nat, nat>, used: set<nat>, base: set<nat>, live: set<nat>, f: nat)
    requires Ledger(mem, lvl, used, base, live) && f !in used
    ensures Ledger(mem, lvl, used + {f}, base + {f}, live)
  {
    hide InUser, Private;
  }

  lemma LedgerRelease(mem: Memory, lvl: map<nat, nat>, used: set<nat>, base: set<nat>, live: set<nat>, f: nat)
    requires Ledger(mem, lvl, used, base, live) && f in base
    ensures Ledger(mem, lvl, used - {f}, base - {f}, live)
  {
    hide InUser, Private;
  }

  /** A private address space stays private when tables join root. */
  lemma PrivateKept(mem: Memory, lvl: map<nat, nat>, used: set<nat>, mem': Memory, lvl': map<nat, nat>, root: nat,
      frame: nat, r: nat)
    requires WellFormed(mem, lvl) && r in lvl && lvl[r] == 4 && root in lvl && lvl[root] == 4 && Private(mem, lvl, r)
             && Keeps(mem, lvl, mem')
    requires lvl.Keys <= used && used !! (lvl'.Keys - lvl.Keys) && forall x :: InUser(mem, r, x) ==> x in used
    requires forall x :: InUser(mem', r, x) ==>
             InUser(mem, r, x) || (r == root && ((x in lvl' && x !in lvl) || x == frame))
    requires forall x :: x in lvl' && x !in lvl ==> InUserTabs(mem', root, x)
    requires frame in used && frame !in lvl
    ensures Private(mem', lvl', r)
  {
    hide InUser, InUserTabs, WellFormed;
    forall x | InUser(mem', r, x) && x in lvl' ensures x == r || InUserTabs(mem', r, x) {
      if InUser(mem, r, x) {
        assert x in used;
        if x != r { KeepsUserTabs(mem, lvl, mem', r, x); }
      }
    }
  }

  /** Mapping a held frame moves it from base to root. */
  lemma LedgerMap(mem: Memory, lvl: map<nat, nat>, used: set<nat>, mem': Memory, lvl': map<nat, nat>, used': set<nat>,
      base: set<nat>, live: set<nat>, root: nat, frame: nat)
    requires WellFormed(mem, lvl) && Ledger(mem, lvl, used, base, live) && root in live && frame in base
             && frame !in lvl
    requires lvl.Keys <= used && Extends(lvl, lvl') && Accounts(lvl, used, lvl', used') && Keeps(mem, lvl, mem')
    requires JoinsWith(mem, lvl, mem', lvl', root, true, frame)
    ensures Ledger(mem', lvl', used', base - {frame}, live)
  {
    hide InUser, InUserTabs, WellFormed, Private;
    forall r | r in live ensures Private(mem', lvl', r) {
      PrivateKept(mem, lvl, used, mem', lvl', root, frame, r);
    }
    assert InUser(mem', root, frame);
    forall x ensures x in used' <==> x in base - {frame} || exists r :: r in live && InUser(mem', r, x) {
      if x in lvl' && x !in lvl { assert InUser(mem', root, x); }
      if r :| r in live && InUser(mem, r, x) { assert InUser(mem', r, x); }
    }
  }

  /** A failed mapping leaves its frame in base; the tables it made belong to root. */
  lemma LedgerFail(mem: Memory, lvl: map<nat, nat>, used: set<nat>, mem': Memory, lvl': map<nat, nat>, used': set<nat>,
      base: set<nat>, live: set<nat>, root: nat, frame: nat)
    requires WellFormed(mem, lvl) && Ledger(mem, lvl, used, base, live) && root in live && frame in base
             && frame !in lvl
    requires lvl.Keys <= used && Extends(lvl, lvl') && Accounts(lvl, used, lvl', used') && Keeps(mem, lvl, mem')
    requires Joins(mem, lvl, mem', lvl', root, true)
    ensures Ledger(mem', lvl', used', base, live)
  {
    hide InUser, InUserTabs, WellFormed, Private;
    forall r | r in live ensures Private(mem', lvl', r) {
      PrivateKept(mem, lvl, used, mem', lvl', root, frame, r);
    }
    forall x ensures x in used' <==> x in base || exists r :: r in live && InUser(mem', r, x) {
      if x in lvl' && x !in lvl { assert InUser(mem', root, x); }
      if r :| r in live && InUser(mem, r, x) { assert InUser(mem', r, x); }
    }
  }

  /** A new address space owns its PML4 alone. */
  lemma LedgerFork(mem: Memory, lvl: map<nat, nat>, used: set<nat>, base: set<nat>, live: set<nat>, kernel: nat, f: nat)
    requires WellFormed(mem, lvl) && Ledger(mem, lvl, used, base, live) && lvl.Keys <= used
    requires kernel in lvl && lvl[kernel] == 4 && f < |mem| && f !in used
    ensures Ledger(Forked(mem, kernel, f), lvl[f := 4], used + {f}, base, live + {f})
  {
    hide InUser, InUserTabs, WellFormed, Forked;
    Rows(mem, lvl, kernel);
    var mem', lvl' := Forked(mem, kernel, f), lvl[f := 4];
    forall x ensures InUser(mem', f, x) <==> x == f { ForkedUser(mem, kernel, f, x); }
    forall r, x | r in live ensures InUser(mem', r, x) <==> InUser(mem, r, x) { ForkedSame(mem, lvl, kernel, f, r, x); }
    forall r | r in live ensures Private(mem', lvl', r) {
      forall x | InUser(mem', r, x) && x in lvl' ensures x == r || InUserTabs(mem', r, x) {
        if x != r {
          ForkedKeeps(mem, lvl, kernel, f);
          KeepsUserTabs(mem, lvl, mem', r, x);
        }
      }
    }
    forall x ensures x in used + {f} <==> x in base || exists r :: r in live + {f} && InUser(mem', r, x) {
      if x == f { assert InUser(mem', f, x); }
      if r :| r in live && InUser(mem, r, x) { assert r in live + {f} && InUser(mem', r, x); }
    }
  }

  lemma ForkedKeeps(mem: Memory, lvl: map<nat, nat>, kernel: nat, f: nat)
    requires Shaped(mem) && kernel < |mem| && f < |mem| && f !in lvl
    ensures Keeps(mem, lvl, Forked(mem, kernel, f))
  {
  }

  lemma ForkedSame(mem: Memory, lvl: map<nat, nat>, kernel: nat, f: nat, r: nat, x: nat)
    requires WellFormed(mem, lvl) && kernel < |mem| && f < |mem| && f !in lvl && r in lvl && lvl[r] == 4
    ensures InUser(Forked(mem, kernel, f), r, x) <==> InUser(mem, r, x)
  {
    hide InFoot;
    var mem' := Forked(mem, kernel, f);
    forall j | 0 <= j < USER_SLOTS ensures InEntry(mem', 4, At(mem', r, j), x) <==> InEntry(mem, 4, At(mem, r, j), x) {
      if Links(mem, lvl, r, j) {
        assert Leads(mem, lvl, r, j);
        SameFoot(mem, lvl, mem', At(mem, r, j).frame, x);
      }
    }
  }

  /** Destroying one address space leaves base and the others alone. */
  lemma LedgerDestroy(mem: Memory, lvl: map<nat, nat>, used: set<nat>, used': set<nat>, base: set<nat>, live: set<nat>,
      root: nat)
    requires Ledger(mem, lvl, used, base, live) && root in live
    requires forall x :: x in used' <==> x in used && !InUser(mem, root, x)
    ensures Ledger(mem, Without(mem, lvl, root), used', base, live - {root})
  {
    hide InUserTabs;
    hide InUser;
    var lvl' := Without(mem, lvl, root);
    forall r | r in live - {root} ensures r in lvl' && Private(mem, lvl', r) {
      assert InUser(mem, r, r) by { OwnRoot(mem, r); }
    }
    forall x ensures x in used' <==> x in base || exists r :: r in live - {root} && InUser(mem, r, x) {
      if r :| r in live && InUser(mem, r, x) {
        if r != root { assert r in live - {root} && InUser(mem, r, x); }
      }
    }
  }

  lemma OwnRoot(mem: Memory, r: nat)
    ensures InUser(mem, r, r)
  {
  }

  datatype Request =
    | NewSpace | MapFresh(root: nat, v: nat, flags: Flags) | Destroy(root: nat)
    | Load(root: nat) | Cache(v: nat)

  /** Allocate a frame and map it at an unmapped user page of root; a frame that cannot be mapped is given back. */
  method MapFreshPage(vm: Vmm, root: nat, v: nat, flags: Flags, ghost base: set<nat>, ghost live: set<nat>)
    requires vm.Valid() && Ledger(vm.mem, vm.lvl, vm.pmm.Used(), base, live) && root in live
    requires flags.present && Index(v, 4) < USER_SLOTS && Walk(vm.mem, 4, root, v).NoPage?
    requires vm.pmm.total <= 0x100_0000_0000 && Coherent(vm.mem, vm.cr3, vm.tlb)
    modifies vm`mem, vm`lvl, vm`tlb, vm.pmm
    ensures vm.Valid() && Extends(old(vm.lvl), vm.lvl) && Coherent(vm.mem, vm.cr3, vm.tlb)
    ensures Ledger(vm.mem, vm.lvl, vm.pmm.Used(), base, live)
  {
    hide Index, WellFormed, SameWalks, Joins, JoinsWith, Accounts, Keeps, Walk, P.UsedIn, Ledger, Coherent, SamePage;
    LedgerRoot(vm.mem, vm.lvl, vm.pmm.Used(), base, live, root);
    var phys := vm.pmm.AllocFrame();
    if phys == 0 { return; }
    ghost var f := phys / PAGE_SIZE;
    assert FrameOf(phys) == f;
    LedgerHold(vm.mem, vm.lvl, old(vm.pmm.Used()), base, live, f);
    ghost var mem1, lvl1, used1 := vm.mem, vm.lvl, vm.pmm.Used();
    assert old(vm.pmm.Used()) + {f} == used1;
    var r := vm.MapPage(root, v, phys, flags);
    if r.Done? {
      LedgerMap(mem1, lvl1, used1, vm.mem, vm.lvl, vm.pmm.Used(), base + {f}, live, root, f);
      LedgerBase(mem1, lvl1, old(vm.pmm.Used()), base, live, f);
      assert base + {f} - {f} == base;
    } else {
      LedgerFail(mem1, lvl1, used1, vm.mem, vm.lvl, vm.pmm.Used(), base + {f}, live, root, f);
      LedgerRelease(vm.mem, vm.lvl, vm.pmm.Used(), base + {f}, live, f);
      LedgerBase(mem1, lvl1, old(vm.pmm.Used()), base, live, f);
      assert base + {f} - {f} == base;
      StillBacked(old(vm.lvl), old(vm.pmm.Used()), vm.lvl, f, old(vm.pmm.Used()) + {f}, vm.pmm.Used());
      vm.pmm.FreeFrame(phys);
    }
  }

  lemma LedgerRoot(mem: Memory, lvl: map<nat, nat>, used: set<nat>, base: set<nat>, live: set<nat>, root: nat)
    requires Ledger(mem, lvl, used, base, live) && root in live
    ensures root in lvl && lvl[root] == 4 && Private(mem, lvl, root)
    ensures 0 in base ==> !InUser(mem, root, 0)
  {
    hide InUser;
  }

  lemma LedgerBase(mem: Memory, lvl: map<nat, nat>, used: set<nat>, base: set<nat>, live: set<nat>, f: nat)
    requires Ledger(mem, lvl, used, base, live) && f !in used
    ensures f !in base
  {
    hide InUser, Private;
  }

  /** The returned frame is not one of the tables. */
  lemma StillBacked(lvl: map<nat, nat>, used: set<nat>, lvl': map<nat, nat>, f: nat, used1: set<nat>, used': set<nat>)
    requires lvl.Keys <= used && f !in used && used1 == used + {f} && Accounts(lvl, used1, lvl', used')
    ensures f !in lvl' && lvl'.Keys <= used' - {f}
  {
  }

  /**
   * Any interleaving of creating address spaces, mapping fresh frames in them,
   * loading them or the kernel's, hardware fills, and destroying those that are
   * not loaded, so that freed tables become pages and tables of others: the
   * bitmap is exactly what it was, plus the frames of the spaces still alive, and
   * no cached entry is ever stale. With none alive it is the original bitmap.
   */
  method RunRequests(vm: Vmm, requests: seq<Request>) returns (live: set<nat>)
    requires vm.Valid() && vm.pmm.total <= 0x100_0000_0000 && Coherent(vm.mem, vm.cr3, vm.tlb)
    requires forall q :: q in requests && q.MapFresh? ==> q.flags.present && Index(q.v, 4) < USER_SLOTS
    modifies vm, vm.pmm
    ensures vm.Valid() && Ledger(vm.mem, vm.lvl, vm.pmm.Used(), old(vm.pmm.Used()), live)
    ensures Coherent(vm.mem, vm.cr3, vm.tlb)
    ensures live == {} ==> vm.pmm.Used() == old(vm.pmm.Used())
  {
    hide Index, WellFormed, SameWalks, Joins, JoinsWith, Accounts, Keeps, Walk, P.UsedIn, Ledger, Coherent, Forked,
        InUser, Private;
    ghost var base := vm.pmm.Used();
    LedgerEmpty(vm.mem, vm.lvl, base);
    live := {};
    for k := 0 to |requests|
      invariant vm.Valid() && Ledger(vm.mem, vm.lvl, vm.pmm.Used(), base, live) && 0 in base && vm.kernel in base
      invariant Coherent(vm.mem, vm.cr3, vm.tlb)
    {
      var q := requests[k];
      if q.NewSpace? {
        LedgerUsed(vm.mem, vm.lvl, vm.pmm.Used(), base, live);
        ghost var mem0, lvl0, used0 := vm.mem, vm.lvl, vm.pmm.Used();
        var root := vm.CreateUserPml4();
        if root != 0 {
          LedgerFork(mem0, lvl0, used0, base, live, vm.kernel, root);
          live := live + {root};
        }
      } else if q.MapFresh? {
        if q.root in live && Walk(vm.mem, 4, q.root, q.v).NoPage? {
          MapFreshPage(vm, q.root, q.v, q.flags, base, live);
        }
      } else if q.Load? {
        if q.root in live {
          LedgerRoot(vm.mem, vm.lvl, vm.pmm.Used(), base, live, q.root);
          vm.LoadCr3(q.root);
        } else if q.root == vm.kernel {
          vm.LoadCr3(q.root);
        }
      } else if q.Cache? {
        vm.FillTlb(q.v);
      } else if q.root in live && q.root != vm.cr3 {
        LedgerRoot(vm.mem, vm.lvl, vm.pmm.Used(), base, live, q.root);
        LedgerApart(vm.mem, vm.lvl, vm.pmm.Used(), base, live, q.root);
        LedgerMeansDestroy(vm.mem, vm.lvl, vm.pmm.Used(), base, live, q.root);
        vm.DestroyUserPml4(q.root);
        live := live - {q.root};
      }
    }
    if live == {} { LedgerClosed(vm.mem, vm.lvl, vm.pmm.Used(), base); }
  }

  lemma LedgerUsed(mem: Memory, lvl: map<nat, nat>, used: set<nat>, base: set<nat>, live: set<nat>)
    requires Ledger(mem, lvl, used, base, live)
    ensures base <= used
  {
    hide InUser, Private;
  }

  lemma LedgerClosed(mem: Memory, lvl: map<nat, nat>, used: set<nat>, base: set<nat>)
    requires Ledger(mem, lvl, used, base, {})
    ensures used == base
  {
    hide InUser, Private;
  }

  lemma LedgerApart(mem: Memory, lvl: map<nat, nat>, used: set<nat>, base: set<nat>, live: set<nat>, root: nat)
    requires Ledger(mem, lvl, used, base, live) && root in live
    ensures root !in base
  {
    OwnRoot(mem, root);
  }

  lemma LedgerMeansDestroy(mem: Memory, lvl: map<nat, nat>, used: set<nat>, base: set<nat>, live: set<nat>, root: nat)
    requires Ledger(mem, lvl, used, base, live) && root in live
    ensures forall used' :: (forall x :: x in used' <==> x in used && !InUser(mem, root, x)) ==>
              Ledger(mem, Without(mem, lvl, root), used', base, live - {root})
  {
    hide Ledger, InUser;
    forall used' | forall x :: x in used' <==> x in used && !InUser(mem, root, x)
      ensures Ledger(mem, Without(mem, lvl, root), used', base, live - {root})
    {
      LedgerDestroy(mem, lvl, used, used', base, live, root);
    }
  }
}
