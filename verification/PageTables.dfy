/**
 * Four-level page tables in physical memory: the walk of vmm_translate_pml4,
 * what creating a table and writing a leaf do to every translation of every
 * address space, and which frames an address space consists of.
 */
module PageTables {
  const PAGE_SIZE := 4096
  const SLOTS := 512
  const USER_SLOTS := 256

  /** A page-table entry: frame number, PRESENT, HUGE, and the remaining flag bits. */
  datatype Entry = Entry(frame: nat, present: bool, huge: bool, flags: nat)

  const EMPTY := Entry(0, false, false, 0)

  /** Physical memory seen as tables: frame number to 512 entries. */
  type Memory = seq<seq<Entry>>

  ghost predicate Shaped(mem: Memory)
  {
    forall f :: 0 <= f < |mem| ==> |mem[f]| == SLOTS
  }

  function At(mem: Memory, f: nat, i: nat): Entry
  {
    if f < |mem| && i < |mem[f]| then mem[f][i] else EMPTY
  }

  /** What one slot of a level covers: 4 KB, 2 MB, 1 GB, 512 GB. */
  function Span(level: nat): (r: nat)
    ensures r >= 1
  {
    if level == 1 then 0x1000 else if level == 2 then 0x20_0000 else if level == 3 then 0x4000_0000 else 0x80_0000_0000
  }

  /** PT_INDEX, PD_INDEX, PDPT_INDEX and PML4_INDEX for levels 1 to 4. */
  function Index(v: nat, level: nat): (i: nat)
    ensures i < SLOTS
  {
    v / Span(level) % SLOTS
  }

  ghost predicate SamePage(v: nat, w: nat)
  {
    forall k :: 1 <= k <= 4 ==> Index(v, k) == Index(w, k)
  }

  /** Two addresses have the same four indices exactly when they agree in bits 12 to 47. */
  lemma SamePageIff(v: nat, w: nat)
    ensures SamePage(v, w) <==> v / PAGE_SIZE % 0x10_0000_0000 == w / PAGE_SIZE % 0x10_0000_0000
  {
    hide Index;
    Indices(v);
    Indices(w);
    Digits(Index(v, 1), Index(v, 2), Index(v, 3), Index(v, 4), Index(w, 1), Index(w, 2), Index(w, 3), Index(w, 4));
    if v / PAGE_SIZE % 0x10_0000_0000 == w / PAGE_SIZE % 0x10_0000_0000 {
      forall k | 1 <= k <= 4 ensures Index(v, k) == Index(w, k) {
        if k == 1 {} else if k == 2 {} else if k == 3 {} else {}
      }
    }
  }

  /** The user half is the lower half of the 48 address bits. */
  lemma UserHalfIff(v: nat)
    ensures Index(v, 4) < USER_SLOTS <==> v % 0x1_0000_0000_0000 < 0x8000_0000_0000
  {
    var q, r := v / 0x80_0000_0000, v % 0x80_0000_0000;
    assert v % 0x1_0000_0000_0000 == q % 512 * 0x80_0000_0000 + r by {
      assert v == (q / 512 * 512 + q % 512) * 0x80_0000_0000 + r;
    }
  }

  lemma Digits(a: nat, b: nat, c: nat, d: nat, a': nat, b': nat, c': nat, d': nat)
    requires a < 512 && b < 512 && c < 512 && d < 512 && a' < 512 && b' < 512 && c' < 512 && d' < 512
    ensures a + 512 * b + 0x4_0000 * c + 0x800_0000 * d == a' + 512 * b' + 0x4_0000 * c' + 0x800_0000 * d'
            <==> a == a' && b == b' && c == c' && d == d'
  {
  }

  /** The page number is spelled by the four indices. */
  lemma Indices(v: nat)
    ensures v / PAGE_SIZE % 0x10_0000_0000 ==
            Index(v, 1) + 512 * Index(v, 2) + 0x4_0000 * Index(v, 3) + 0x800_0000 * Index(v, 4)
  {
    var p := v / PAGE_SIZE;
    assert Index(v, 1) == p % 512 && Index(v, 2) == p / 512 % 512 by { assert v / 0x20_0000 == p / 512; }
    assert Index(v, 3) == p / 0x4_0000 % 512 by { assert v / 0x4000_0000 == p / 0x4_0000; }
    assert Index(v, 4) == p / 0x800_0000 % 512 by { assert v / 0x80_0000_0000 == p / 0x800_0000; }
    hide Index;
    PageDigits(p);
  }

  lemma PageDigits(p: nat)
    ensures p % 0x10_0000_0000 == p % 512 + 512 * (p / 512 % 512) + 0x4_0000 * (p / 0x4_0000 % 512)
            + 0x800_0000 * (p / 0x800_0000 % 512)
  {
    var q := p / 512;
    var r := q / 512;
    assert p / 0x4_0000 == r && p / 0x800_0000 == r / 512;
  }

  /** Where a walk ends: nowhere, or at a page of 4 KB (level 1) or 2 MB (level 2). */
  datatype Leaf = NoPage | Page(base: nat, level: nat)

  /** The walk from table f of the given level; a 2 MB page ends it at level 2. */
  function Walk(mem: Memory, level: nat, f: nat, v: nat): (r: Leaf)
    requires 1 <= level <= 4
    ensures r.Page? ==> 1 <= r.level <= 2
  {
    var e := At(mem, f, Index(v, level));
    if !e.present then NoPage
    else if level == 1 then Page(e.frame * PAGE_SIZE, 1)
    else if level == 2 && e.huge then Page(e.frame / SLOTS * SLOTS * PAGE_SIZE, 2)
    else Walk(mem, level - 1, e.frame, v)
  }

  datatype Translation = Unmapped | Mapped(phys: nat)

  function Translate(mem: Memory, root: nat, v: nat): Translation
  {
    match Walk(mem, 4, root, v)
    case NoPage => Unmapped
    case Page(base, level) => Mapped(base + v % Span(level))
  }

  // ------------------------------------------------------------ well-formedness

  /** Slot i of table f refers to a lower table. */
  ghost predicate Links(mem: Memory, lvl: map<nat, nat>, f: nat, i: nat)
  {
    f in lvl && i < SLOTS && lvl[f] >= 2 && At(mem, f, i).present && !(lvl[f] == 2 && At(mem, f, i).huge)
  }

  /** Every reference leads one level down, and only PML4s share tables, in their kernel halves. */
  ghost predicate WellFormed(mem: Memory, lvl: map<nat, nat>)
  {
    && Shaped(mem)
    && (forall f :: f in lvl ==> f < |mem| && 1 <= lvl[f] <= 4)
    && (forall f, i :: Links(mem, lvl, f, i) ==> Leads(mem, lvl, f, i))
    && (forall f, i, g, j :: Links(mem, lvl, f, i) && Links(mem, lvl, g, j) ==> Apart(mem, lvl, f, i, g, j))
  }

  ghost predicate Leads(mem: Memory, lvl: map<nat, nat>, f: nat, i: nat)
    requires f in lvl
  {
    var e := At(mem, f, i);
    !e.huge && e.frame in lvl && lvl[e.frame] + 1 == lvl[f]
  }

  ghost predicate Apart(mem: Memory, lvl: map<nat, nat>, f: nat, i: nat, g: nat, j: nat)
    requires f in lvl && g in lvl
  {
    At(mem, f, i).frame == At(mem, g, j).frame ==> i == j && (f == g || (lvl[f] == 4 && lvl[g] == 4 && i >= USER_SLOTS))
  }

  // -------------------------------------------------------------- a new table

  function Put(mem: Memory, f: nat, i: nat, e: Entry): (r: Memory)
    requires f < |mem| && i < |mem[f]|
    ensures |r| == |mem|
  {
    mem[f := mem[f][i := e]]
  }

  lemma AtPut(mem: Memory, f: nat, i: nat, e: Entry, g: nat, j: nat)
    requires f < |mem| && i < |mem[f]|
    ensures At(Put(mem, f, i, e), g, j) == if g == f && j == i then e else At(mem, g, j)
  {
  }

  function Zeroed(mem: Memory, f: nat): (r: Memory)
    requires f < |mem|
    ensures |r| == |mem|
  {
    mem[f := seq(SLOTS, i => EMPTY)]
  }

  /** Memory after get_or_create_table has made frame f the table behind slot i of parent. */
  function Created(mem: Memory, parent: nat, i: nat, f: nat, flags: nat): (r: Memory)
    requires Shaped(mem) && parent < |mem| && f < |mem| && i < SLOTS
    ensures |r| == |mem|
  {
    Put(Zeroed(mem, f), parent, i, Entry(f, true, false, flags))
  }

  lemma AtCreated(mem: Memory, parent: nat, i: nat, f: nat, flags: nat, g: nat, j: nat)
    requires Shaped(mem) && parent < |mem| && f < |mem| && i < SLOTS && f != parent
    ensures At(Created(mem, parent, i, f, flags), g, j) ==
            if g == parent && j == i then Entry(f, true, false, flags) else if g == f then EMPTY else At(mem, g, j)
  {
  }

  lemma CreatedWellFormed(mem: Memory, lvl: map<nat, nat>, parent: nat, i: nat, f: nat, flags: nat)
    requires WellFormed(mem, lvl) && parent in lvl && lvl[parent] >= 2 && i < SLOTS && !At(mem, parent, i).present
    requires f < |mem| && f !in lvl
    ensures WellFormed(Created(mem, parent, i, f, flags), lvl[f := lvl[parent] - 1])
  {
    var mem', lvl' := Created(mem, parent, i, f, flags), lvl[f := lvl[parent] - 1];
    forall g, j ensures Links(mem', lvl', g, j) ==> (g == parent && j == i) || Links(mem, lvl, g, j) {
      AtCreated(mem, parent, i, f, flags, g, j);
    }
    forall g, j | Links(mem', lvl', g, j) ensures Leads(mem', lvl', g, j) {
      AtCreated(mem, parent, i, f, flags, g, j);
      if !(g == parent && j == i) { assert Leads(mem, lvl, g, j); }
    }
    forall g, j, h, k | Links(mem', lvl', g, j) && Links(mem', lvl', h, k) ensures Apart(mem', lvl', g, j, h, k) {
      CreatedApart(mem, lvl, parent, i, f, flags, g, j, h, k);
    }
  }

  lemma CreatedApart(mem: Memory, lvl: map<nat, nat>, parent: nat, i: nat, f: nat, flags: nat, g: nat, j: nat, h: nat,
      k: nat)
    requires WellFormed(mem, lvl) && parent in lvl && lvl[parent] >= 2 && i < SLOTS && !At(mem, parent, i).present
    requires f < |mem| && f !in lvl
    requires var mem', lvl' := Created(mem, parent, i, f, flags), lvl[f := lvl[parent] - 1];
             Links(mem', lvl', g, j) && Links(mem', lvl', h, k)
    ensures Apart(Created(mem, parent, i, f, flags), lvl[f := lvl[parent] - 1], g, j, h, k)
  {
    AtCreated(mem, parent, i, f, flags, g, j);
    AtCreated(mem, parent, i, f, flags, h, k);
    if !(g == parent && j == i) { assert Links(mem, lvl, g, j) && Leads(mem, lvl, g, j); }
    if !(h == parent && k == i) { assert Links(mem, lvl, h, k) && Leads(mem, lvl, h, k); }
    if !(g == parent && j == i) && !(h == parent && k == i) { assert Apart(mem, lvl, g, j, h, k); }
  }

  /** Creating an intermediate table changes no translation anywhere. */
  lemma {:induction false} CreatedWalk(mem: Memory, lvl: map<nat, nat>, parent: nat, i: nat, f: nat, flags: nat, t: nat,
      v: nat)
    requires WellFormed(mem, lvl) && parent in lvl && lvl[parent] >= 2 && i < SLOTS && !At(mem, parent, i).present
    requires f < |mem| && f !in lvl && t in lvl
    ensures Walk(Created(mem, parent, i, f, flags), lvl[t], t, v) == Walk(mem, lvl[t], t, v)
    decreases lvl[t]
  {
    hide Created, Index;
    var mem', j := Created(mem, parent, i, f, flags), Index(v, lvl[t]);
    AtCreated(mem, parent, i, f, flags, t, j);
    if t == parent && j == i {
      AtCreated(mem, parent, i, f, flags, f, Index(v, lvl[t] - 1));
    } else if Links(mem, lvl, t, j) {
      assert Leads(mem, lvl, t, j);
      CreatedWalk(mem, lvl, parent, i, f, flags, At(mem, t, j).frame, v);
    }
  }

  // ------------------------------------------------------------------- a leaf

  datatype Reached = Nowhere | Table(f: nat)

  /** The table of level l that the walk for v passes on its way down from table f. */
  function TableAt(mem: Memory, level: nat, f: nat, v: nat, l: nat): Reached
    requires 1 <= l <= level <= 4
    decreases level
  {
    if level == l then Table(f)
    else
      var e := At(mem, f, Index(v, level));
      if !e.present || (level == 2 && e.huge) then Nowhere else TableAt(mem, level - 1, e.frame, v, l)
  }

  function LeafTable(mem: Memory, level: nat, f: nat, v: nat): Reached
    requires 1 <= level <= 4
  {
    TableAt(mem, level, f, v, 1)
  }

  lemma {:induction false} TableAtStep(mem: Memory, level: nat, f: nat, v: nat, l: nat, p: nat)
    requires 1 < l <= level <= 4 && TableAt(mem, level, f, v, l) == Table(p)
    ensures var e := At(mem, p, Index(v, l));
            TableAt(mem, level, f, v, l - 1) == if !e.present || (l == 2 && e.huge) then Nowhere else Table(e.frame)
    decreases level
  {
    hide Index;
    if level > l { TableAtStep(mem, level - 1, At(mem, f, Index(v, level)).frame, v, l, p); }
  }

  lemma {:induction false} TableAtLevel(mem: Memory, lvl: map<nat, nat>, f: nat, v: nat, l: nat, p: nat)
    requires WellFormed(mem, lvl) && f in lvl && 1 <= l <= lvl[f] && TableAt(mem, lvl[f], f, v, l) == Table(p)
    ensures p in lvl && lvl[p] == l
    decreases lvl[f]
  {
    hide Index;
    if lvl[f] > l {
      assert Links(mem, lvl, f, Index(v, lvl[f])) && Leads(mem, lvl, f, Index(v, lvl[f]));
      TableAtLevel(mem, lvl, At(mem, f, Index(v, lvl[f])).frame, v, l, p);
    }
  }

  /** A new table below level l leaves the path down to level l alone. */
  lemma {:induction false} CreatedTableAt(mem: Memory, lvl: map<nat, nat>, parent: nat, i: nat, f: nat, flags: nat,
      t: nat, v: nat, l: nat)
    requires WellFormed(mem, lvl) && parent in lvl && lvl[parent] >= 2 && i < SLOTS && f < |mem| && f !in lvl
             && t in lvl
    requires lvl[parent] <= l <= lvl[t]
    ensures TableAt(Created(mem, parent, i, f, flags), lvl[t], t, v, l) == TableAt(mem, lvl[t], t, v, l)
    decreases lvl[t]
  {
    hide Index, Created;
    if lvl[t] > l {
      var j := Index(v, lvl[t]);
      AtCreated(mem, parent, i, f, flags, t, j);
      if Links(mem, lvl, t, j) {
        assert Leads(mem, lvl, t, j);
        CreatedTableAt(mem, lvl, parent, i, f, flags, At(mem, t, j).frame, v, l);
      }
    }
  }

  /** Two walks that pass the same table agree on all upper indices, and on the root unless in the kernel half. */
  lemma {:induction false} TableUnique(mem: Memory, lvl: map<nat, nat>, f: nat, v: nat, g: nat, w: nat, l: nat, pt: nat)
    requires WellFormed(mem, lvl) && f in lvl && g in lvl && lvl[f] == lvl[g] && 1 <= l <= lvl[f]
    requires TableAt(mem, lvl[f], f, v, l) == Table(pt) && TableAt(mem, lvl[g], g, w, l) == Table(pt)
    ensures forall k :: l < k <= lvl[f] ==> Index(v, k) == Index(w, k)
    ensures f == g || (lvl[f] == 4 && Index(v, 4) >= USER_SLOTS)
    decreases lvl[f]
  {
    hide Index;
    if lvl[f] > l {
      var i, j := Index(v, lvl[f]), Index(w, lvl[f]);
      assert Links(mem, lvl, f, i) && Links(mem, lvl, g, j);
      assert Leads(mem, lvl, f, i) && Leads(mem, lvl, g, j);
      TableUnique(mem, lvl, At(mem, f, i).frame, v, At(mem, g, j).frame, w, l, pt);
      assert Apart(mem, lvl, f, i, g, j);
    }
  }

  lemma LeafWellFormed(mem: Memory, lvl: map<nat, nat>, pt: nat, i: nat, e: Entry)
    requires WellFormed(mem, lvl) && pt in lvl && lvl[pt] == 1 && i < SLOTS
    ensures WellFormed(Put(mem, pt, i, e), lvl)
  {
    var mem' := Put(mem, pt, i, e);
    forall g, j | g in lvl && lvl[g] >= 2 ensures At(mem', g, j) == At(mem, g, j) { AtPut(mem, pt, i, e, g, j); }
    forall g, j | Links(mem', lvl, g, j) ensures Leads(mem', lvl, g, j) {
      assert Links(mem, lvl, g, j) && Leads(mem, lvl, g, j);
    }
    forall g, j, h, k | Links(mem', lvl, g, j) && Links(mem', lvl, h, k) ensures Apart(mem', lvl, g, j, h, k) {
      assert Links(mem, lvl, g, j) && Links(mem, lvl, h, k) && Apart(mem, lvl, g, j, h, k);
    }
  }

  /** Writing slot i of leaf table pt changes exactly the walks that end in that slot. */
  lemma {:induction false} LeafWalk(mem: Memory, lvl: map<nat, nat>, pt: nat, i: nat, e: Entry, t: nat, v: nat)
    requires WellFormed(mem, lvl) && pt in lvl && lvl[pt] == 1 && i < SLOTS && t in lvl
    ensures Walk(Put(mem, pt, i, e), lvl[t], t, v) ==
            if LeafTable(mem, lvl[t], t, v) == Table(pt) && Index(v, 1) == i
            then if e.present then Page(e.frame * PAGE_SIZE, 1) else NoPage
            else Walk(mem, lvl[t], t, v)
    decreases lvl[t]
  {
    hide Put, Index;
    var j := Index(v, lvl[t]);
    AtPut(mem, pt, i, e, t, j);
    if Links(mem, lvl, t, j) {
      assert Leads(mem, lvl, t, j);
      LeafWalk(mem, lvl, pt, i, e, At(mem, t, j).frame, v);
    }
  }

  /**
   * Writing the leaf of page v under root maps that page, changes no other page
   * in any address space, and for user addresses no page of any other one.
   */
  lemma LeafTranslate(mem: Memory, lvl: map<nat, nat>, root: nat, v: nat, pt: nat, e: Entry, root': nat, w: nat)
    requires WellFormed(mem, lvl) && root in lvl && root' in lvl && lvl[root] == lvl[root'] == 4
    requires LeafTable(mem, 4, root, v) == Table(pt) && pt in lvl && lvl[pt] == 1
    ensures var mem' := Put(mem, pt, Index(v, 1), e);
            && (root' == root && SamePage(v, w) ==>
                  Walk(mem', 4, root, w) == if e.present then Page(e.frame * PAGE_SIZE, 1) else NoPage)
            && (!SamePage(v, w) ==> Walk(mem', 4, root', w) == Walk(mem, 4, root', w))
            && (root' != root && Index(v, 4) < USER_SLOTS ==> Walk(mem', 4, root', w) == Walk(mem, 4, root', w))
  {
    hide Put, Index, Walk;
    LeafWalk(mem, lvl, pt, Index(v, 1), e, root', w);
    if LeafTable(mem, 4, root', w) == Table(pt) { TableUnique(mem, lvl, root, v, root', w, 1, pt); }
    if root' == root && SamePage(v, w) { SameLeafTable(mem, 4, root, v, w); }
  }

  lemma {:induction false} SameLeafTable(mem: Memory, level: nat, f: nat, v: nat, w: nat)
    requires 1 <= level <= 4 && SamePage(v, w)
    ensures LeafTable(mem, level, f, v) == LeafTable(mem, level, f, w)
  {
    hide Index;
    if level > 1 { SameLeafTable(mem, level - 1, At(mem, f, Index(v, level)).frame, v, w); }
  }

  /** Where a walk ends that reads e in a directory, if e refers to no table. */
  function EndOf(e: Entry): Leaf
  {
    if e.present then Page(e.frame / SLOTS * SLOTS * PAGE_SIZE, 2) else NoPage
  }

  /** Writing an entry that refers to no table into slot i of directory pd changes exactly the walks that read it. */
  lemma {:induction false} HugeWalk(mem: Memory, lvl: map<nat, nat>, pd: nat, i: nat, e: Entry, t: nat, v: nat)
    requires WellFormed(mem, lvl) && pd in lvl && lvl[pd] == 2 && i < SLOTS && t in lvl && (e.present ==> e.huge)
    ensures Walk(Put(mem, pd, i, e), lvl[t], t, v) ==
            if lvl[t] >= 2 && TableAt(mem, lvl[t], t, v, 2) == Table(pd) && Index(v, 2) == i then EndOf(e)
            else Walk(mem, lvl[t], t, v)
    decreases lvl[t]
  {
    hide Put, Index;
    var j := Index(v, lvl[t]);
    AtPut(mem, pd, i, e, t, j);
    if Links(mem, lvl, t, j) {
      assert Leads(mem, lvl, t, j);
      HugeWalk(mem, lvl, pd, i, e, At(mem, t, j).frame, v);
    }
  }

  lemma HugeWellFormed(mem: Memory, lvl: map<nat, nat>, pd: nat, i: nat, e: Entry)
    requires WellFormed(mem, lvl) && pd in lvl && lvl[pd] == 2 && i < SLOTS && (e.present ==> e.huge)
    ensures WellFormed(Put(mem, pd, i, e), lvl)
  {
    var mem' := Put(mem, pd, i, e);
    forall g, j | Links(mem', lvl, g, j)
      ensures Links(mem, lvl, g, j) && At(mem', g, j) == At(mem, g, j) && Leads(mem', lvl, g, j)
    {
      AtPut(mem, pd, i, e, g, j);
      assert Links(mem, lvl, g, j) && Leads(mem, lvl, g, j);
    }
    forall g, j, h, k | Links(mem', lvl, g, j) && Links(mem', lvl, h, k) ensures Apart(mem', lvl, g, j, h, k) {
      assert Apart(mem, lvl, g, j, h, k);
    }
  }

  // -------------------------------------------------- frames of an address space

  /** Slot e of a table of the given level leads to frame x: a page, a table, or something below it. */
  ghost predicate InEntry(mem: Memory, level: nat, e: Entry, x: nat)
    requires 1 <= level <= 4
    decreases level, 0
  {
    e.present && if level == 1 then x == e.frame else !(level <= 3 && e.huge) && InFoot(mem, level - 1, e.frame, x)
  }

  /** Frame x is table t or lies below it. */
  ghost predicate InFoot(mem: Memory, level: nat, t: nat, x: nat)
    requires 1 <= level <= 4
    decreases level, 1
  {
    x == t || exists i :: 0 <= i < SLOTS && InEntry(mem, level, At(mem, t, i), x)
  }

  /** Frame x belongs to the user half of the address space root. */
  ghost predicate InUser(mem: Memory, root: nat, x: nat)
  {
    x == root || exists i :: 0 <= i < USER_SLOTS && InEntry(mem, 4, At(mem, root, i), x)
  }

  /** y is a table in the tree below t. */
  ghost predicate InTabs(mem: Memory, level: nat, t: nat, y: nat)
    requires 1 <= level <= 4
    decreases level
  {
    y == t || (level > 1 && exists i :: 0 <= i < SLOTS && BelowSlot(mem, level, At(mem, t, i), y))
  }

  ghost predicate BelowSlot(mem: Memory, level: nat, e: Entry, y: nat)
    requires 2 <= level <= 4
    decreases level, 0
  {
    e.present && !(level <= 3 && e.huge) && InTabs(mem, level - 1, e.frame, y)
  }

  lemma {:induction false} TabsLevel(mem: Memory, lvl: map<nat, nat>, t: nat, y: nat)
    requires WellFormed(mem, lvl) && t in lvl && InTabs(mem, lvl[t], t, y)
    ensures y in lvl && lvl[y] <= lvl[t] && (lvl[y] == lvl[t] ==> y == t)
    decreases lvl[t]
  {
    if y != t {
      var i :| 0 <= i < SLOTS && BelowSlot(mem, lvl[t], At(mem, t, i), y);
      assert Links(mem, lvl, t, i) && Leads(mem, lvl, t, i);
      TabsLevel(mem, lvl, At(mem, t, i).frame, y);
    }
  }

  /** A new table adds its own frame to every tree that contains its parent, and nothing else. */
  lemma {:induction false} CreatedFoot(mem: Memory, lvl: map<nat, nat>, parent: nat, i: nat, f: nat, flags: nat, t: nat,
      x: nat)
    requires WellFormed(mem, lvl) && parent in lvl && lvl[parent] >= 2 && i < SLOTS && !At(mem, parent, i).present
    requires f < |mem| && f !in lvl && t in lvl
    ensures InFoot(Created(mem, parent, i, f, flags), lvl[t], t, x) <==>
            InFoot(mem, lvl[t], t, x) || (x == f && InTabs(mem, lvl[t], t, parent))
    decreases lvl[t]
  {
    hide Created;
    var mem', l := Created(mem, parent, i, f, flags), lvl[t];
    forall j | 0 <= j < SLOTS
      ensures InEntry(mem', l, At(mem', t, j), x) <==>
              InEntry(mem, l, At(mem, t, j), x)
              || (x == f && ((t == parent && j == i) || (l > 1 && BelowSlot(mem, l, At(mem, t, j), parent))))
    {
      CreatedSlot(mem, lvl, parent, i, f, flags, t, j, x);
      if Links(mem, lvl, t, j) && !(t == parent && j == i) {
        assert Leads(mem, lvl, t, j);
        CreatedFoot(mem, lvl, parent, i, f, flags, At(mem, t, j).frame, x);
      }
    }
    if t == parent {
      forall j | 0 <= j < SLOTS ensures !BelowSlot(mem, l, At(mem, t, j), parent) { NotBelowItself(mem, lvl, t, j); }
    }
  }

  lemma NotBelowItself(mem: Memory, lvl: map<nat, nat>, t: nat, j: nat)
    requires WellFormed(mem, lvl) && t in lvl && lvl[t] >= 2 && j < SLOTS
    ensures !BelowSlot(mem, lvl[t], At(mem, t, j), t)
  {
    if BelowSlot(mem, lvl[t], At(mem, t, j), t) {
      assert Links(mem, lvl, t, j) && Leads(mem, lvl, t, j);
      TabsLevel(mem, lvl, At(mem, t, j).frame, t);
    }
  }

  /** What a slot leads to after the creation, when it is the new slot or a slot that is not a link. */
  lemma CreatedSlot(mem: Memory, lvl: map<nat, nat>, parent: nat, i: nat, f: nat, flags: nat, t: nat, j: nat, x: nat)
    requires WellFormed(mem, lvl) && parent in lvl && lvl[parent] >= 2 && i < SLOTS && !At(mem, parent, i).present
    requires f < |mem| && f !in lvl && t in lvl && j < SLOTS
    ensures var mem' := Created(mem, parent, i, f, flags);
            && (t == parent && j == i ==> (InEntry(mem', lvl[t], At(mem', t, j), x) <==> x == f))
            && (!(t == parent && j == i) ==> At(mem', t, j) == At(mem, t, j))
  {
    hide Created;
    var mem' := Created(mem, parent, i, f, flags);
    AtCreated(mem, parent, i, f, flags, t, j);
    if t == parent && j == i {
      forall k | 0 <= k < SLOTS ensures !At(mem', f, k).present { AtCreated(mem, parent, i, f, flags, f, k); }
    }
  }

  /** Filling an empty leaf slot adds the page frame to every tree that contains the leaf table. */
  lemma {:induction false} LeafFoot(mem: Memory, lvl: map<nat, nat>, pt: nat, i: nat, e: Entry, t: nat, x: nat)
    requires WellFormed(mem, lvl) && pt in lvl && lvl[pt] == 1 && i < SLOTS && t in lvl
    requires !At(mem, pt, i).present && e.present
    ensures InFoot(Put(mem, pt, i, e), lvl[t], t, x) <==>
            InFoot(mem, lvl[t], t, x) || (x == e.frame && InTabs(mem, lvl[t], t, pt))
    decreases lvl[t]
  {
    hide Put;
    var mem', l := Put(mem, pt, i, e), lvl[t];
    forall j | 0 <= j < SLOTS
      ensures InEntry(mem', l, At(mem', t, j), x) <==>
              InEntry(mem, l, At(mem, t, j), x)
              || (x == e.frame && ((t == pt && j == i) || (l > 1 && BelowSlot(mem, l, At(mem, t, j), pt))))
    {
      AtPut(mem, pt, i, e, t, j);
      if Links(mem, lvl, t, j) {
        assert Leads(mem, lvl, t, j);
        LeafFoot(mem, lvl, pt, i, e, At(mem, t, j).frame, x);
      }
    }
  }

  /** y is a table in the user half of root. */
  ghost predicate InUserTabs(mem: Memory, root: nat, y: nat)
  {
    exists i :: 0 <= i < USER_SLOTS && BelowSlot(mem, 4, At(mem, root, i), y)
  }

  lemma {:induction false} PathInTabs(mem: Memory, lvl: map<nat, nat>, t: nat, v: nat, l: nat, y: nat)
    requires WellFormed(mem, lvl) && t in lvl && 1 <= l <= lvl[t] && TableAt(mem, lvl[t], t, v, l) == Table(y)
    ensures InTabs(mem, lvl[t], t, y)
    decreases lvl[t]
  {
    hide Index;
    if lvl[t] > l {
      var i := Index(v, lvl[t]);
      assert Links(mem, lvl, t, i) && Leads(mem, lvl, t, i);
      PathInTabs(mem, lvl, At(mem, t, i).frame, v, l, y);
      assert BelowSlot(mem, lvl[t], At(mem, t, i), y);
    }
  }

  lemma PathInUserTabs(mem: Memory, lvl: map<nat, nat>, root: nat, v: nat, l: nat, y: nat)
    requires WellFormed(mem, lvl) && root in lvl && lvl[root] == 4 && Index(v, 4) < USER_SLOTS
    requires 1 <= l <= 3 && TableAt(mem, 4, root, v, l) == Table(y)
    ensures InUserTabs(mem, root, y)
  {
    hide Index;
    var i := Index(v, 4);
    assert Links(mem, lvl, root, i) && Leads(mem, lvl, root, i);
    PathInTabs(mem, lvl, At(mem, root, i).frame, v, l, y);
    assert BelowSlot(mem, 4, At(mem, root, i), y);
  }

  lemma CreatedUser(mem: Memory, lvl: map<nat, nat>, root: nat, parent: nat, i: nat, f: nat, flags: nat, x: nat)
    requires WellFormed(mem, lvl) && parent in lvl && lvl[parent] >= 2 && i < SLOTS && !At(mem, parent, i).present
    requires f < |mem| && f !in lvl && root in lvl && lvl[root] == 4
    ensures InUser(Created(mem, parent, i, f, flags), root, x) <==>
            InUser(mem, root, x) || (x == f && ((parent == root && i < USER_SLOTS) || InUserTabs(mem, root, parent)))
  {
    hide Created;
    var mem' := Created(mem, parent, i, f, flags);
    forall j | 0 <= j < USER_SLOTS
      ensures InEntry(mem', 4, At(mem', root, j), x) <==>
              InEntry(mem, 4, At(mem, root, j), x)
              || (x == f && ((root == parent && j == i) || BelowSlot(mem, 4, At(mem, root, j), parent)))
    {
      CreatedSlot(mem, lvl, parent, i, f, flags, root, j, x);
      if Links(mem, lvl, root, j) && !(root == parent && j == i) {
        assert Leads(mem, lvl, root, j);
        CreatedFoot(mem, lvl, parent, i, f, flags, At(mem, root, j).frame, x);
      }
    }
    if root == parent {
      forall j | 0 <= j < USER_SLOTS
        ensures !BelowSlot(mem, 4, At(mem, root, j), parent)
      {
        NotBelowItself(mem, lvl, root, j);
      }
      assert i < USER_SLOTS ==>
          (InEntry(mem', 4, At(mem', root, i), x) <==> InEntry(mem, 4, At(mem, root, i), x) || x == f);
    }
  }

  lemma LeafUser(mem: Memory, lvl: map<nat, nat>, root: nat, pt: nat, i: nat, e: Entry, x: nat)
    requires WellFormed(mem, lvl) && pt in lvl && lvl[pt] == 1 && i < SLOTS && root in lvl && lvl[root] == 4
    requires !At(mem, pt, i).present && e.present
    ensures InUser(Put(mem, pt, i, e), root, x) <==> InUser(mem, root, x) || (x == e.frame && InUserTabs(mem, root, pt))
  {
    hide Put;
    var mem' := Put(mem, pt, i, e);
    forall j | 0 <= j < USER_SLOTS
      ensures InEntry(mem', 4, At(mem', root, j), x) <==>
              InEntry(mem, 4, At(mem, root, j), x) || (x == e.frame && BelowSlot(mem, 4, At(mem, root, j), pt))
    {
      AtPut(mem, pt, i, e, root, j);
      if Links(mem, lvl, root, j) {
        assert Leads(mem, lvl, root, j);
        LeafFoot(mem, lvl, pt, i, e, At(mem, root, j).frame, x);
      }
    }
  }

  // -------------------------------------------------------- a new address space

  /** Memory after vmm_create_user_pml4: an empty user half and the kernel's upper half. */
  function Forked(mem: Memory, kernel: nat, f: nat): (r: Memory)
    requires Shaped(mem) && kernel < |mem| && f < |mem|
    ensures |r| == |mem|
  {
    mem[f := seq(SLOTS, i requires 0 <= i < SLOTS => if i < USER_SLOTS then EMPTY else mem[kernel][i])]
  }

  lemma AtForked(mem: Memory, kernel: nat, f: nat, g: nat, j: nat)
    requires Shaped(mem) && kernel < |mem| && f < |mem| && j < SLOTS
    ensures At(Forked(mem, kernel, f), g, j) ==
            if g != f then At(mem, g, j) else if j < USER_SLOTS then EMPTY else At(mem, kernel, j)
  {
  }

  lemma ForkedWellFormed(mem: Memory, lvl: map<nat, nat>, kernel: nat, f: nat)
    requires WellFormed(mem, lvl) && kernel in lvl && lvl[kernel] == 4 && f < |mem| && f !in lvl
    ensures WellFormed(Forked(mem, kernel, f), lvl[f := 4])
  {
    hide Forked;
    var mem', lvl' := Forked(mem, kernel, f), lvl[f := 4];
    forall g, j | Links(mem', lvl', g, j)
      ensures Leads(mem', lvl', g, j)
    {
      AtForked(mem, kernel, f, g, j);
      ForkedOrigin(mem, lvl, kernel, f, g, j);
    }
    forall g, j, h, k | Links(mem', lvl', g, j) && Links(mem', lvl', h, k) ensures Apart(mem', lvl', g, j, h, k) {
      ForkedOrigin(mem, lvl, kernel, f, g, j);
      ForkedOrigin(mem, lvl, kernel, f, h, k);
      var g0, h0 := if g == f then kernel else g, if h == f then kernel else h;
      assert Apart(mem, lvl, g0, j, h0, k);
    }
    ForkedShaped(mem, kernel, f);
  }

  lemma ForkedShaped(mem: Memory, kernel: nat, f: nat)
    requires Shaped(mem) && kernel < |mem| && f < |mem|
    ensures Shaped(Forked(mem, kernel, f))
  {
  }

  /** A link of the new table is a kernel-half link of the kernel's. */
  lemma ForkedOrigin(mem: Memory, lvl: map<nat, nat>, kernel: nat, f: nat, g: nat, j: nat)
    requires WellFormed(mem, lvl) && kernel in lvl && lvl[kernel] == 4 && f < |mem| && f !in lvl
    requires Links(Forked(mem, kernel, f), lvl[f := 4], g, j)
    ensures var g0 := if g == f then kernel else g;
            && Links(mem, lvl, g0, j) && Leads(mem, lvl, g0, j) && (g == f ==> j >= USER_SLOTS)
            && At(Forked(mem, kernel, f), g, j) == At(mem, g0, j)
  {
    AtForked(mem, kernel, f, g, j);
  }

  /** The new address space translates user addresses to nothing and kernel addresses as the kernel does. */
  lemma ForkedTranslate(mem: Memory, lvl: map<nat, nat>, kernel: nat, f: nat, t: nat, v: nat)
    requires WellFormed(mem, lvl) && kernel in lvl && lvl[kernel] == 4 && f < |mem| && f !in lvl && t in lvl
    ensures Walk(Forked(mem, kernel, f), lvl[t], t, v) == Walk(mem, lvl[t], t, v)
    ensures Walk(Forked(mem, kernel, f), 4, f, v) ==
            if Index(v, 4) < USER_SLOTS then NoPage else Walk(mem, 4, kernel, v)
  {
    hide Forked, Index;
    ForkedWalk(mem, lvl, kernel, f, t, v);
    AtForked(mem, kernel, f, f, Index(v, 4));
    if Index(v, 4) >= USER_SLOTS && Links(mem, lvl, kernel, Index(v, 4)) {
      assert Leads(mem, lvl, kernel, Index(v, 4));
      ForkedWalk(mem, lvl, kernel, f, At(mem, kernel, Index(v, 4)).frame, v);
    }
  }

  lemma {:induction false} ForkedWalk(mem: Memory, lvl: map<nat, nat>, kernel: nat, f: nat, t: nat, v: nat)
    requires WellFormed(mem, lvl) && kernel in lvl && lvl[kernel] == 4 && f < |mem| && f !in lvl && t in lvl
    ensures Walk(Forked(mem, kernel, f), lvl[t], t, v) == Walk(mem, lvl[t], t, v)
    decreases lvl[t]
  {
    hide Forked, Index;
    var j := Index(v, lvl[t]);
    AtForked(mem, kernel, f, t, j);
    if Links(mem, lvl, t, j) {
      assert Leads(mem, lvl, t, j);
      ForkedWalk(mem, lvl, kernel, f, At(mem, t, j).frame, v);
    }
  }

  /** A fresh address space consists of its PML4 alone. */
  lemma ForkedUser(mem: Memory, kernel: nat, f: nat, x: nat)
    requires Shaped(mem) && kernel < |mem| && f < |mem|
    ensures InUser(Forked(mem, kernel, f), f, x) <==> x == f
  {
    hide Forked;
    forall j | 0 <= j < USER_SLOTS ensures !At(Forked(mem, kernel, f), f, j).present { AtForked(mem, kernel, f, f, j); }
  }
}
