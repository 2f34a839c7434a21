/**
 * How the set of address spaces evolves: what adding tables below one PML4
 * keeps, who owns which frame, and what remains after one space is destroyed.
 */
module AddressSpaces {
  import opened PageTables

  // ------------------------------------------------------------------ ownership

  /** A table of level 3 or below lies in one tree only. */
  lemma {:induction false} OneParent(mem: Memory, lvl: map<nat, nat>, t: nat, u: nat, y: nat)
    requires WellFormed(mem, lvl) && t in lvl && u in lvl && lvl[t] == lvl[u] <= 3
    requires InTabs(mem, lvl[t], t, y) && InTabs(mem, lvl[u], u, y)
    ensures t == u
    decreases lvl[t]
  {
    TabsLevel(mem, lvl, t, y);
    TabsLevel(mem, lvl, u, y);
    if y != t && y != u {
      var i :| 0 <= i < SLOTS && BelowSlot(mem, lvl[t], At(mem, t, i), y);
      var j :| 0 <= j < SLOTS && BelowSlot(mem, lvl[u], At(mem, u, j), y);
      assert Links(mem, lvl, t, i) && Links(mem, lvl, u, j);
      assert Leads(mem, lvl, t, i) && Leads(mem, lvl, u, j);
      OneParent(mem, lvl, At(mem, t, i).frame, At(mem, u, j).frame, y);
      assert Apart(mem, lvl, t, i, u, j);
    }
  }

  /**
   * A table below slot i of one PML4 and slot j of another is the same slot, of the
   * same PML4 or of the kernel half.
   */
  lemma OneSlot(mem: Memory, lvl: map<nat, nat>, r: nat, i: nat, s: nat, j: nat, y: nat)
    requires WellFormed(mem, lvl) && r in lvl && s in lvl && lvl[r] == lvl[s] == 4 && i < SLOTS && j < SLOTS
    requires BelowSlot(mem, 4, At(mem, r, i), y) && BelowSlot(mem, 4, At(mem, s, j), y)
    ensures i == j && (r == s || i >= USER_SLOTS)
  {
    assert Links(mem, lvl, r, i) && Links(mem, lvl, s, j);
    assert Leads(mem, lvl, r, i) && Leads(mem, lvl, s, j);
    OneParent(mem, lvl, At(mem, r, i).frame, At(mem, s, j).frame, y);
    assert Apart(mem, lvl, r, i, s, j);
  }

  /** The tables on the path of page v belong to the user half of root alone, or to no user half. */
  lemma PathOwner(mem: Memory, lvl: map<nat, nat>, root: nat, v: nat, l: nat, y: nat, s: nat)
    requires WellFormed(mem, lvl) && root in lvl && s in lvl && lvl[root] == lvl[s] == 4
    requires 1 <= l <= 3 && TableAt(mem, 4, root, v, l) == Table(y)
    ensures InUserTabs(mem, s, y) <==> s == root && Index(v, 4) < USER_SLOTS
  {
    hide Index;
    var i := Index(v, 4);
    assert Links(mem, lvl, root, i) && Leads(mem, lvl, root, i);
    PathInTabs(mem, lvl, At(mem, root, i).frame, v, l, y);
    assert BelowSlot(mem, 4, At(mem, root, i), y);
    if InUserTabs(mem, s, y) {
      var j :| 0 <= j < USER_SLOTS && BelowSlot(mem, 4, At(mem, s, j), y);
      OneSlot(mem, lvl, root, i, s, j, y);
    }
  }

  lemma {:induction false} TabsInFoot(mem: Memory, level: nat, t: nat, y: nat)
    requires 1 <= level <= 4 && InTabs(mem, level, t, y)
    ensures InFoot(mem, level, t, y)
  {
    if y != t {
      var i :| 0 <= i < SLOTS && BelowSlot(mem, level, At(mem, t, i), y);
      TabsInFoot(mem, level - 1, At(mem, t, i).frame, y);
      assert InEntry(mem, level, At(mem, t, i), y);
    }
  }

  lemma UserTabsInUser(mem: Memory, root: nat, y: nat)
    requires InUserTabs(mem, root, y)
    ensures InUser(mem, root, y)
  {
    var i :| 0 <= i < USER_SLOTS && BelowSlot(mem, 4, At(mem, root, i), y);
    TabsInFoot(mem, 3, At(mem, root, i).frame, y);
    assert InEntry(mem, 4, At(mem, root, i), y);
  }

  // ---------------------------------------------------------------- table growth

  /** No reference of an upper-level table is lost. */
  ghost predicate Keeps(mem: Memory, lvl: map<nat, nat>, mem': Memory)
  {
    forall g, j :: g in lvl && lvl[g] >= 2 && At(mem, g, j).present ==> At(mem', g, j) == At(mem, g, j)
  }

  lemma {:induction false} KeepsTabs(mem: Memory, lvl: map<nat, nat>, mem': Memory, t: nat, y: nat)
    requires WellFormed(mem, lvl) && Keeps(mem, lvl, mem') && t in lvl && InTabs(mem, lvl[t], t, y)
    ensures InTabs(mem', lvl[t], t, y)
    decreases lvl[t]
  {
    if y != t {
      var i :| 0 <= i < SLOTS && BelowSlot(mem, lvl[t], At(mem, t, i), y);
      assert Links(mem, lvl, t, i) && Leads(mem, lvl, t, i);
      KeepsTabs(mem, lvl, mem', At(mem, t, i).frame, y);
      assert BelowSlot(mem', lvl[t], At(mem', t, i), y);
    }
  }

  lemma KeepsUserTabs(mem: Memory, lvl: map<nat, nat>, mem': Memory, r: nat, y: nat)
    requires WellFormed(mem, lvl) && Keeps(mem, lvl, mem') && r in lvl && lvl[r] == 4 && InUserTabs(mem, r, y)
    ensures InUserTabs(mem', r, y)
  {
    var i :| 0 <= i < USER_SLOTS && BelowSlot(mem, 4, At(mem, r, i), y);
    assert Links(mem, lvl, r, i) && Leads(mem, lvl, r, i);
    KeepsTabs(mem, lvl, mem', At(mem, r, i).frame, y);
    assert BelowSlot(mem', 4, At(mem', r, i), y);
  }

  /** Every old table translates every address as before. */
  ghost predicate SameWalks(mem: Memory, lvl: map<nat, nat>, mem': Memory)
  {
    forall t, v :: t in lvl && 1 <= lvl[t] <= 4 ==> Walk(mem', lvl[t], t, v) == Walk(mem, lvl[t], t, v)
  }

  ghost predicate Extends(lvl: map<nat, nat>, lvl': map<nat, nat>)
  {
    forall t :: t in lvl ==> t in lvl' && lvl'[t] == lvl[t]
  }

  /** The new tables, and nothing else, join root's frames when own holds; no other user half changes. */
  ghost predicate Joins(mem: Memory, lvl: map<nat, nat>, mem': Memory, lvl': map<nat, nat>, root: nat, own: bool)
  {
    && (forall t, x :: t in lvl && lvl[t] == 4 ==>
          (InUser(mem', t, x) <==> InUser(mem, t, x) || (t == root && own && x in lvl' && x !in lvl)))
    && (own ==> forall x :: x in lvl' && x !in lvl ==> InUserTabs(mem', root, x))
  }

  /** No other PML4 was written, and what filled an empty slot of root is a new table. */
  ghost predicate RootsKept(mem: Memory, lvl: map<nat, nat>, mem': Memory, root: nat)
  {
    && (forall t, j :: t in lvl && lvl[t] == 4 && t != root ==> At(mem', t, j) == At(mem, t, j))
    && (forall j :: !At(mem, root, j).present && At(mem', root, j).present ==> At(mem', root, j).frame !in lvl)
  }

  /** Tables were added below root, on behalf of a user-half page when own holds. */
  ghost predicate Grew(mem: Memory, lvl: map<nat, nat>, mem': Memory, lvl': map<nat, nat>, root: nat, own: bool)
  {
    && Extends(lvl, lvl') && SameWalks(mem, lvl, mem') && Keeps(mem, lvl, mem') && RootsKept(mem, lvl, mem', root)
    && Joins(mem, lvl, mem', lvl', root, own)
  }

  lemma GrewTransitive(mem: Memory, lvl: map<nat, nat>, mem': Memory, lvl': map<nat, nat>, mem'': Memory,
      lvl'': map<nat, nat>, root: nat, own: bool)
    requires WellFormed(mem, lvl) && WellFormed(mem', lvl') && root in lvl && lvl[root] == 4
    requires Grew(mem, lvl, mem', lvl', root, own) && Grew(mem', lvl', mem'', lvl'', root, own)
    ensures Grew(mem, lvl, mem'', lvl'', root, own)
  {
    hide Walk, InUser, InUserTabs;
    if own {
      forall x | x in lvl'' && x !in lvl ensures InUserTabs(mem'', root, x) {
        if x in lvl' { KeepsUserTabs(mem', lvl', mem'', root, x); }
      }
    }
    forall t, x | t in lvl && lvl[t] == 4
      ensures InUser(mem'', t, x) <==> InUser(mem, t, x) || (t == root && own && x in lvl'' && x !in lvl)
    {
      assert InUser(mem'', t, x) <==> InUser(mem', t, x) || (t == root && own && x in lvl'' && x !in lvl');
    }
  }

  lemma GrewReflexive(mem: Memory, lvl: map<nat, nat>, root: nat, own: bool)
    ensures Grew(mem, lvl, mem, lvl, root, own)
  {
  }

  /** Creating the missing table on the path of page v is such a growth. */
  lemma CreatedGrew(mem: Memory, lvl: map<nat, nat>, root: nat, v: nat, l: nat, p: nat, f: nat, flags: nat)
    requires WellFormed(mem, lvl) && root in lvl && lvl[root] == 4 && 2 <= l <= 4
             && TableAt(mem, 4, root, v, l) == Table(p)
    requires p in lvl && lvl[p] == l && !At(mem, p, Index(v, l)).present && f < |mem| && f !in lvl
    ensures var mem' := Created(mem, p, Index(v, l), f, flags);
            && Grew(mem, lvl, mem', lvl[f := l - 1], root, Index(v, 4) < USER_SLOTS)
            && TableAt(mem', 4, root, v, l - 1) == Table(f)
  {
    hide Created, Index, Walk, InUser, InUserTabs, InFoot;
    var i := Index(v, l);
    var own := Index(v, 4) < USER_SLOTS;
    var mem', lvl' := Created(mem, p, i, f, flags), lvl[f := l - 1];
    CreatedWellFormed(mem, lvl, p, i, f, flags);
    CreatedTableAt(mem, lvl, p, i, f, flags, root, v, l);
    AtCreated(mem, p, i, f, flags, p, i);
    TableAtStep(mem', 4, root, v, l, p);
    forall t, w | t in lvl && 1 <= lvl[t] <= 4
      ensures Walk(mem', lvl[t], t, w) == Walk(mem, lvl[t], t, w)
    {
      CreatedWalk(mem, lvl, p, i, f, flags, t, w);
    }
    forall g, j | g in lvl && lvl[g] >= 2 && At(mem, g, j).present ensures At(mem', g, j) == At(mem, g, j) {
      AtCreated(mem, p, i, f, flags, g, j);
    }
    forall t, j | t in lvl && lvl[t] == 4
      ensures At(mem', t, j) == if t == p && j == i then Entry(f, true, false, flags) else At(mem, t, j)
    {
      AtCreated(mem, p, i, f, flags, t, j);
    }
    if l == 4 { assert p == root; }
    forall t, x | t in lvl && lvl[t] == 4
      ensures InUser(mem', t, x) <==> InUser(mem, t, x) || (t == root && own && x in lvl' && x !in lvl)
    {
      CreatedUser(mem, lvl, t, p, i, f, flags, x);
      ParentOwner(mem, lvl, root, v, l, p, t);
    }
    if own { PathInUserTabs(mem', lvl', root, v, l - 1, f); }
  }

  lemma ParentOwner(mem: Memory, lvl: map<nat, nat>, root: nat, v: nat, l: nat, p: nat, t: nat)
    requires WellFormed(mem, lvl) && root in lvl && lvl[root] == 4 && 2 <= l <= 4
             && TableAt(mem, 4, root, v, l) == Table(p)
    requires p in lvl && lvl[p] == l && t in lvl && lvl[t] == 4
    ensures (p == t && Index(v, l) < USER_SLOTS) || InUserTabs(mem, t, p) <==>
            t == root && Index(v, 4) < USER_SLOTS
  {
    hide Index;
    if l == 4 {
      if InUserTabs(mem, t, p) {
        var j :| 0 <= j < USER_SLOTS && BelowSlot(mem, 4, At(mem, t, j), p);
        assert Links(mem, lvl, t, j) && Leads(mem, lvl, t, j);
        TabsLevel(mem, lvl, At(mem, t, j).frame, p);
      }
    } else {
      PathOwner(mem, lvl, root, v, l, p, t);
    }
  }

  // ----------------------------------------------------------------- destruction

  /** The frames of root are its own tables and pages that are nobody's table. */
  ghost predicate Private(mem: Memory, lvl: map<nat, nat>, root: nat)
  {
    forall x :: InUser(mem, root, x) && x in lvl ==> x == root || InUserTabs(mem, root, x)
  }

  /** The tables that remain once root's frames are gone. */
  ghost function Without(mem: Memory, lvl: map<nat, nat>, root: nat): (r: map<nat, nat>)
    ensures forall x :: x in r <==> x in lvl && !InUser(mem, root, x)
    ensures forall x :: x in r ==> r[x] == lvl[x]
  {
    map x | x in lvl && !InUser(mem, root, x) :: lvl[x]
  }

  /** No remaining table refers to a frame of the destroyed space. */
  lemma WithoutWellFormed(mem: Memory, lvl: map<nat, nat>, root: nat)
    requires WellFormed(mem, lvl) && root in lvl && lvl[root] == 4 && Private(mem, lvl, root)
    ensures WellFormed(mem, Without(mem, lvl, root))
  {
    hide InUser, InUserTabs;
    var lvl' := Without(mem, lvl, root);
    forall f, i | Links(mem, lvl', f, i) ensures Links(mem, lvl, f, i) && Leads(mem, lvl', f, i) {
      assert Links(mem, lvl, f, i) && Leads(mem, lvl, f, i);
      var c := At(mem, f, i).frame;
      if InUser(mem, root, c) {
        if c != root { UserTabsParent(mem, lvl, root, c, f, i); }
      }
    }
    forall f, i, g, j | Links(mem, lvl', f, i) && Links(mem, lvl', g, j) ensures Apart(mem, lvl', f, i, g, j) {
      assert Apart(mem, lvl, f, i, g, j);
    }
  }

  /** Whatever links to a user-half table of root is itself part of root. */
  lemma UserTabsParent(mem: Memory, lvl: map<nat, nat>, root: nat, y: nat, f: nat, i: nat)
    requires WellFormed(mem, lvl) && root in lvl && lvl[root] == 4 && InUserTabs(mem, root, y)
    requires Links(mem, lvl, f, i) && At(mem, f, i).frame == y
    ensures InUser(mem, root, f)
  {
    hide InFoot;
    var j :| 0 <= j < USER_SLOTS && BelowSlot(mem, 4, At(mem, root, j), y);
    assert Links(mem, lvl, root, j) && Leads(mem, lvl, root, j);
    var c := At(mem, root, j).frame;
    if y == c {
      assert Apart(mem, lvl, root, j, f, i);
    } else {
      TabsParent(mem, lvl, c, y, f, i);
      assert BelowSlot(mem, 4, At(mem, root, j), f);
      assert InUserTabs(mem, root, f);
      UserTabsInUser(mem, root, f);
    }
  }

  lemma {:induction false} TabsParent(mem: Memory, lvl: map<nat, nat>, t: nat, y: nat, f: nat, i: nat)
    requires WellFormed(mem, lvl) && t in lvl && lvl[t] <= 3 && InTabs(mem, lvl[t], t, y) && y != t
    requires Links(mem, lvl, f, i) && At(mem, f, i).frame == y
    ensures InTabs(mem, lvl[t], t, f)
    decreases lvl[t]
  {
    var j :| 0 <= j < SLOTS && BelowSlot(mem, lvl[t], At(mem, t, j), y);
    assert Links(mem, lvl, t, j) && Leads(mem, lvl, t, j);
    var c := At(mem, t, j).frame;
    if y == c {
      assert Apart(mem, lvl, t, j, f, i);
    } else {
      TabsParent(mem, lvl, c, y, f, i);
      assert BelowSlot(mem, lvl[t], At(mem, t, j), f);
    }
  }

  /** Memory that agrees on all tables has the same trees. */
  lemma {:induction false} SameFoot(mem: Memory, lvl: map<nat, nat>, mem': Memory, t: nat, x: nat)
    requires WellFormed(mem, lvl) && t in lvl && forall g, j :: g in lvl ==> At(mem', g, j) == At(mem, g, j)
    ensures InFoot(mem', lvl[t], t, x) <==> InFoot(mem, lvl[t], t, x)
    decreases lvl[t], 1
  {
    hide InEntry;
    forall j | 0 <= j < SLOTS
      ensures InEntry(mem', lvl[t], At(mem', t, j), x) <==> InEntry(mem, lvl[t], At(mem, t, j), x)
    {
      SameSlot(mem, lvl, mem', t, j, x);
    }
  }

  lemma {:induction false} SameSlot(mem: Memory, lvl: map<nat, nat>, mem': Memory, t: nat, j: nat, x: nat)
    requires WellFormed(mem, lvl) && t in lvl && j < SLOTS && forall g, j :: g in lvl ==>
             At(mem', g, j) == At(mem, g, j)
    ensures InEntry(mem', lvl[t], At(mem', t, j), x) <==> InEntry(mem, lvl[t], At(mem, t, j), x)
    decreases lvl[t], 0
  {
    hide InFoot;
    if Links(mem, lvl, t, j) {
      assert Leads(mem, lvl, t, j);
      SameFoot(mem, lvl, mem', At(mem, t, j).frame, x);
    }
  }
}
