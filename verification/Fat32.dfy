/**
 * The mounted volume of kernel/fs/fat32.c: two allocation tables, the data
 * clusters and the live files. Disk transfers succeed; a file's node and its
 * directory entry are its start cluster, its size, and the size in the entry.
 */
module Fat32 {
  import opened Basics
  import opened Bits
  import opened FatChains

  /** start and size are the node's, entry is the size in its directory entry, slot where that entry is. */
  datatype File = File(start: nat, size: nat, entry: nat, slot: nat)

  /** An entry of the directory: never used or deleted, or of a file. */
  datatype Slot = Vacant | Taken(id: nat)

  /** Every file has its entry, and every entry its file. */
  ghost predicate DirOk(dir: seq<Slot>, files: map<nat, File>)
  {
    && (forall f :: f in files ==> files[f].slot < |dir| && dir[files[f].slot] == Taken(f))
    && (forall i :: 0 <= i < |dir| && dir[i].Taken? ==> dir[i].id in files && files[dir[i].id].slot == i)
  }

  const U32 := 0x1_0000_0000
  const U64 := 0x1_0000_0000_0000_0000

  /** The file's chain is well formed and long enough for its size. */
  ghost predicate FileOk(fat: seq<u32>, bpc: nat, f: File, c: seq<nat>)
  {
    Chain(fat, f.start, c) && f.size <= |c| * bpc
  }

  /** No cluster belongs to two files. */
  ghost predicate Disjoint(chains: map<nat, seq<nat>>)
  {
    forall f, g, x :: f in chains && g in chains && x in chains[f] && x in chains[g] ==> f == g
  }

  ghost predicate InChains(chains: map<nat, seq<nat>>, x: nat)
  {
    exists f :: f in chains && x in chains[f]
  }

  /** No cluster leaks: the occupied entries are the reserved ones and those of live files, and no others. */
  ghost predicate Accounted(fat: seq<u32>, chains: map<nat, seq<nat>>, reserved: set<nat>)
  {
    && (forall x :: 2 <= x < |fat| ==> (Entry(fat[x]) != 0 <==> x in reserved || InChains(chains, x)))
    && (forall x :: x in reserved ==> !InChains(chains, x))
  }

  lemma ChainInRange(fat: seq<u32>, data: seq<seq<byte>>, start: nat, c: seq<nat>)
    requires Chain(fat, start, c) && |fat| == |data|
    ensures InRange(data, c)
  {
  }

  /** Byte k of a file to which the first n bytes of buf have been written at offset off. */
  ghost function Expected(d0: seq<seq<byte>>, bpc: nat, c0: seq<nat>, off: nat, buf: seq<byte>, n: nat, k: nat): byte
    requires Clusters(d0, bpc) && InRange(d0, c0) && n <= |buf|
  {
    if off <= k < off + n then buf[k - off]
    else if k < |c0| * bpc then ByteAt(d0, bpc, c0, k)
    else 0
  }

  /** The first m bytes of the chain c0, and zeros where it is shorter. */
  ghost function Pad(d0: seq<seq<byte>>, bpc: nat, c0: seq<nat>, m: nat): (r: seq<byte>)
    requires Clusters(d0, bpc) && InRange(d0, c0)
    ensures |r| == m
  {
    seq(m, k requires 0 <= k < m => if k < |c0| * bpc then ByteAt(d0, bpc, c0, k) else 0)
  }

  /** The chain c in d holds the old bytes, zeros beyond them, and the first n bytes of buf at off. */
  ghost predicate Holds(d: seq<seq<byte>>, bpc: nat, c: seq<nat>, d0: seq<seq<byte>>, c0: seq<nat>, off: nat,
      buf: seq<byte>, n: nat)
    requires Clusters(d, bpc) && InRange(d, c) && Clusters(d0, bpc) && InRange(d0, c0) && n <= |buf|
  {
    forall k :: 0 <= k < |c| * bpc ==> ByteAt(d, bpc, c, k) == Expected(d0, bpc, c0, off, buf, n, k)
  }

  lemma PadPrefix(d0: seq<seq<byte>>, bpc: nat, c0: seq<nat>, m: nat, n: nat)
    requires Clusters(d0, bpc) && InRange(d0, c0) && n <= |c0| * bpc
    ensures m >= n ==> Pad(d0, bpc, c0, m)[..n] == Bytes(d0, bpc, c0, n)
  {
    hide ByteAt;
  }

  ghost predicate Inside(chains: map<nat, seq<nat>>, clusters: nat)
  {
    forall f, x :: f in chains && x in chains[f] ==> x < clusters
  }

  /** The table's entries beyond the last cluster of the volume are marked as taken. */
  ghost predicate TailReserved(reserved: set<nat>, clusters: nat, size: nat)
  {
    forall x :: 2 <= x < size && clusters <= x ==> x in reserved
  }

  /** The files of a table: chains in it that share nothing and account for it. */
  ghost predicate Filed(fat: seq<u32>, chains: map<nat, seq<nat>>, reserved: set<nat>)
  {
    && (forall f :: f in chains ==> chains[f] != [] && Chain(fat, chains[f][0], chains[f]))
    && Disjoint(chains) && Accounted(fat, chains, reserved)
  }

  lemma KeptInside(fat: seq<u32>, chains: map<nat, seq<nat>>, reserved: set<nat>, clusters: nat)
    requires Accounted(fat, chains, reserved) && TailReserved(reserved, clusters, |fat|)
    requires forall f, x :: f in chains && x in chains[f] ==> 2 <= x < |fat|
    ensures Inside(chains, clusters)
  {
    forall f, x | f in chains && x in chains[f] ensures x < clusters { assert InChains(chains, x); }
  }

  /**
   * fat_alloc_cluster searches all of the table, which is whole sectors long, and
   * not only the entries that have a cluster. No table of that length has a file
   * past the last cluster exactly when the entries there are marked as taken.
   */
  lemma InsideIff(size: nat, clusters: nat, reserved: set<nat>)
    requires size <= EOC
    ensures (forall fat: seq<u32>, chains :: |fat| == size && Filed(fat, chains, reserved) ==> Inside(chains, clusters))
            <==> TailReserved(reserved, clusters, size)
  {
    if TailReserved(reserved, clusters, size) {
      forall fat: seq<u32>, chains | |fat| == size && Filed(fat, chains, reserved) ensures Inside(chains, clusters) {
        KeptInside(fat, chains, reserved, clusters);
      }
    } else {
      var x :| 2 <= x < size && clusters <= x && x !in reserved;
      FileAt(size, reserved, x);
      assert x in map[0 := [x]][0] && !Inside(map[0 := [x]], clusters);
    }
  }

  /** A table whose entries are taken where it says so. */
  function Table(size: nat, taken: set<nat>): (fat: seq<u32>)
    ensures |fat| == size
    ensures forall x :: 0 <= x < size ==> (Entry(fat[x]) != 0 <==> x < 2 || x in taken)
    ensures forall x :: 0 <= x < size && x in taken ==> Entry(fat[x]) >= EOC
  {
    seq(size, x => if x < 2 || x in taken then 0x0FFF_FFFF else 0)
  }

  /** A file of the one cluster x. */
  lemma FileAt(size: nat, reserved: set<nat>, x: nat)
    requires 2 <= x < size && x !in reserved
    ensures Filed(Table(size, reserved + {x}), map[0 := [x]], reserved)
  {
    var fat, chains := Table(size, reserved + {x}), map[0 := [x]];
    assert Chain(fat, x, [x]);
    forall y ensures InChains(chains, y) <==> y == x {
      if y == x { assert x in chains[0]; }
    }
  }

  function Max(a: nat, b: nat): nat { if a > b then a else b }

  /** room with piece written at offset; when that passes size, the result is cut to the 32-bit end. */
  function Overwritten(room: seq<byte>, size: nat, offset: nat, piece: seq<byte>): (r: seq<byte>)
    requires |room| == Max(offset, size)
    ensures |r| == if offset + |piece| > size then (offset + |piece|) % U32 else size
  {
    var all := Splice(room, offset, piece);
    if offset + |piece| > size then all[..(offset + |piece|) % U32] else all
  }

  class Volume {
    const bpc: nat
    var fat1: seq<u32>
    var fat2: seq<u32>
    var data: seq<seq<byte>>
    var files: map<nat, File>
    /** The directory's entries in the order of its clusters, which are never extended. */
    var dir: seq<Slot>
    ghost var chains: map<nat, seq<nat>>
    /** Clusters that belong to no file: directories, bad clusters. */
    ghost const reserved: set<nat>

    ghost predicate Valid()
      reads this
    {
      && |fat1| == |fat2| == |data| && |fat1| <= EOC && Mirrored(fat1, fat2) && Clusters(data, bpc)
      && files.Keys == chains.Keys
      && (forall f :: f in files ==> FileOk(fat1, bpc, files[f], chains[f]))
      && Disjoint(chains) && Accounted(fat1, chains, reserved) && DirOk(dir, files)
    }

    /** A volume without files, for any set of clusters that are taken by something else. */
    constructor (data: seq<seq<byte>>, bpc: nat, slots: nat, taken: set<nat>)
      requires Clusters(data, bpc) && |data| <= EOC
      ensures Valid() && files == map[] && this.data == data && this.bpc == bpc && reserved == taken
      ensures |dir| == slots && forall x :: 2 <= x < |fat1| ==> (Free(fat1, x) <==> x !in taken)
    {
      this.data, this.bpc, fat1, fat2 := data, bpc, Table(|data|, taken), Table(|data|, taken);
      files, chains, dir, reserved := map[], map[], seq(slots, _ => Vacant), taken;
    }

    /** How many clusters a file has, and how many no one has. */
    ghost function Length(f: nat): nat
      requires Valid() && f in files
      reads this
    {
      |chains[f]|
    }

    ghost function FreeClusters(): nat
      reads this`fat1
    {
      |FreeSet(fat1)|
    }

    ghost function Contents(f: nat): (r: seq<byte>)
      requires Valid() && f in files
      reads this
      ensures |r| == files[f].size
    {
      ChainInRange(fat1, data, files[f].start, chains[f]);
      Bytes(data, bpc, chains[f], files[f].size)
    }

    /** The first m bytes behind f's start on the disk: its clusters, past its end as well, then zeros. */
    ghost function Room(f: nat, m: nat): (r: seq<byte>)
      requires Valid() && f in files
      reads this
      ensures |r| == m
      ensures m >= files[f].size ==> r[..files[f].size] == Contents(f)
    {
      hide Disjoint, Accounted, DirOk, Mirrored, Chain, ByteAt, Pad, Bytes;
      var start := files[f].start;
      ChainInRange(fat1, data, start, chains[f]);
      PadPrefix(data, bpc, chains[f], m, files[f].size);
      Pad(data, bpc, chains[f], m)
    }

    /** What each file is and holds. */
    ghost function Snapshot(): (m: map<nat, (File, seq<byte>)>)
      requires Valid()
      reads this
    {
      map f | f in files :: (files[f], Contents(f))
    }

    /** The files are those of m, and every one but f is as m says. */
    ghost predicate Others(f: nat, m: map<nat, (File, seq<byte>)>)
      requires Valid()
      reads this
    {
      files.Keys == m.Keys && forall g :: g in files && g != f ==> (files[g], Contents(g)) == m[g]
    }

    /** fat_next_cluster */
    method NextCluster(c: nat) returns (next: nat)
      requires c < |fat1|
      ensures next == Entry(fat1[c])
    {
      next := Entry(fat1[c]);
    }

    /** fat_set_entry: both copies, keeping the top four bits. */
    method SetEntry(c: nat, v: nat)
      requires c < |fat1| == |fat2|
      modifies this`fat1, this`fat2
      ensures fat1 == old(fat1)[c := Replace(old(fat1)[c], v)]
      ensures fat2 == old(fat2)[c := Replace(old(fat2)[c], v)]
    {
      fat1 := fat1[c := Replace(fat1[c], v)];
      fat2 := fat2[c := Replace(fat2[c], v)];
    }

    /** fat_alloc_cluster: the first free cluster, marked 0xFFFFFFFF in both copies; 0 when there is none. */
    method AllocCluster() returns (c: nat)
      requires |fat1| == |fat2|
      modifies this`fat1, this`fat2
      ensures c == 0 ==> Full(fat1) && fat1 == old(fat1) && fat2 == old(fat2)
      ensures c != 0 ==>
                && Free(old(fat1), c) && (forall x :: 2 <= x < c ==> !Free(old(fat1), x))
                && fat1 == old(fat1)[c := 0xFFFF_FFFF] && fat2 == old(fat2)[c := 0xFFFF_FFFF]
    {
      c := 0;
      while c < |fat1|
        invariant 0 <= c <= |fat1| && fat1 == old(fat1) && fat2 == old(fat2)
        invariant forall x :: 2 <= x < c ==> Entry(fat1[x]) != 0
      {
        if Entry(fat1[c]) == 0 && c >= 2 {
          fat1 := fat1[c := 0xFFFF_FFFF];
          fat2 := fat2[c := 0xFFFF_FFFF];
          return;
        }
        c := c + 1;
      }
      c := 0;
    }

    /** fat_free_chain: every entry of the chain becomes free, nothing else changes. */
    method FreeChain(start: nat, ghost chain: seq<nat>)
      requires |fat1| == |fat2| && |fat1| <= EOC && Mirrored(fat1, fat2) && Chain(fat1, start, chain)
      modifies this`fat1, this`fat2
      ensures |fat1| == |old(fat1)| && Mirrored(fat1, fat2)
      ensures forall x :: 0 <= x < |fat1| ==> Entry(fat1[x]) == if x in chain then 0 else Entry(old(fat1)[x])
    {
      var cluster := start;
      ghost var i := 0;
      while 2 <= cluster < EOC
        invariant 0 <= i <= |chain| && |fat1| == |old(fat1)| && Mirrored(fat1, fat2)
        invariant if i < |chain| then cluster == chain[i] else cluster < 2 || cluster >= EOC
        invariant forall x :: 0 <= x < |fat1| ==> Entry(fat1[x]) == if x in chain[..i] then 0 else Entry(old(fat1)[x])
        decreases |chain| - i
      {
        assert chain[i] !in chain[..i];
        var next := NextCluster(cluster);
        SetEntry(cluster, 0);
        assert chain[..i + 1] == chain[..i] + [chain[i]];
        cluster := next;
        i := i + 1;
      }
      assert chain[..i] == chain;
    }

    /** Allocate a cluster and link it behind last, or make it the start; 0 when the disk is full. */
    method Attach(f: nat, last: nat) returns (nc: nat)
      requires Valid() && f in files && (chains[f] != [] ==> last == chains[f][|chains[f]| - 1])
      modifies this`fat1, this`fat2, this`files, this`chains
      ensures Valid() && files.Keys == old(files.Keys)
      ensures FreeSet(fat1) == FreeSet(old(fat1)) - {nc} && (nc != 0 ==> nc in FreeSet(old(fat1)))
      ensures nc == 0 ==>
              Full(fat1) && fat1 == old(fat1) && fat2 == old(fat2) && files == old(files) && chains == old(chains)
      ensures nc != 0 ==>
                && nc < |data| && (forall g :: g in old(chains) ==> nc !in old(chains)[g])
                && chains == old(chains)[f := old(chains)[f] + [nc]]
                && files == old(files)[f := old(files)[f].(
                              start := if old(chains)[f] == [] then nc else old(files)[f].start)]
    {
      hide Chain, Entry, Replace, Disjoint, Accounted, DirOk;
      ghost var fat0, fat0' := fat1, fat2;
      ghost var first := files[f].start < 2;
      nc := AllocCluster();
      if nc == 0 { return; }
      LinkChains(fat0, files, chains, f, nc, last);
      LinkMirrored(fat0, fat0', nc, last, first);
      LinkAccounted(fat0, chains, reserved, f, nc, last, first);
      LinkFree(fat0, nc, last, first);
      DirKept(dir, files, f);
      if files[f].start < 2 {
        files := files[f := files[f].(start := nc)];
      } else {
        SetEntry(last, nc);
      }
      assert fat1 == Link(fat0, nc, last, first) && fat2 == Link(fat0', nc, last, first);
      chains := chains[f := chains[f] + [nc]];
      MulMono(|old(chains)[f]|, |chains[f]|, bpc);
    }

    /** The extension step of fat32_write: attach a cluster and fill it with zeros. */
    method Extend(f: nat, last: nat, ghost m: map<nat, (File, seq<byte>)>) returns (nc: nat)
      requires Valid() && f in files && (chains[f] != [] ==> last == chains[f][|chains[f]| - 1]) && Others(f, m)
      modifies this
      ensures Valid() && f in files && Others(f, m)
      ensures dir == old(dir)
      ensures FreeSet(fat1) == FreeSet(old(fat1)) - {nc} && (nc != 0 ==> nc in FreeSet(old(fat1)))
      ensures nc == 0 ==> Full(fat1) && data == old(data) && files == old(files) && chains == old(chains)
      ensures nc != 0 ==>
                && nc < |old(data)| && nc !in old(chains)[f]
                && chains[f] == old(chains)[f] + [nc] && files[f] == old(files)[f].(start := files[f].start)
                && data == old(data)[nc := seq(bpc, i => 0)]
    {
      hide Chain, Disjoint, Mirrored, Bytes, ByteAt, Full, Accounted, DirOk;
      nc := Attach(f, last);
      if nc == 0 { return; }
      data := data[nc := seq(bpc, i => 0)];
      forall g | g in files && g != f ensures g in old(files) && Contents(g) == old(Contents(g)) {
        ChainInRange(fat1, data, files[g].start, chains[g]);
        BytesFrame(old(data), data, bpc, chains[g], files[g].size);
      }
    }

    /** Read a cluster, overwrite part of it, write it back. */
    method StoreChunk(f: nat, cluster: nat, ghost i: nat, o: nat, piece: seq<byte>,
        ghost m: map<nat, (File, seq<byte>)>)
      requires Valid() && f in files && i < |chains[f]| && cluster == chains[f][i] && cluster < |data|
               && o + |piece| <= bpc
      requires Others(f, m)
      modifies this`data
      ensures Valid() && Others(f, m)
      ensures data == old(data)[cluster := Patched(old(data)[cluster], o, piece)]
    {
      hide Chain, Mirrored, Accounted, DirOk;
      data := data[cluster := Patched(data[cluster], o, piece)];
      assert cluster in chains[f];
      forall g | g in files && g != f ensures Contents(g) == old(Contents(g)) {
        ChainInRange(fat1, data, files[g].start, chains[g]);
        BytesFrame(old(data), data, bpc, chains[g], files[g].size);
      }
    }

    /** n bytes of the job are written; the rest of the file and all other files are as before. */
    ghost predicate Progress(j: Job, n: nat)
      reads this
    {
      && Valid() && j.f in files && files[j.f] == File(files[j.f].start, j.size, j.entry, j.slot) && dir == j.dir
      && Others(j.f, j.others)
      && Clusters(j.d0, bpc) && InRange(j.d0, j.c0) && n <= |j.buf|
      && j.c0 <= chains[j.f] && InRange(data, chains[j.f])
      && (n > 0 ==> j.off + n <= |chains[j.f]| * bpc)
      && Holds(data, bpc, chains[j.f], j.d0, j.c0, j.off, j.buf, n)
    }

    lemma ProgressFacts(j: Job, n: nat)
      requires Progress(j, n)
      ensures j.f in files && j.f in chains && |fat1| == |data| && |fat1| <= EOC && bpc > 0
      ensures Chain(fat1, files[j.f].start, chains[j.f])
      ensures files[j.f].start < 2 <==> chains[j.f] == []
      ensures chains[j.f] != [] ==> files[j.f].start == chains[j.f][0]
    {
    }

    /** Every cluster the chain has gained was free before, and was needed. */
    ghost predicate Space(j: Job)
      reads this`chains, this`fat1
    {
      && j.f in chains && |chains[j.f]| + |FreeSet(fat1)| == j.room && |j.c0| <= |chains[j.f]|
      && (|chains[j.f]| > |j.c0| ==> StartOf(|chains[j.f]| - 1, bpc) < j.off + |j.buf|)
    }

    /** One extension during a write; what is written so far ends at or before the end of the chain. */
    method ExtendDuring(last: nat, ghost j: Job, ghost n: nat, f: nat) returns (nc: nat)
      requires Progress(j, n) && f == j.f && (chains[f] != [] ==> last == chains[f][|chains[f]| - 1])
      requires Space(j) && StartOf(|chains[f]|, bpc) < j.off + |j.buf|
      modifies this
      ensures Progress(j, n) && Space(j)
      ensures nc == 0 ==> Full(fat1) && chains[f] == old(chains[f])
      ensures nc != 0 ==> 2 <= nc < |fat1| && chains[f] == old(chains[f]) + [nc]
    {
      hide Chain, Disjoint, Mirrored, Bytes, Holds, Clusters, Volume.Others, Accounted, DirOk, StartOf, FreeSet, Full,
          Volume.Space;
      ghost var c, free0 := chains[f], FreeSet(fat1);
      SpaceIs(j);
      nc := Extend(f, last, j.others);
      if nc == 0 {
        FullSet(fat1);
        SpaceSame(j, c, free0);
      } else {
        SpaceGrows(j, c, nc, free0);
        ChainBounds(fat1, files[f].start, chains[f], |c|);
        HoldsExtend(old(data), bpc, c, nc, j.d0, j.c0, j.off, j.buf, n);
        MulMono(|c|, |c| + 1, bpc);
        ChainInRange(fat1, data, files[f].start, chains[f]);
      }
    }

    lemma SpaceIs(j: Job)
      requires Space(j)
      ensures j.f in chains && |chains[j.f]| + |FreeSet(fat1)| == j.room && |j.c0| <= |chains[j.f]|
      ensures |chains[j.f]| > |j.c0| ==> StartOf(|chains[j.f]| - 1, bpc) < j.off + |j.buf|
    {
    }

    lemma SpaceSame(j: Job, c: seq<nat>, free0: set<nat>)
      requires j.f in chains && chains[j.f] == c && FreeSet(fat1) == free0 - {0} && 0 !in free0
      requires |c| + |free0| == j.room && |j.c0| <= |c| && (|c| > |j.c0| ==> StartOf(|c| - 1, bpc) < j.off + |j.buf|)
      ensures Space(j)
    {
    }

    lemma SpaceGrows(j: Job, c: seq<nat>, nc: nat, free0: set<nat>)
      requires j.f in chains && chains[j.f] == c + [nc] && FreeSet(fat1) == free0 - {nc} && nc in free0
      requires |c| + |free0| == j.room && |j.c0| <= |c| && StartOf(|c|, bpc) < j.off + |j.buf|
      ensures Space(j)
    {
    }

    lemma FullSpace(j: Job)
      requires Space(j) && Full(fat1)
      ensures |chains[j.f]| == j.room
    {
      FullSet(fat1);
    }

    lemma ClusterSize(j: Job, n: nat)
      requires Progress(j, n)
      ensures bpc > 0 && j.f in chains
    {
    }

    /** One step along the chain, which is extended when it ends here; 0 when the disk is full. */
    method SeekStep(f: nat, cluster: nat, ghost ci: nat, ghost j: Job) returns (next: nat)
      requires Progress(j, 0) && j.f == f && ci < |chains[f]| && cluster == chains[f][ci]
      requires Space(j) && StartOf(ci + 1, bpc) <= j.off && j.buf != []
      modifies this
      ensures Progress(j, 0) && Space(j) && f in chains
      ensures next == 0 ==> Full(fat1) && StartOf(|chains[f]|, bpc) <= j.off
      ensures next != 0 ==> ci + 1 < |chains[f]| && next == chains[f][ci + 1]
    {
      hide Volume.Progress, Volume.Space, Chain, Full, StartOf;
      ProgressFacts(j, 0);
      ChainBounds(fat1, files[f].start, chains[f], ci);
      next := NextCluster(cluster);
      if next >= EOC || next < 2 {
        EndOfChain(fat1, files[f].start, chains[f], ci);
        next := ExtendDuring(cluster, j, 0, f);
        ClusterSize(j, 0);
      } else {
        NotEndOfChain(fat1, files[f].start, chains[f], ci);
      }
    }

    /** The seek loop of fat32_write: walk to the cluster that contains offset, extending the chain as needed. */
    method Seek(f: nat, offset: nat, ghost j: Job) returns (cluster: nat, clusterOffset: nat, ghost ci: nat)
      requires Progress(j, 0) && j.f == f && j.off == offset && chains[f] != [] && Space(j) && j.buf != []
      modifies this
      ensures Progress(j, 0) && Space(j)
      ensures cluster == 0 ==> Full(fat1) && StartOf(|chains[f]|, bpc) <= offset
      ensures cluster != 0 ==>
                && ci < |chains[f]| && cluster == chains[f][ci] && clusterOffset == StartOf(ci, bpc)
                && clusterOffset <= offset < clusterOffset + bpc
    {
      hide Volume.Progress, Volume.Space, Volume.Valid, Chain, Full, StartOf;
      ProgressFacts(j, 0);
      NextStart(0, bpc);
      cluster, clusterOffset, ci := files[f].start, 0, 0;
      while clusterOffset + bpc <= offset
        invariant Progress(j, 0) && Space(j) && f in chains && ci < |chains[f]| && cluster == chains[f][ci]
        invariant clusterOffset == StartOf(ci, bpc) <= offset
        decreases offset - clusterOffset
      {
        NextStart(ci, bpc);
        var next := SeekStep(f, cluster, ci, j);
        if next == 0 { return 0, 0, 0; }
        ClusterSize(j, 0);
        NextStart(ci, bpc);
        cluster, clusterOffset, ci := next, clusterOffset + bpc, ci + 1;
      }
      ProgressFacts(j, 0);
      ChainBounds(fat1, files[f].start, chains[f], ci);
    }

    /** One cluster's worth of the write loop. */
    method WriteCluster(f: nat, cluster: nat, ghost ci: nat, o: nat, piece: seq<byte>, ghost j: Job, ghost n: nat)
      requires Progress(j, n) && f == j.f && ci < |chains[f]| && cluster == chains[f][ci] && o + |piece| <= bpc
      requires StartOf(ci, bpc) + o == j.off + n && n + |piece| <= |j.buf| && piece == j.buf[n..n + |piece|]
      modifies this`data
      ensures Progress(j, n + |piece|)
    {
      hide Disjoint, Mirrored, Bytes, Holds, Clusters, Volume.Others, Distinct, Accounted, DirOk;
      ChainInRange(fat1, data, files[f].start, chains[f]);
      HoldsPatch(data, bpc, chains[f], ci, o, piece, j.d0, j.c0, j.off, j.buf, n);
      StoreChunk(f, cluster, ci, o, piece, j.others);
    }

    /** The write loop of fat32_write; stops early only when the disk is full. */
    method WriteOut(f: nat, offset: nat, buf: seq<byte>, cluster0: nat, clusterOffset: nat, ghost ci0: nat,
        ghost j: Job)
      returns (out: nat)
      requires Progress(j, 0) && j.f == f && j.off == offset && j.buf == buf
      requires ci0 < |chains[f]| && cluster0 == chains[f][ci0] && clusterOffset == StartOf(ci0, bpc)
      requires clusterOffset <= offset < clusterOffset + bpc && Space(j)
      modifies this
      ensures out <= |buf| && Progress(j, out) && Space(j)
      ensures out < |buf| ==> Full(fat1) && StartOf(|chains[f]|, bpc) <= offset + out
    {
      hide Volume.Progress, Volume.Space, Volume.Valid, Chain, Full, StartOf;
      ClusterSize(j, 0);
      var cluster: nat, prev: nat := cluster0, 0;
      ghost var ci: nat := ci0;
      out := 0;
      while out < |buf|
        invariant out <= |buf| && Progress(j, out) && Space(j) && f in chains && ci <= |chains[f]|
        invariant out == 0 ==> ci == ci0 && ci < |chains[f]| && cluster == chains[f][ci]
        invariant out > 0 ==> ci >= 1 && prev == chains[f][ci - 1] && prev < |fat1| && cluster == Entry(fat1[prev])
        invariant 0 < out < |buf| ==> offset + out == StartOf(ci, bpc)
        decreases |buf| - out
      {
        cluster := CurrentCluster(f, out, cluster, prev, ci, j);
        if cluster == 0 { return; }
        ClusterSize(j, out);
        var o := if out == 0 then offset - clusterOffset else 0;
        var len := Min(bpc - o, |buf| - out);
        WriteCluster(f, cluster, ci, o, buf[out..out + len], j, out);
        out := out + len;
        NextStart(ci, bpc);
        prev := cluster;
        cluster := NextCluster(cluster);
        ci := ci + 1;
      }
    }

    /** The cluster to write next: the one the chain led to, or a new one at its end; 0 when the disk is full. */
    method CurrentCluster(f: nat, out: nat, cluster: nat, prev: nat, ghost ci: nat, ghost j: Job) returns (r: nat)
      requires Progress(j, out) && j.f == f && f in chains && ci <= |chains[f]|
      requires out == 0 ==> ci < |chains[f]| && cluster == chains[f][ci]
      requires out > 0 ==> ci >= 1 && prev == chains[f][ci - 1] && prev < |fat1| && cluster == Entry(fat1[prev])
      requires Space(j) && out < |j.buf| && (out > 0 ==> j.off + out == StartOf(ci, bpc))
      modifies this
      ensures Progress(j, out) && Space(j) && f in chains
      ensures r == 0 ==> Full(fat1) && StartOf(|chains[f]|, bpc) <= j.off + out
      ensures r != 0 ==>
              ci < |chains[f]| && r == chains[f][ci] && r < |fat1|
              && (ci > 0 ==> chains[f][ci - 1] == old(chains[f][ci - 1]))
    {
      hide Volume.Progress, Volume.Space, Chain, Full, StartOf;
      ProgressFacts(j, out);
      if out > 0 { AfterCluster(fat1, files[f].start, chains[f], ci - 1); }
      if ci < |chains[f]| { ChainBounds(fat1, files[f].start, chains[f], ci); }
      r := cluster;
      if cluster < 2 || cluster >= EOC {
        r := ExtendDuring(prev, j, out, f);
        ClusterSize(j, out);
      }
    }

    /** What f holds once piece has been written at offset: spliced in, then cut to the 32-bit size. */
    ghost function Written(f: nat, offset: nat, piece: seq<byte>): seq<byte>
      requires Valid() && f in files
      reads this
    {
      if piece == [] then Contents(f)
      else Overwritten(Room(f, Max(offset, files[f].size)), files[f].size, offset, piece)
    }

    lemma WrittenAt(f: nat, offset: nat)
      requires Valid() && f in files
      ensures f in chains && InRange(data, chains[f]) && files[f].size <= |chains[f]| * bpc
      ensures Contents(f) == Bytes(data, bpc, chains[f], files[f].size)
      ensures forall piece :: Written(f, offset, piece) ==
                if piece == [] then Contents(f)
                else Overwritten(Pad(data, bpc, chains[f], Max(offset, files[f].size)), files[f].size, offset, piece)
    {
      ChainInRange(fat1, data, files[f].start, chains[f]);
    }

    /** Within the file or at its end, and below 4 GB, that is a splice of the contents. */
    lemma WrittenWithin(f: nat, offset: nat, piece: seq<byte>)
      requires Valid() && f in files && offset <= files[f].size && offset + |piece| < U32
      ensures Written(f, offset, piece) == Splice(Contents(f), offset, piece)
    {
      hide Volume.Valid, Volume.Contents, Volume.Room;
      var size := files[f].size;
      assert Room(f, size)[..size] == Room(f, size);
      assert offset + |piece| > size ==> (offset + |piece|) % U32 == offset + |piece|;
      if piece == [] { assert Contents(f)[..offset] + Contents(f)[offset..] == Contents(f); }
    }

    /**
     * fat32_write: the number of bytes written. Short only when the disk is full.
     * The contents become the old ones, extended by what the file's clusters hold,
     * with the written bytes spliced in; the size is kept in 32 bits, and the
     * directory entry takes it over unless it is 0xFFFFFFFF. No other file changes.
     */
    method Write(f: nat, offset: nat, buf: seq<byte>) returns (n: nat)
      requires Valid() && f in files
      modifies this
      ensures Valid() && f in files && Others(f, old(Snapshot())) && dir == old(dir)
              && files[f].slot == old(files[f].slot)
      ensures n <= |buf| && (n < |buf| ==> Full(fat1))
      ensures buf != [] ==>
                Amounts(old(Length(f)), old(FreeClusters()), Length(f), FreeClusters(), bpc, offset, |buf|, n)
      ensures Contents(f) == old(Written(f, offset, buf[..n]))
      ensures files[f].size ==
              if n > 0 && offset + n > old(files[f].size) then (offset + n) % U32 else old(files[f].size)
      ensures files[f].entry ==
              if n > 0 && offset + n > old(files[f].size) && (offset + n) % U32 != U32 - 1 then (offset + n) % U32
              else old(files[f].entry)
    {
      hide Volume.Progress, Holds, ByteAt, Chain, Disjoint, Mirrored, Clusters, Splice, Full, Volume.Others, Accounted,
          DirOk, Volume.Room, Volume.Written, Pad, Volume.Valid, Volume.Snapshot, Volume.Contents, Bytes, Amounts,
          FreeSet, Volume.Space;
      WrittenAt(f, offset);
      ghost var j := Job(f, files[f].size, files[f].entry, files[f].slot, dir, Snapshot(), data, chains[f], offset,
          buf, |chains[f]| + |FreeSet(fat1)|);
      StartProgress(j);
      ProgressNothing(j);
      if buf == [] { return 0; }
      n := WriteJob(f, offset, buf, j);
      SpaceUsed(j, n);
      if n > 0 {
        ProgressRoom(j, n);
        ProgressStorage(j, n);
        CutTo32(data, bpc, chains[f], offset + n);
      } else {
        ProgressNothing(j);
      }
      ProgressEnds(j, n);
      if n > 0 { SetSize(f, offset + n, j, n); }
    }

    /** Allocate the first cluster if there is none, seek, write. */
    method WriteJob(f: nat, offset: nat, buf: seq<byte>, ghost j: Job) returns (n: nat)
      requires Progress(j, 0) && j.f == f && j.off == offset && j.buf == buf && buf != [] && Space(j)
      modifies this
      ensures n <= |buf| && Progress(j, n) && Space(j)
      ensures n < |buf| ==> Full(fat1) && StartOf(|chains[f]|, bpc) <= offset + n
    {
      hide Volume.Progress, Volume.Space, Full, StartOf;
      ProgressFacts(j, 0);
      NextStart(0, bpc);
      if files[f].start < 2 {
        var nc := ExtendDuring(0, j, 0, f);
        if nc == 0 { return 0; }
      }
      ProgressFacts(j, 0);
      var cluster, clusterOffset;
      ghost var ci;
      cluster, clusterOffset, ci := Seek(f, offset, j);
      if cluster == 0 { return 0; }
      n := WriteOut(f, offset, buf, cluster, clusterOffset, ci, j);
    }

    /** The size update at the end of fat32_write, with fat32_update_dirent, to which all ones mean "no change". */
    method SetSize(f: nat, newEnd: nat, ghost j: Job, ghost n: nat)
      requires Progress(j, n) && j.f == f && n > 0 && newEnd == j.off + n
      modifies this`files
      ensures Valid() && f in files && Others(f, j.others) && dir == old(dir) == j.dir && files[f].slot == j.slot
      ensures files[f].size == if newEnd > j.size then newEnd % U32 else j.size
      ensures files[f].entry == if newEnd > j.size && newEnd % U32 != U32 - 1 then newEnd % U32 else j.entry
      ensures f in chains && InRange(data, chains[f]) && files[f].size <= |chains[f]| * bpc
      ensures Contents(f) == Bytes(data, bpc, chains[f], files[f].size)
    {
      hide Holds, ByteAt, Chain, Disjoint, Mirrored, Accounted, DirOk;
      if newEnd > files[f].size {
        var size := newEnd % U32;
        DirKept(dir, files, f);
        files := files[f := files[f].(size := size, entry := if size != U32 - 1 then size else files[f].entry)];
        assert forall g :: g in files && g != f ==> Contents(g) == old(Contents(g));
      }
    }

    lemma ProgressEnds(j: Job, n: nat)
      requires Progress(j, n)
      ensures Valid() && j.f in files && Others(j.f, j.others) && files[j.f].size == j.size
              && files[j.f].entry == j.entry
      ensures dir == j.dir && files[j.f].slot == j.slot
      ensures InRange(data, chains[j.f]) && Contents(j.f) == Bytes(data, bpc, chains[j.f], j.size)
    {
    }

    lemma StartProgress(j: Job)
      requires Valid() && j.f in files
      requires j == Job(j.f, files[j.f].size, files[j.f].entry, files[j.f].slot, dir, Snapshot(), data, chains[j.f],
               j.off, j.buf, |chains[j.f]| + |FreeSet(fat1)|)
      ensures Progress(j, 0) && Space(j)
    {
      ChainInRange(fat1, data, files[j.f].start, chains[j.f]);
    }

    /** How much a write got, and how many clusters it took. */
    lemma SpaceUsed(j: Job, n: nat)
      requires Progress(j, n) && Space(j) && j.buf != [] && n <= |j.buf|
      requires n < |j.buf| ==> Full(fat1) && StartOf(|chains[j.f]|, bpc) <= j.off + n
      requires |j.c0| <= j.room
      ensures Amounts(|j.c0|, j.room - |j.c0|, |chains[j.f]|, |FreeSet(fat1)|, bpc, j.off, |j.buf|, n)
    {
      hide Volume.Progress, Volume.Space, FreeSet;
      ClusterSize(j, n);
      ProgressStorage(j, n);
      if n < |j.buf| { FullSpace(j); }
      SpaceFacts(j);
      Amount(|j.c0|, |chains[j.f]|, j.room, bpc, j.off, |j.buf|, n);
    }

    lemma SpaceFacts(j: Job)
      requires Space(j)
      ensures |j.c0| <= |chains[j.f]| && |chains[j.f]| + |FreeSet(fat1)| == j.room
      ensures |chains[j.f]| > |j.c0| ==> StartOf(|chains[j.f]| - 1, bpc) < j.off + |j.buf|
    {
    }

    lemma ProgressNothing(j: Job)
      requires Progress(j, 0) && j.size <= |j.c0| * bpc
      ensures j.f in chains && j.size <= |chains[j.f]| * bpc
              && Bytes(data, bpc, chains[j.f], j.size) == Bytes(j.d0, bpc, j.c0, j.size)
    {
      var c := chains[j.f];
      MulMono(|j.c0|, |c|, bpc);
      forall k | 0 <= k < j.size ensures ByteAt(data, bpc, c, k) == ByteAt(j.d0, bpc, j.c0, k) {
        assert ByteAt(data, bpc, c, k) == Expected(j.d0, bpc, j.c0, j.off, j.buf, 0, k);
      }
    }

    lemma ProgressRoom(j: Job, n: nat)
      requires Progress(j, n) && n > 0
      ensures var size := if j.off + n > j.size then j.off + n else j.size;
              && size <= |chains[j.f]| * bpc
              && Bytes(data, bpc, chains[j.f], size)
                 == Splice(Pad(j.d0, bpc, j.c0, Max(j.off, j.size)), j.off, j.buf[..n])
    {
      HoldsPad(data, bpc, chains[j.f], j.d0, j.c0, j.size, j.off, j.buf, n);
    }

    lemma ProgressStorage(j: Job, n: nat)
      requires Progress(j, n)
      ensures j.f in chains && Clusters(data, bpc) && InRange(data, chains[j.f])
      ensures n > 0 ==> j.off + n <= |chains[j.f]| * bpc
    {
    }

    /**
     * fat32_read: up to size bytes from offset on, cut at the end of the file; a size
     * so large that offset + size wraps at 64 bits is not cut, and the read then
     * goes on to the end of the file's last cluster.
     */
    method Read(f: nat, offset: nat, size: nat) returns (r: seq<byte>)
      requires Valid() && f in files && offset < U64 && size < U64
      ensures offset >= files[f].size ==> r == []
      ensures offset < files[f].size && (offset + size < U64 || offset + size - U64 > files[f].size) ==>
                r == Contents(f)[offset..Min(offset + size, files[f].size)]
      ensures offset < files[f].size && offset + size >= U64 && offset + size - U64 <= files[f].size ==>
                var all := StartOf(|chains[f]|, bpc);
                offset <= Min(offset + size, all) && r == Room(f, all)[offset..Min(offset + size, all)]
    {
      hide Volume.Valid, Chain, Clusters, StartOf, Pad, Bytes, ByteAt, Volume.Contents, Volume.Room;
      if offset >= files[f].size { return []; }
      var want := if (offset + size) % U64 > files[f].size then files[f].size - offset else size;
      ReadFacts(f);
      r := ReadChain(files[f].start, offset, want, chains[f]);
      RoomSlice(data, bpc, chains[f], offset, Min(offset + want, StartOf(|chains[f]|, bpc)), r);
      if offset + want <= files[f].size { BytesSlice(data, bpc, chains[f], files[f].size, offset, want, r); }
    }

    lemma ReadFacts(f: nat)
      requires Valid() && f in files && files[f].size > 0
      ensures f in chains && |fat1| == |data| && |fat1| <= EOC && Clusters(data, bpc)
              && Chain(fat1, files[f].start, chains[f])
      ensures InRange(data, chains[f]) && chains[f] != []
              && files[f].size <= |chains[f]| * bpc == StartOf(|chains[f]|, bpc)
      ensures Contents(f) == Bytes(data, bpc, chains[f], files[f].size)
      ensures forall m :: Room(f, m) == Pad(data, bpc, chains[f], m)
    {
      hide Disjoint, Mirrored, Accounted, DirOk;
      ChainInRange(fat1, data, files[f].start, chains[f]);
    }

    /** The skip and copy loops of fat32_read: up to want bytes, or to the end of the chain. */
    method ReadChain(start: nat, offset: nat, want: nat, ghost c: seq<nat>) returns (r: seq<byte>)
      requires |fat1| == |data| && |fat1| <= EOC && Clusters(data, bpc) && Chain(fat1, start, c) && InRange(data, c)
      requires c != [] && offset < |c| * bpc
      ensures |r| == Min(want, |c| * bpc - offset) && forall k :: 0 <= k < |r| ==>
              r[k] == ByteAt(data, bpc, c, offset + k)
    {
      hide Chain, ByteAt, Clusters, StartOf;
      ClustersPositive(data, bpc);
      FirstCluster(fat1, start, c);
      NextStart(0, bpc);
      var cluster, clusterOffset := start, 0;
      ghost var ci: nat := 0;
      while clusterOffset + bpc <= offset
        invariant ci < |c| && cluster == c[ci] && clusterOffset == StartOf(ci, bpc) <= offset
        decreases offset - clusterOffset
      {
        NextStart(ci, bpc);
        WithinChain(c, ci, bpc, offset);
        ChainBounds(fat1, start, c, ci);
        AfterCluster(fat1, start, c, ci);
        ChainBounds(fat1, start, c, ci + 1);
        cluster := NextCluster(cluster);
        clusterOffset := clusterOffset + bpc;
        ci := ci + 1;
      }
      r := CopyOut(start, cluster, offset - clusterOffset, offset, want, c, ci);
    }

    /** The copy loop of fat32_read. */
    method CopyOut(start: nat, cluster0: nat, o0: nat, ghost offset: nat, want: nat, ghost c: seq<nat>, ghost ci0: nat)
        returns (r: seq<byte>)
      requires |fat1| == |data| && |fat1| <= EOC && Clusters(data, bpc) && Chain(fat1, start, c) && InRange(data, c)
      requires ci0 < |c| && cluster0 == c[ci0] && offset == StartOf(ci0, bpc) + o0 && o0 < bpc && offset < |c| * bpc
      ensures |r| == Min(want, |c| * bpc - offset) && forall k :: 0 <= k < |r| ==>
              r[k] == ByteAt(data, bpc, c, offset + k)
    {
      hide Chain, ByteAt, StartOf;
      var cluster := cluster0;
      ghost var ci: nat := ci0;
      ghost var goal: nat := Min(want, |c| * bpc - offset);
      r := [];
      ChainBounds(fat1, start, c, ci0);
      while |r| < want && 2 <= cluster < EOC
        invariant |r| <= goal && ci <= |c|
        invariant |r| == 0 ==> ci == ci0 && cluster == c[ci]
        invariant 0 < |r| < goal ==> offset + |r| == StartOf(ci, bpc) && ci < |c| && cluster == c[ci]
        invariant |r| < goal ==> 2 <= cluster < EOC
        invariant |r| == goal < want ==> cluster >= EOC
        invariant forall k :: 0 <= k < |r| ==> offset + k < |c| * bpc && r[k] == ByteAt(data, bpc, c, offset + k)
        decreases want - |r|
      {
        ChainBounds(fat1, start, c, ci);
        var o := if |r| == 0 then o0 else 0;
        var len := Min(bpc - o, want - |r|);
        var piece := data[cluster][o..o + len];
        ClusterBytes(data, bpc, c, ci, o, piece, offset + |r|);
        r := r + piece;
        NextStart(ci, bpc);
        AfterCluster(fat1, start, c, ci);
        ClusterEnds(c, ci, bpc);
        if ci + 1 < |c| { ChainBounds(fat1, start, c, ci + 1); }
        cluster := NextCluster(cluster);
        ci := ci + 1;
      }
    }

    /** fat32_find_free_dirent: the first vacant entry, or |dir|. */
    method FindFreeDirent() returns (i: nat)
      ensures i <= |dir| && (i < |dir| ==> dir[i] == Vacant)
      ensures forall j :: 0 <= j < i ==> dir[j] != Vacant
    {
      i := 0;
      while i < |dir| && dir[i] != Vacant
        invariant 0 <= i <= |dir| && forall j :: 0 <= j < i ==> dir[j] != Vacant
      {
        i := i + 1;
      }
    }

    /**
     * fat32_create_impl: a new empty file in the first vacant directory entry. Its
     * cluster is taken before an entry is known, and is not zeroed; without an entry
     * it is released.
     */
    method Create(id: nat) returns (ok: bool)
      requires Valid() && id !in files
      modifies this
      ensures Valid() && (ok <==> exists i :: 0 <= i < |old(dir)| && old(dir)[i] == Vacant)
      ensures ok ==>
                && files.Keys == old(files.Keys) + {id} && files[id].size == files[id].entry == 0 && Contents(id) == []
                && files[id].slot < |old(dir)| && old(dir)[files[id].slot] == Vacant
                && dir == old(dir)[files[id].slot := Taken(id)]
                && forall j :: 0 <= j < files[id].slot ==> old(dir)[j] != Vacant
      ensures !ok ==> files == old(files) && dir == old(dir) && FreeSet(fat1) == FreeSet(old(fat1))
      ensures ok ==> FreeSet(fat1) == FreeSet(old(fat1)) - (set x | x in chains[id])
      ensures ok ==> |chains[id]| == if Full(old(fat1)) then 0 else 1
      ensures forall g :: g in old(files) ==>
              g in files && files[g] == old(files)[g] && Contents(g) == old(Snapshot())[g].1
    {
      hide Chain, Disjoint, Mirrored, Entry, Replace, Clusters, ByteAt, Accounted, DirOk, Bytes, Free, Full, FreeSet;
      ghost var m := Snapshot();
      ghost var fat0, fat0' := fat1, fat2;
      var clust := AllocCluster();
      if clust != 0 {
        LinkMirrored(fat0, fat0', clust, clust, true);
        NewChain(fat0, files, chains, id, clust);
        NewAccounted(fat0, chains, reserved, id, clust);
        LinkFree(fat0, clust, clust, true);
        NotFull(fat0, clust);
      } else {
        NoChain(fat1, chains, id);
        EmptyAccounted(fat1, chains, reserved, id);
      }
      var slot := FindFreeDirent();
      if slot == |dir| {
        if clust != 0 {
          SetEntry(clust, 0);
          Released(fat0, fat0', clust, files, chains);
          SameAccounted(fat0, fat1, chains, reserved);
          SameFree(fat0, fat1);
        }
        return false;
      }
      DirAdded(dir, files, id, File(clust, 0, 0, slot));
      dir := dir[slot := Taken(id)];
      files := files[id := File(clust, 0, 0, slot)];
      chains := chains[id := if clust != 0 then [clust] else []];
      ok := true;
    }

    /**
     * fat32_unlink_impl: -1 for a file that is not there; otherwise its entry is
     * deleted and exactly its chain freed.
     */
    method Unlink(f: nat) returns (ret: int)
      requires Valid()
      modifies this
      ensures Valid() && ret == (if f in old(files) then 0 else -1) && files == old(files) - {f}
      ensures dir == if f in old(files) then old(dir)[old(files)[f].slot := Vacant] else old(dir)
      ensures |fat1| == |old(fat1)|
      ensures forall x :: 2 <= x < |fat1| ==>
                (Free(fat1, x) <==> Free(old(fat1), x) || (f in old(chains) && x in old(chains)[f]))
      ensures data == old(data)
      ensures forall g :: g in files ==> Contents(g) == old(Snapshot())[g].1
    {
      hide Chain, Mirrored, Entry, ByteAt, Disjoint, Clusters, Free, Accounted, DirOk;
      if f !in files { return -1; }
      ghost var fat0 := fat1;
      DirRemoved(dir, files, f);
      dir := dir[files[f].slot := Vacant];
      ReleaseChain(files[f].start, chains[f]);
      FreedExactly(fat0, fat1, chains[f]);
      forall g | g in files && g != f ensures Chain(fat1, files[g].start, chains[g]) {
        Apart(chains, f, g);
        Untouched(fat0, fat1, files[g].start, chains[g], chains[f]);
      }
      StillDisjoint(chains, f);
      FreedAccounted(fat0, fat1, chains, reserved, f);
      files := files - {f};
      chains := chains - {f};
      ret := 0;
    }

    /** Writing and then reading any range sees what was written. */
    method WriteThenRead(f: nat, offset: nat, buf: seq<byte>, from: nat, size: nat) returns (n: nat, r: seq<byte>)
      requires Valid() && f in files && from + size < U64
      modifies this
      ensures Valid() && f in files && n <= |buf| && (n < |buf| ==> Full(fat1))
      ensures buf != [] ==>
                Amounts(old(Length(f)), old(FreeClusters()), Length(f), FreeClusters(), bpc, offset, |buf|, n)
      ensures var now := old(Written(f, offset, buf[..n]));
              r == if from >= |now| then [] else now[from..Min(from + size, |now|)]
    {
      hide Volume.Valid, Splice, Volume.Others, Full, Volume.Written, Amounts;
      n := Write(f, offset, buf);
      r := Read(f, from, size);
    }

    /** One operation, skipped when it names a missing or existing file; files it does not name stay as they are. */
    method Apply(op: Op)
      requires Valid()
      modifies this
      ensures Valid()
      ensures forall g :: g in old(files) && !op.Names(g) ==>
                g in files && files[g] == old(files)[g] && Contents(g) == old(Snapshot())[g].1
    {
      hide Volume.Valid, Volume.Others, Splice, Full, Free, Volume.Room, Volume.Written;
      ghost var now := Snapshot();
      SnapshotFacts(now);
      match op
      case CreateOp(id) => if id !in files { var _ := Create(id); }
      case WriteOp(f, off, buf) =>
        if f in files {
          var _ := Write(f, off, buf);
          OthersFacts(f, now);
        }
      case UnlinkOp(f) => var _ := Unlink(f);
    }

    /** Any sequence of operations. */
    method Run(ops: seq<Op>)
      requires Valid()
      modifies this
      ensures Valid() && Accounted(fat1, chains, reserved)
      ensures forall n :: TailReserved(reserved, n, |fat1|) ==> Inside(chains, n)
      ensures forall g :: g in old(files) && Spared(ops, g) ==>
                g in files && files[g] == old(files)[g] && Contents(g) == old(Snapshot())[g].1
    {
      hide Volume.Valid, Spared, Accounted, DirOk;
      ghost var m := Snapshot();
      SnapshotFacts(m);
      SparedNone(ops);
      var i := 0;
      while i < |ops|
        invariant 0 <= i <= |ops| && Valid()
        invariant forall g :: g in m && Spared(ops[..i], g) ==> g in files && (files[g], Contents(g)) == m[g]
      {
        SparedStep(ops, i);
        ghost var now := Snapshot();
        SnapshotFacts(now);
        Apply(ops[i]);
        i := i + 1;
      }
      assert ops[..i] == ops;
      NoLeak();
      AllInside();
    }

    lemma AllInside()
      requires Valid()
      ensures forall n :: TailReserved(reserved, n, |fat1|) ==> Inside(chains, n)
    {
      hide Accounted, Disjoint, DirOk, TailReserved, Inside, Clusters, Mirrored;
      InTable();
      forall n | TailReserved(reserved, n, |fat1|) ensures Inside(chains, n) { KeptInside(fat1, chains, reserved, n); }
    }

    lemma InTable()
      requires Valid()
      ensures forall f, x :: f in chains && x in chains[f] ==> 2 <= x < |fat1|
    {
      hide Accounted, Disjoint, DirOk, Clusters, Mirrored;
    }

    lemma NoLeak()
      requires Valid()
      ensures Accounted(fat1, chains, reserved) && chains.Keys == files.Keys
    {
    }

    lemma SnapshotFacts(m: map<nat, (File, seq<byte>)>)
      requires Valid() && m == Snapshot()
      ensures m.Keys == files.Keys && forall g :: g in files ==> m[g] == (files[g], Contents(g))
    {
    }

    lemma OthersFacts(f: nat, m: map<nat, (File, seq<byte>)>)
      requires Valid() && Others(f, m)
      ensures forall g :: g in m && g != f ==> g in files && (files[g], Contents(g)) == m[g]
    {
    }

    /** The conditional call of fat_free_chain in fat32_unlink_impl. */
    method ReleaseChain(start: nat, ghost chain: seq<nat>)
      requires |fat1| == |fat2| && |fat1| <= EOC && Mirrored(fat1, fat2) && Chain(fat1, start, chain)
      modifies this`fat1, this`fat2
      ensures |fat1| == |fat2| == |old(fat1)| && Mirrored(fat1, fat2)
      ensures forall x :: 0 <= x < |fat1| ==> Entry(fat1[x]) == if x in chain then 0 else Entry(old(fat1)[x])
    {
      if start >= 2 { FreeChain(start, chain); }
    }
  }

  datatype Op = CreateOp(id: nat) | WriteOp(f: nat, off: nat, buf: seq<byte>) | UnlinkOp(f: nat)
  {
    predicate Names(g: nat) { if CreateOp? then id == g else f == g }
  }

  /** No operation names file g. */
  ghost predicate Spared(ops: seq<Op>, g: nat)
  {
    forall i :: 0 <= i < |ops| ==> !ops[i].Names(g)
  }

  lemma SparedNone(ops: seq<Op>)
    ensures forall g :: Spared(ops[..0], g)
  {
  }

  lemma SparedStep(ops: seq<Op>, i: nat)
    requires i < |ops|
    ensures forall g :: Spared(ops[..i + 1], g) ==> Spared(ops[..i], g) && !ops[i].Names(g)
  {
    forall g | Spared(ops[..i + 1], g) ensures Spared(ops[..i], g) && !ops[i].Names(g) {
      assert ops[..i + 1][i] == ops[i];
      assert forall j :: 0 <= j < i ==> ops[..i][j] == ops[..i + 1][j];
    }
  }

  lemma FreedExactly(fat: seq<u32>, fat': seq<u32>, freed: seq<nat>)
    requires |fat'| == |fat|
    requires forall x :: 0 <= x < |fat| ==> Entry(fat'[x]) == if x in freed then 0 else Entry(fat[x])
    ensures forall x :: 2 <= x < |fat'| ==> (Free(fat', x) <==> Free(fat, x) || x in freed)
  {
  }

  lemma Apart(chains: map<nat, seq<nat>>, f: nat, g: nat)
    requires Disjoint(chains) && f in chains && g in chains && f != g
    ensures forall x :: x in chains[g] ==> x !in chains[f]
  {
  }

  lemma StillDisjoint(chains: map<nat, seq<nat>>, f: nat)
    requires Disjoint(chains)
    ensures Disjoint(chains - {f})
  {
  }

  lemma FirstCluster(fat: seq<u32>, start: nat, c: seq<nat>)
    requires Chain(fat, start, c) && c != []
    ensures start == c[0]
  {
  }

  /** A position inside the chain that is past cluster i lies in a later cluster. */
  lemma WithinChain(c: seq<nat>, i: nat, bpc: nat, pos: nat)
    requires i < |c| && pos < |c| * bpc && StartOf(i + 1, bpc) <= pos
    ensures i + 1 < |c|
  {
  }

  /** A slice of cluster i is a slice of the chain. */
  lemma ClusterBytes(data: seq<seq<byte>>, bpc: nat, c: seq<nat>, i: nat, o: nat, piece: seq<byte>, pos: nat)
    requires Clusters(data, bpc) && InRange(data, c) && i < |c| && o + |piece| <= bpc && pos == StartOf(i, bpc) + o
    requires piece == data[c[i]][o..o + |piece|]
    ensures forall k :: 0 <= k < |piece| ==> pos + k < |c| * bpc && piece[k] == ByteAt(data, bpc, c, pos + k)
  {
    MulMono(i + 1, |c|, bpc);
    NextMultiple(i, bpc);
    forall k | 0 <= k < |piece| ensures pos + k < |c| * bpc && piece[k] == ByteAt(data, bpc, c, pos + k) {
      PositionOf(i, o + k, bpc);
    }
  }

  /** The end of cluster i is the end of the chain exactly for the last one. */
  lemma ClusterEnds(c: seq<nat>, i: nat, bpc: nat)
    requires i < |c| && bpc > 0
    ensures StartOf(i + 1, bpc) <= |c| * bpc && (StartOf(i + 1, bpc) == |c| * bpc <==> i + 1 == |c|)
  {
    MulMono(i + 1, |c|, bpc);
    if i + 1 < |c| {
      MulMono(i + 2, |c|, bpc);
      NextMultiple(i + 1, bpc);
    }
  }

  /** Cutting a size to 32 bits cuts the contents. */
  lemma CutTo32(data: seq<seq<byte>>, bpc: nat, c: seq<nat>, n: nat)
    requires Clusters(data, bpc) && InRange(data, c) && n <= |c| * bpc
    ensures n % U32 <= n && Bytes(data, bpc, c, n % U32) == Bytes(data, bpc, c, n)[..n % U32]
  {
    hide ByteAt;
  }

  lemma BytesSlice(data: seq<seq<byte>>, bpc: nat, c: seq<nat>, n: nat, offset: nat, want: nat, r: seq<byte>)
    requires Clusters(data, bpc) && InRange(data, c) && n <= |c| * bpc && offset + want <= n
    requires |r| == want && forall k :: 0 <= k < want ==> r[k] == ByteAt(data, bpc, c, offset + k)
    ensures r == Bytes(data, bpc, c, n)[offset..offset + want]
  {
  }

  lemma RoomSlice(data: seq<seq<byte>>, bpc: nat, c: seq<nat>, offset: nat, end: nat, r: seq<byte>)
    requires Clusters(data, bpc) && InRange(data, c) && offset <= end <= StartOf(|c|, bpc)
    requires |r| == end - offset && forall k :: 0 <= k < |r| ==>
             offset + k < |c| * bpc && r[k] == ByteAt(data, bpc, c, offset + k)
    ensures r == Pad(data, bpc, c, StartOf(|c|, bpc))[offset..end]
  {
  }

  /** A reserved cluster on its own is a chain, disjoint from the others, which stay as they were. */
  lemma NewChain(fat: seq<u32>, files: map<nat, File>, chains: map<nat, seq<nat>>, id: nat, nc: nat)
    requires |fat| <= EOC && Free(fat, nc) && files.Keys == chains.Keys && id !in chains && Disjoint(chains)
    requires forall g :: g in files ==> Chain(fat, files[g].start, chains[g])
    ensures var fat' := Link(fat, nc, nc, true);
            && Chain(fat', nc, [nc])
            && (forall g :: g in files ==> Chain(fat', files[g].start, chains[g]))
    ensures Disjoint(chains[id := [nc]])
    ensures forall g :: g in chains ==> nc !in chains[g]
  {
    LinkLow(fat, nc, nc, true, nc);
    forall g | g in chains ensures nc !in chains[g] { NotInChain(fat, files[g].start, chains[g], nc); }
    forall g | g in files ensures Chain(Link(fat, nc, nc, true), files[g].start, chains[g]) {
      LinkOther(fat, files[g].start, chains[g], nc, nc, true);
    }
  }

  /** Extending file f by a free cluster keeps the account. */
  lemma LinkAccounted(fat: seq<u32>, chains: map<nat, seq<nat>>, reserved: set<nat>, f: nat, nc: nat, last: nat,
      first: bool)
    requires Accounted(fat, chains, reserved) && f in chains && Free(fat, nc) && |fat| <= EOC
    requires first || (last < |fat| && last != nc && Entry(fat[last]) != 0)
    ensures Accounted(Link(fat, nc, last, first), chains[f := chains[f] + [nc]], reserved)
  {
    hide Link, Entry;
    var fat', chains' := Link(fat, nc, last, first), chains[f := chains[f] + [nc]];
    forall x ensures InChains(chains', x) <==> InChains(chains, x) || x == nc {
      if g :| g in chains && x in chains[g] { assert x in chains'[g]; }
      if x == nc { assert x in chains'[f]; }
    }
    LinkLow(fat, nc, last, first, nc);
    forall x | 2 <= x < |fat'| ensures Entry(fat'[x]) != 0 <==> Entry(fat[x]) != 0 || x == nc {
      LinkLow(fat, nc, last, first, x);
    }
  }

  lemma SameFree(fat: seq<u32>, fat': seq<u32>)
    requires |fat'| == |fat| && forall x :: 0 <= x < |fat| ==> Entry(fat'[x]) == Entry(fat[x])
    ensures FreeSet(fat') == FreeSet(fat)
  {
    hide Entry;
  }

  lemma NotFull(fat: seq<u32>, c: nat)
    requires Free(fat, c)
    ensures !Full(fat)
  {
  }

  /** Linking takes one cluster from the free ones. */
  lemma LinkFree(fat: seq<u32>, nc: nat, last: nat, first: bool)
    requires Free(fat, nc) && |fat| <= EOC && (first || (last < |fat| && last != nc && Entry(fat[last]) != 0))
    ensures FreeSet(Link(fat, nc, last, first)) == FreeSet(fat) - {nc}
  {
    hide Link, Entry;
    forall x | 2 <= x < |fat| ensures Free(Link(fat, nc, last, first), x) <==> Free(fat, x) && x != nc {
      LinkLow(fat, nc, last, first, x);
    }
  }

  lemma NewAccounted(fat: seq<u32>, chains: map<nat, seq<nat>>, reserved: set<nat>, id: nat, nc: nat)
    requires Accounted(fat, chains, reserved) && id !in chains && Free(fat, nc) && |fat| <= EOC
    ensures Accounted(Link(fat, nc, nc, true), chains[id := [nc]], reserved)
  {
    hide Link;
    EmptyAccounted(fat, chains, reserved, id);
    LinkAccounted(fat, chains[id := []], reserved, id, nc, nc, true);
    assert [] + [nc] == [nc];
    assert chains[id := []][id := [nc]] == chains[id := [nc]];
  }

  lemma EmptyAccounted(fat: seq<u32>, chains: map<nat, seq<nat>>, reserved: set<nat>, id: nat)
    requires Accounted(fat, chains, reserved) && id !in chains
    ensures Accounted(fat, chains[id := []], reserved)
  {
    forall x ensures InChains(chains[id := []], x) <==> InChains(chains, x) {
      if g :| g in chains && x in chains[g] { assert x in chains[id := []][g]; }
    }
  }

  lemma SameAccounted(fat: seq<u32>, fat': seq<u32>, chains: map<nat, seq<nat>>, reserved: set<nat>)
    requires Accounted(fat, chains, reserved) && |fat'| == |fat| && forall x :: 0 <= x < |fat| ==>
             Entry(fat'[x]) == Entry(fat[x])
    ensures Accounted(fat', chains, reserved)
  {
  }

  lemma FreedAccounted(fat: seq<u32>, fat': seq<u32>, chains: map<nat, seq<nat>>, reserved: set<nat>, f: nat)
    requires Accounted(fat, chains, reserved) && Disjoint(chains) && f in chains && |fat'| == |fat|
    requires forall x :: 0 <= x < |fat| ==> Entry(fat'[x]) == if x in chains[f] then 0 else Entry(fat[x])
    ensures Accounted(fat', chains - {f}, reserved)
  {
    forall x ensures InChains(chains - {f}, x) <==> InChains(chains, x) && x !in chains[f] {
      if g :| g in chains && x in chains[g] { if g != f { assert x in (chains - {f})[g]; } }
    }
    forall x | x in chains[f] ensures InChains(chains, x) {}
  }

  lemma DirAdded(dir: seq<Slot>, files: map<nat, File>, id: nat, file: File)
    requires DirOk(dir, files) && id !in files && file.slot < |dir| && dir[file.slot] == Vacant
    ensures DirOk(dir[file.slot := Taken(id)], files[id := file])
  {
  }

  lemma DirKept(dir: seq<Slot>, files: map<nat, File>, f: nat)
    requires DirOk(dir, files) && f in files
    ensures forall file: File :: file.slot == files[f].slot ==> DirOk(dir, files[f := file])
  {
  }

  lemma DirRemoved(dir: seq<Slot>, files: map<nat, File>, f: nat)
    requires DirOk(dir, files) && f in files
    ensures files[f].slot < |dir| && DirOk(dir[files[f].slot := Vacant], files - {f})
  {
  }

  lemma NoChain(fat: seq<u32>, chains: map<nat, seq<nat>>, id: nat)
    requires Disjoint(chains) && id !in chains
    ensures Chain(fat, 0, []) && Disjoint(chains[id := []])
  {
  }

  /** Taking a free cluster and giving it back changes no chain. */
  lemma Released(fat: seq<u32>, fat': seq<u32>, nc: nat, files: map<nat, File>, chains: map<nat, seq<nat>>)
    requires |fat| <= EOC && Mirrored(fat, fat') && Free(fat, nc) && files.Keys == chains.Keys
    requires forall g :: g in files ==> Chain(fat, files[g].start, chains[g])
    ensures var a, b :=
            fat[nc := 0xFFFF_FFFF][nc := Replace(0xFFFF_FFFF, 0)],
            fat'[nc := 0xFFFF_FFFF][nc := Replace(0xFFFF_FFFF, 0)];
            Mirrored(a, b) && (forall g :: g in files ==> Chain(a, files[g].start, chains[g]))
            && |a| == |fat| && forall x :: 0 <= x < |fat| ==> Entry(a[x]) == Entry(fat[x])
  {
    var a := fat[nc := 0xFFFF_FFFF][nc := Replace(0xFFFF_FFFF, 0)];
    forall g | g in files ensures Chain(a, files[g].start, chains[g]) {
      ChainFrame(fat, a, files[g].start, chains[g]);
    }
  }

  lemma Untouched(fat: seq<u32>, fat': seq<u32>, start: nat, c: seq<nat>, freed: seq<nat>)
    requires Chain(fat, start, c) && |fat'| == |fat| && forall x :: x in c ==> x !in freed
    requires forall x :: 0 <= x < |fat| ==> Entry(fat'[x]) == if x in freed then 0 else Entry(fat[x])
    ensures Chain(fat', start, c)
  {
    forall i | 0 <= i < |c| ensures c[i] < |fat| && Entry(fat'[c[i]]) == Entry(fat[c[i]]) { assert c[i] in c; }
    ChainFrame(fat, fat', start, c);
  }

  /** A write in progress: the file, its size, the other files, and what it held when the write began. */
  datatype Job = Job(f: nat, size: nat, entry: nat, slot: nat, dir: seq<Slot>, others: map<nat, (File, seq<byte>)>,
      d0: seq<seq<byte>>, c0: seq<nat>, off: nat, buf: seq<byte>, room: nat)

  /** The number of clusters that n bytes need. */
  function Needed(n: nat, bpc: nat): nat
  {
    if bpc == 0 then 0 else (n + bpc - 1) / bpc
  }

  /**
   * What a write of len bytes at off may do to a file of c0 clusters on a disk with
   * free0 free ones: n bytes are written, all for which there are clusters, and the
   * file takes as many clusters as it lacks, or all.
   */
  ghost predicate Amounts(c0: nat, free0: nat, c: nat, free: nat, bpc: nat, off: nat, len: nat, n: nat)
  {
    var room := c0 + free0;
    && n == Min(len, if room * bpc > off then room * bpc - off else 0)
    && c + free == room && c == Max(c0, Min(room, Needed(off + len, bpc)))
  }

  lemma NeededIs(n: nat, bpc: nat, k: nat)
    requires bpc > 0 && n <= StartOf(k, bpc) && (k > 0 ==> StartOf(k - 1, bpc) < n)
    ensures Needed(n, bpc) == k
  {
    if k > 0 {
      NextStart(k - 1, bpc);
      DivModUnique(n + bpc - 1, bpc, k, n - 1 - (k - 1) * bpc);
    }
  }

  lemma NeededBeyond(n: nat, bpc: nat, k: nat)
    requires bpc > 0
    ensures StartOf(k, bpc) < n ==> k < Needed(n, bpc)
    ensures n <= StartOf(k, bpc) ==> Needed(n, bpc) <= k
  {
    var q := Needed(n, bpc);
    assert n + bpc - 1 == bpc * q + (n + bpc - 1) % bpc;
    if q <= k { MulMono(q, k, bpc); } else { MulMono(k + 1, q, bpc); NextStart(k, bpc); }
  }

  /** c clusters of room are in the chain that had c0, and n bytes of len behind off are written. */
  lemma Amount(c0: nat, c: nat, room: nat, bpc: nat, off: nat, len: nat, n: nat)
    requires bpc > 0 && len > 0 && n <= len && c0 <= c <= room && (n > 0 ==> off + n <= c * bpc)
    requires n < len ==> c == room && StartOf(c, bpc) <= off + n
    requires c > c0 ==> StartOf(c - 1, bpc) < off + len
    ensures n == Min(len, if room * bpc > off then room * bpc - off else 0)
    ensures c == Max(c0, Min(room, Needed(off + len, bpc)))
  {
    MulMono(c, room, bpc);
    NeededBeyond(off + len, bpc, room);
    NeededBeyond(off + len, bpc, c);
    if c > c0 { NeededBeyond(off + len, bpc, c - 1); }
  }

  lemma FullSet(fat: seq<u32>)
    ensures Full(fat) ==> FreeSet(fat) == {}
  {
  }

  lemma AfterCluster(fat: seq<u32>, start: nat, c: seq<nat>, i: nat)
    requires Chain(fat, start, c) && i < |c|
    ensures i + 1 < |c| ==> Entry(fat[c[i]]) == c[i + 1]
    ensures i + 1 == |c| ==> Entry(fat[c[i]]) >= EOC
  {
  }

  /** The position of cluster i of a chain. */
  function StartOf(i: nat, bpc: nat): nat { i * bpc }

  lemma NextStart(i: nat, bpc: nat)
    ensures StartOf(0, bpc) == 0 && StartOf(i + 1, bpc) == StartOf(i, bpc) + bpc
  {
  }

  lemma NextMultiple(i: nat, bpc: nat)
    ensures (i + 1) * bpc == i * bpc + bpc
  {
  }

  lemma ClustersPositive(data: seq<seq<byte>>, bpc: nat)
    requires Clusters(data, bpc)
    ensures bpc > 0
  {
  }

  lemma ChainBounds(fat: seq<u32>, start: nat, c: seq<nat>, i: nat)
    requires Chain(fat, start, c) && i < |c|
    ensures 2 <= c[i] < |fat|
  {
  }

  lemma EndOfChain(fat: seq<u32>, start: nat, c: seq<nat>, i: nat)
    requires |fat| <= EOC && Chain(fat, start, c) && i < |c| && (Entry(fat[c[i]]) >= EOC || Entry(fat[c[i]]) < 2)
    ensures i == |c| - 1
  {
    if i < |c| - 1 { AfterCluster(fat, start, c, i); }
  }

  lemma NotEndOfChain(fat: seq<u32>, start: nat, c: seq<nat>, i: nat)
    requires Chain(fat, start, c) && i < |c| && Entry(fat[c[i]]) < EOC
    ensures i + 1 < |c| && Entry(fat[c[i]]) == c[i + 1]
  {
    if i < |c| - 1 { assert Entry(fat[c[i]]) == c[i + 1]; }
  }

  lemma HoldsExtend(d: seq<seq<byte>>, bpc: nat, c: seq<nat>, nc: nat, d0: seq<seq<byte>>, c0: seq<nat>, off: nat,
      buf: seq<byte>, n: nat)
    requires Clusters(d, bpc) && InRange(d, c) && Clusters(d0, bpc) && InRange(d0, c0) && n <= |buf|
    requires Holds(d, bpc, c, d0, c0, off, buf, n) && nc < |d| && nc !in c && c0 <= c
    requires n > 0 ==> off + n <= |c| * bpc
    ensures var d' := d[nc := seq(bpc, i => 0)];
            Clusters(d', bpc) && InRange(d', c + [nc]) && Holds(d', bpc, c + [nc], d0, c0, off, buf, n)
  {
    hide ByteAt;
    var d' := d[nc := seq(bpc, i => 0)];
    MulMono(|c0|, |c|, bpc);
    forall k | 0 <= k < (|c| + 1) * bpc
      ensures ByteAt(d', bpc, c + [nc], k) == Expected(d0, bpc, c0, off, buf, n, k)
    {
      ExtendBytes(d, bpc, c, nc, seq(bpc, i => 0), k);
    }
  }

  lemma HoldsPatch(d: seq<seq<byte>>, bpc: nat, c: seq<nat>, i: nat, o: nat, piece: seq<byte>,
                   d0: seq<seq<byte>>, c0: seq<nat>, off: nat, buf: seq<byte>, n: nat)
    requires Clusters(d, bpc) && InRange(d, c) && Distinct(c) && Clusters(d0, bpc) && InRange(d0, c0)
             && n + |piece| <= |buf|
    requires Holds(d, bpc, c, d0, c0, off, buf, n) && i < |c| && o + |piece| <= bpc
    requires i * bpc + o == off + n && piece == buf[n..n + |piece|]
    ensures var d' := d[c[i] := Patched(d[c[i]], o, piece)];
            Clusters(d', bpc) && Holds(d', bpc, c, d0, c0, off, buf, n + |piece|)
    ensures off + n + |piece| <= |c| * bpc
  {
    hide ByteAt;
    var d' := d[c[i] := Patched(d[c[i]], o, piece)];
    forall k | 0 <= k < |c| * bpc
      ensures ByteAt(d', bpc, c, k) == Expected(d0, bpc, c0, off, buf, n + |piece|, k)
    {
      PatchBytes(d, bpc, c, i, o, piece, k);
    }
    MulMono(i + 1, |c|, bpc);
    NextMultiple(i, bpc);
  }

  /** A finished write anywhere is a splice of what the file's clusters held, extended with zeros. */
  lemma HoldsPad(d: seq<seq<byte>>, bpc: nat, c: seq<nat>, d0: seq<seq<byte>>, c0: seq<nat>, size: nat, off: nat,
      buf: seq<byte>, n: nat)
    requires Clusters(d, bpc) && InRange(d, c) && Clusters(d0, bpc) && InRange(d0, c0) && 0 < n <= |buf|
    requires Holds(d, bpc, c, d0, c0, off, buf, n) && size <= |c| * bpc && off + n <= |c| * bpc
    ensures var size' := if off + n > size then off + n else size;
            && size' <= |c| * bpc
            && Bytes(d, bpc, c, size') == Splice(Pad(d0, bpc, c0, Max(off, size)), off, buf[..n])
  {
    hide ByteAt;
    var size' := if off + n > size then off + n else size;
    var pad, new_ := Pad(d0, bpc, c0, Max(off, size)), Bytes(d, bpc, c, size');
    forall k | 0 <= k < size' ensures new_[k] == Splice(pad, off, buf[..n])[k] {
      SpliceAt(pad, off, buf[..n], k);
    }
  }

  /** A table after nc has been reserved and, unless it starts the file, linked behind last. */
  function Link(fat: seq<u32>, nc: nat, last: nat, first: bool): (r: seq<u32>)
    requires nc < |fat| && (first || last < |fat|)
    ensures |r| == |fat|
  {
    var taken := fat[nc := 0xFFFF_FFFF];
    if first then taken else taken[last := Replace(taken[last], nc)]
  }

  lemma LinkLow(fat: seq<u32>, nc: nat, last: nat, first: bool, x: nat)
    requires nc < |fat| <= EOC && (first || (last < |fat| && last != nc)) && x < |fat|
    ensures Entry(Link(fat, nc, last, first)[x]) ==
            if x == nc then 0x0FFF_FFFF else if !first && x == last then nc else Entry(fat[x])
  {
  }

  lemma LinkMirrored(fat: seq<u32>, fat': seq<u32>, nc: nat, last: nat, first: bool)
    requires Mirrored(fat, fat') && nc < |fat| <= EOC && (first || (last < |fat| && last != nc))
    ensures Mirrored(Link(fat, nc, last, first), Link(fat', nc, last, first))
  {
    hide Entry, Link;
    forall x | 0 <= x < |fat| ensures Entry(Link(fat, nc, last, first)[x]) == Entry(Link(fat', nc, last, first)[x]) {
      LinkLow(fat, nc, last, first, x);
      LinkLow(fat', nc, last, first, x);
    }
  }

  /** Extending f by a free cluster keeps every chain well formed and disjoint from the others. */
  lemma LinkChains(fat: seq<u32>, files: map<nat, File>, chains: map<nat, seq<nat>>, f: nat, nc: nat, last: nat)
    requires |fat| <= EOC && Free(fat, nc) && f in files && files.Keys == chains.Keys
    requires forall g :: g in files ==> Chain(fat, files[g].start, chains[g])
    requires Disjoint(chains) && (chains[f] != [] ==> last == chains[f][|chains[f]| - 1])
    ensures forall g :: g in chains ==> nc !in chains[g]
    ensures Disjoint(chains[f := chains[f] + [nc]])
    ensures files[f].start < 2 <==> chains[f] == []
    ensures chains[f] != [] ==> last < |fat| && last != nc && Entry(fat[last]) != 0
    ensures var fat' := Link(fat, nc, last, files[f].start < 2);
            && Chain(fat', if chains[f] == [] then nc else files[f].start, chains[f] + [nc])
            && forall g :: g in files && g != f ==> Chain(fat', files[g].start, chains[g])
  {
    forall g | g in chains ensures nc !in chains[g] { NotInChain(fat, files[g].start, chains[g], nc); }
    LinkOwn(fat, files[f].start, chains[f], nc, last);
    forall g | g in files && g != f
      ensures Chain(Link(fat, nc, last, files[f].start < 2), files[g].start, chains[g])
    {
      if chains[f] != [] { assert last in chains[f]; }
      LinkOther(fat, files[g].start, chains[g], nc, last, files[f].start < 2);
    }
  }

  lemma NotInChain(fat: seq<u32>, start: nat, c: seq<nat>, nc: nat)
    requires Chain(fat, start, c) && Free(fat, nc)
    ensures nc !in c
  {
    forall i | 0 <= i < |c| ensures c[i] != nc { ChainNotFree(fat, start, c, i); }
  }

  lemma LinkOwn(fat: seq<u32>, start: nat, c: seq<nat>, nc: nat, last: nat)
    requires |fat| <= EOC && Free(fat, nc) && Chain(fat, start, c) && (c != [] ==> last == c[|c| - 1])
    ensures c != [] ==> last < |fat|
    ensures Chain(Link(fat, nc, last, start < 2), if c == [] then nc else start, c + [nc])
  {
    hide Entry, Link;
    NotInChain(fat, start, c, nc);
    var fat' := Link(fat, nc, last, start < 2);
    LinkLow(fat, nc, last, start < 2, nc);
    if c != [] {
      LinkLow(fat, nc, last, false, last);
      forall i | 0 <= i < |c| - 1 ensures c[i] < |fat| && Entry(fat'[c[i]]) == Entry(fat[c[i]]) {
        LinkLow(fat, nc, last, false, c[i]);
      }
      ChainExtend(fat, fat', start, c, nc);
    }
  }

  lemma LinkOther(fat: seq<u32>, start: nat, c: seq<nat>, nc: nat, last: nat, first: bool)
    requires |fat| <= EOC && Chain(fat, start, c) && nc < |fat| && nc !in c
    requires first || (last < |fat| && last != nc && last !in c)
    ensures Chain(Link(fat, nc, last, first), start, c)
  {
    hide Entry, Link;
    forall i | 0 <= i < |c|
      ensures c[i] < |fat| && Entry(Link(fat, nc, last, first)[c[i]]) == Entry(fat[c[i]])
    {
      assert c[i] in c;
      LinkLow(fat, nc, last, first, c[i]);
    }
    ChainFrame(fat, Link(fat, nc, last, first), start, c);
  }
}
