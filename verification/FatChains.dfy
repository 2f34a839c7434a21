/**
 * File allocation tables, cluster chains and the bytes a chain holds, as values.
 */
module FatChains {
  import opened Basics
  import opened Bits

  const LOW28 := 0x1000_0000
  const EOC := 0x0FFF_FFF8

  type u32 = x: nat | x < 0x1_0000_0000

  function Entry(e: u32): nat { e % LOW28 }

  /** fat_set_entry's value: the reserved top four bits stay. */
  function Replace(e: u32, v: nat): (r: u32)
    ensures Entry(r) == v % LOW28 && r / LOW28 == e / LOW28
  {
    e / LOW28 * LOW28 + v % LOW28
  }

  ghost predicate Free(fat: seq<u32>, c: nat)
  {
    2 <= c < |fat| && Entry(fat[c]) == 0
  }

  ghost function FreeSet(fat: seq<u32>): (r: set<nat>)
    ensures forall c :: c in r <==> Free(fat, c)
  {
    set c | 2 <= c < |fat| && Free(fat, c)
  }

  ghost predicate Full(fat: seq<u32>)
  {
    forall c :: 2 <= c < |fat| ==> Entry(fat[c]) != 0
  }

  /** Both copies agree on their low 28 bits, which are all that is ever read. */
  ghost predicate Mirrored(fat1: seq<u32>, fat2: seq<u32>)
  {
    |fat1| == |fat2| && forall c :: 0 <= c < |fat1| ==> Entry(fat1[c]) == Entry(fat2[c])
  }

  /** c is the cluster chain of a file that starts at start: in range, linked, acyclic, ended by EOC. */
  ghost predicate Chain(fat: seq<u32>, start: nat, c: seq<nat>)
  {
    && (start < 2 <==> c == [])
    && (c != [] ==> c[0] == start)
    && (forall i :: 0 <= i < |c| ==> 2 <= c[i] < |fat|)
    && (forall i :: 0 <= i < |c| - 1 ==> Entry(fat[c[i]]) == c[i + 1])
    && (c != [] ==> Entry(fat[c[|c| - 1]]) >= EOC)
    && Distinct(c)
  }

  /** A chain is determined by the table and its first cluster. */
  lemma {:induction false} ChainUnique(fat: seq<u32>, start: nat, c: seq<nat>, d: seq<nat>, i: nat)
    requires |fat| <= EOC && Chain(fat, start, c) && Chain(fat, start, d) && i < |c|
    ensures i < |d| && c[i] == d[i]
  {
    if i > 0 {
      ChainUnique(fat, start, c, d, i - 1);
      assert Entry(fat[c[i - 1]]) == c[i];
    }
  }

  lemma ChainDetermined(fat: seq<u32>, start: nat, c: seq<nat>, d: seq<nat>)
    requires |fat| <= EOC && Chain(fat, start, c) && Chain(fat, start, d)
    ensures c == d
  {
    if |c| > 0 { ChainUnique(fat, start, c, d, |c| - 1); }
    if |d| > 0 { ChainUnique(fat, start, d, c, |d| - 1); }
    forall i | 0 <= i < |c| ensures c[i] == d[i] { ChainUnique(fat, start, c, d, i); }
  }

  lemma ChainNotFree(fat: seq<u32>, start: nat, c: seq<nat>, i: nat)
    requires Chain(fat, start, c) && i < |c|
    ensures !Free(fat, c[i])
  {
    if i < |c| - 1 { assert Entry(fat[c[i]]) == c[i + 1]; }
  }

  /** A chain does not depend on entries outside it. */
  lemma ChainFrame(fat: seq<u32>, fat': seq<u32>, start: nat, c: seq<nat>)
    requires Chain(fat, start, c) && |fat'| == |fat|
    requires forall i :: 0 <= i < |c| ==> c[i] < |fat| && Entry(fat'[c[i]]) == Entry(fat[c[i]])
    ensures Chain(fat', start, c)
  {
  }

  /** Reserving a free cluster and linking it to the last one extends the chain by it. */
  lemma ChainExtend(fat: seq<u32>, fat': seq<u32>, start: nat, c: seq<nat>, nc: nat)
    requires Chain(fat, start, c) && c != [] && Free(fat, nc) && |fat'| == |fat| <= EOC
    requires Entry(fat'[nc]) >= EOC && Entry(fat'[c[|c| - 1]]) == nc
    requires forall i :: 0 <= i < |c| - 1 ==> c[i] < |fat| && Entry(fat'[c[i]]) == Entry(fat[c[i]])
    ensures Chain(fat', start, c + [nc])
  {
    var d := c + [nc];
    forall i | 0 <= i < |c| ensures c[i] != nc { ChainNotFree(fat, start, c, i); }
    forall i | 0 <= i < |d| - 1 ensures Entry(fat'[d[i]]) == d[i + 1] {
      if i < |c| - 1 { assert Entry(fat[c[i]]) == c[i + 1]; }
    }
  }

  // ---------------------------------------------------------------- contents

  ghost predicate Clusters(data: seq<seq<byte>>, bpc: nat)
  {
    bpc > 0 && forall c :: 0 <= c < |data| ==> |data[c]| == bpc
  }

  ghost predicate InRange(data: seq<seq<byte>>, c: seq<nat>)
  {
    forall i :: 0 <= i < |c| ==> c[i] < |data|
  }

  lemma IndexInRange(k: nat, n: nat, bpc: nat)
    requires bpc > 0 && k < n * bpc
    ensures k / bpc < n && k % bpc < bpc
  {
    QuotientBelow(k, bpc, n);
  }

  /** Byte k of the chain c. */
  ghost function ByteAt(data: seq<seq<byte>>, bpc: nat, c: seq<nat>, k: nat): byte
    requires Clusters(data, bpc) && InRange(data, c) && k < |c| * bpc
  {
    IndexInRange(k, |c|, bpc);
    data[c[k / bpc]][k % bpc]
  }

  /** The first n bytes of the chain c. */
  ghost function Bytes(data: seq<seq<byte>>, bpc: nat, c: seq<nat>, n: nat): (r: seq<byte>)
    requires Clusters(data, bpc) && InRange(data, c) && n <= |c| * bpc
    ensures |r| == n
  {
    seq(n, (k: nat) requires k < n => ByteAt(data, bpc, c, k))
  }

  lemma PositionOf(i: nat, r: nat, bpc: nat)
    requires r < bpc
    ensures (i * bpc + r) / bpc == i && (i * bpc + r) % bpc == r
  {
    DivModUnique(i * bpc + r, bpc, i, r);
  }

  /** cluster bytes with piece written at offset o. */
  function Patched(cluster: seq<byte>, o: nat, piece: seq<byte>): (r: seq<byte>)
    requires o + |piece| <= |cluster|
    ensures |r| == |cluster|
  {
    cluster[..o] + piece + cluster[o + |piece|..]
  }

  /** Writing inside cluster i changes exactly the bytes written. */
  lemma PatchBytes(data: seq<seq<byte>>, bpc: nat, c: seq<nat>, i: nat, o: nat, piece: seq<byte>, k: nat)
    requires Clusters(data, bpc) && InRange(data, c) && Distinct(c) && i < |c| && o + |piece| <= bpc && k < |c| * bpc
    ensures var data' := data[c[i] := Patched(data[c[i]], o, piece)];
            && Clusters(data', bpc)
            && ByteAt(data', bpc, c, k) ==
               if i * bpc + o <= k < i * bpc + o + |piece| then piece[k - i * bpc - o] else ByteAt(data, bpc, c, k)
  {
    IndexInRange(k, |c|, bpc);
    Locate(k, k / bpc, k % bpc, i, o, |piece|, bpc);
    PatchedAt(data[c[i]], o, piece, k % bpc);
  }

  lemma PatchedAt(cluster: seq<byte>, o: nat, piece: seq<byte>, r: nat)
    requires o + |piece| <= |cluster| && r < |cluster|
    ensures Patched(cluster, o, piece)[r] == if o <= r < o + |piece| then piece[r - o] else cluster[r]
  {
  }

  lemma Locate(k: nat, q: nat, r: nat, i: nat, o: nat, len: nat, bpc: nat)
    requires r < bpc && k == q * bpc + r && o + len <= bpc
    ensures i * bpc + o <= k < i * bpc + o + len <==> q == i && o <= r < o + len
    ensures q == i ==> k - i * bpc == r
  {
    if q < i { MulMono(q + 1, i, bpc); }
    if q > i { MulMono(i + 1, q, bpc); }
  }

  /** A zeroed cluster at the end of the chain adds zero bytes. */
  lemma ExtendBytes(data: seq<seq<byte>>, bpc: nat, c: seq<nat>, nc: nat, zeros: seq<byte>, k: nat)
    requires Clusters(data, bpc) && InRange(data, c) && nc < |data| && nc !in c
    requires |zeros| == bpc && (forall j :: 0 <= j < bpc ==> zeros[j] == 0)
    requires k < (|c| + 1) * bpc
    ensures var data' := data[nc := zeros];
            && Clusters(data', bpc) && InRange(data', c + [nc])
            && ByteAt(data', bpc, c + [nc], k) == if k < |c| * bpc then ByteAt(data, bpc, c, k) else 0
  {
    IndexInRange(k, |c| + 1, bpc);
    var q := k / bpc;
    if k < |c| * bpc {
      IndexInRange(k, |c|, bpc);
      assert c[q] != nc;
    } else if q < |c| {
      MulMono(q + 1, |c|, bpc);
    }
  }

  /** Bytes of a chain depend only on the clusters of the chain. */
  lemma BytesFrame(data: seq<seq<byte>>, data': seq<seq<byte>>, bpc: nat, c: seq<nat>, n: nat)
    requires Clusters(data, bpc) && Clusters(data', bpc) && InRange(data, c) && |data'| == |data| && n <= |c| * bpc
    requires forall x :: x in c ==> x < |data| && data'[x] == data[x]
    ensures Bytes(data', bpc, c, n) == Bytes(data, bpc, c, n)
  {
    forall k | 0 <= k < n ensures ByteAt(data', bpc, c, k) == ByteAt(data, bpc, c, k) {
      IndexInRange(k, |c|, bpc);
      assert c[k / bpc] in c;
    }
  }

  /** old with buf written at position off, growing if needed. */
  function Splice(old_: seq<byte>, off: nat, buf: seq<byte>): (r: seq<byte>)
    requires off <= |old_|
    ensures |r| == if off + |buf| > |old_| then off + |buf| else |old_|
  {
    if off + |buf| > |old_| then old_[..off] + buf else old_[..off] + buf + old_[off + |buf|..]
  }

  lemma SpliceAt(old_: seq<byte>, off: nat, buf: seq<byte>, k: nat)
    requires off <= |old_| && k < |Splice(old_, off, buf)|
    ensures k < off + |buf| || k < |old_|
    ensures Splice(old_, off, buf)[k] == if off <= k < off + |buf| then buf[k - off] else old_[k]
  {
  }
}
