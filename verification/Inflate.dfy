/**
 * The decoder of user/inflate.c with its bit accumulator, count/symbol tables
 * and output buffer, proved to compute the functions of module Deflate.
 */
module Inflate {
  import opened Bits
  import opened Huffman
  import opened Deflate
  import opened DeflateEncoder

  // ----------------------------------------------------------------- tables

  /** Index of the first symbol of length l in canonical order. */
  ghost function Offset(lens: seq<nat>, l: nat): nat
  {
    if l <= 1 then 0 else Offset(lens, l - 1) + CountIn(lens, l - 1, |lens|)
  }

  /** The struct "huffman": two caller-supplied arrays. */
  datatype Tables = Tables(count: array<nat>, symbol: array<nat>)

  /** count and symbol describe the code with lengths lens. */
  ghost predicate IsTable(lens: seq<nat>, count: seq<nat>, symbol: seq<nat>)
  {
    && |count| == MAXBITS + 1
    && (forall l :: 0 <= l <= MAXBITS ==> count[l] == CountIn(lens, l, |lens|))
    && AllPlaced(lens, symbol, |lens|)
  }

  ghost predicate Placed(lens: seq<nat>, symbol: seq<nat>, s: nat)
    requires s < |lens|
  {
    var i := Offset(lens, lens[s]) + Rank(lens, s);
    i < |symbol| && symbol[i] == s
  }

  /** Sum of the counts of lengths 1..l among the first n symbols. */
  ghost function UpTo(lens: seq<nat>, l: nat, n: nat): nat
    requires n <= |lens|
  {
    if l == 0 then 0 else UpTo(lens, l - 1, n) + CountIn(lens, l, n)
  }

  lemma {:induction false} UpToStep(lens: seq<nat>, l: nat, n: nat)
    requires n < |lens|
    ensures UpTo(lens, l, n + 1) == UpTo(lens, l, n) + if 1 <= lens[n] <= l then 1 else 0
  {
    if l > 0 { UpToStep(lens, l - 1, n); }
  }

  lemma {:induction false} UpToBound(lens: seq<nat>, l: nat, n: nat)
    requires n <= |lens|
    ensures UpTo(lens, l, n) <= n
  {
    if n > 0 {
      UpToBound(lens, l, n - 1);
      UpToStep(lens, l, n - 1);
    } else {
      UpToEmpty(lens, l);
    }
  }

  lemma {:induction false} UpToEmpty(lens: seq<nat>, l: nat)
    ensures UpTo(lens, l, 0) == 0
  {
    if l > 0 { UpToEmpty(lens, l - 1); }
  }

  lemma {:induction false} OffsetIsUpTo(lens: seq<nat>, l: nat)
    requires l >= 1
    ensures Offset(lens, l) == UpTo(lens, l - 1, |lens|)
  {
    if l > 1 { OffsetIsUpTo(lens, l - 1); }
  }

  lemma {:induction false} OffsetMono(lens: seq<nat>, j: nat, k: nat)
    requires 1 <= j < k
    ensures Offset(lens, j) + CountIn(lens, j, |lens|) <= Offset(lens, k)
  {
    if j + 1 < k { OffsetMono(lens, j, k - 1); }
  }

  /** Every used symbol has its own slot within the symbol array. */
  lemma SlotInRange(lens: seq<nat>, s: nat)
    requires s < |lens| && lens[s] > 0
    ensures Offset(lens, lens[s]) + Rank(lens, s) < |lens|
  {
    RankBelowCount(lens, s);
    OffsetIsUpTo(lens, lens[s]);
    UpToBound(lens, lens[s], |lens|);
  }

  lemma SlotsDiffer(lens: seq<nat>, s: nat, t: nat)
    requires s < t < |lens| && lens[s] > 0 && lens[t] > 0
    ensures Offset(lens, lens[s]) + Rank(lens, s) != Offset(lens, lens[t]) + Rank(lens, t)
  {
    RankBelowCount(lens, s);
    RankBelowCount(lens, t);
    if lens[s] == lens[t] {
      RankIncreases(lens, s, t);
    } else if lens[s] < lens[t] {
      OffsetMono(lens, lens[s], lens[t]);
    } else {
      OffsetMono(lens, lens[t], lens[s]);
    }
  }

  lemma {:induction false} AllZero(lens: seq<nat>, n: nat)
    requires n <= |lens|
    ensures CountIn(lens, 0, n) == n <==> forall i :: 0 <= i < n ==> lens[i] == 0
  {
    if n > 0 { AllZero(lens, n - 1); }
  }

  lemma UnusedAccepted(lens: seq<nat>)
    requires Unused(lens)
    ensures Accepted(lens)
  {
    hide Left;
    forall k | 1 <= k <= MAXBITS ensures Left(lens, k) >= 0 { UnusedLeft(lens, k); }
  }

  /** inf_construct: fills the tables and returns the unused code space, negative if over-subscribed. */
  method InfConstruct(h: Tables, length: seq<nat>) returns (left: int)
    requires h.count.Length == MAXBITS + 1 && |length| <= h.symbol.Length && h.count != h.symbol
    requires ValidLengths(length)
    modifies h.count, h.symbol
    ensures left < 0 <==> !Accepted(length)
    ensures Accepted(length) ==> left == Slack(length) && IsTable(length, h.count[..], h.symbol[..])
    ensures h.count[0] == CountIn(length, 0, |length|)
  {
    var n := |length|;
    CountLengths(h, length);
    AllZero(length, n);
    if h.count[0] == n {
      UnusedAccepted(length);
      return 0;
    }
    left := 1;
    var l := 1;
    while l <= MAXBITS
      invariant 1 <= l <= MAXBITS + 1
      invariant left == Left(length, l - 1)
      invariant forall k :: 1 <= k < l ==> Left(length, k) >= 0
    {
      left := 2 * left - h.count[l];
      assert left == Left(length, l);
      if left < 0 { return; }
      l := l + 1;
    }
    FillSymbols(h, length);
  }

  method CountLengths(h: Tables, length: seq<nat>)
    requires h.count.Length == MAXBITS + 1 && h.count != h.symbol
    requires ValidLengths(length)
    modifies h.count
    ensures forall l :: 0 <= l <= MAXBITS ==> h.count[l] == CountIn(length, l, |length|)
  {
    for l := 0 to MAXBITS + 1
      invariant forall k :: 0 <= k < l ==> h.count[k] == 0
    {
      h.count[l] := 0;
    }
    for s := 0 to |length|
      invariant forall l :: 0 <= l <= MAXBITS ==> h.count[l] == CountIn(length, l, s)
    {
      h.count[length[s]] := h.count[length[s]] + 1;
    }
  }

  method FillSymbols(h: Tables, length: seq<nat>)
    requires h.count.Length == MAXBITS + 1 && |length| <= h.symbol.Length && h.count != h.symbol
    requires ValidLengths(length)
    requires forall l :: 0 <= l <= MAXBITS ==> h.count[l] == CountIn(length, l, |length|)
    modifies h.symbol
    ensures IsTable(length, h.count[..], h.symbol[..])
  {
    hide Offset, CountIn;
    var offs := Offsets(h, length);
    CountZero(length);
    for s := 0 to |length|
      invariant forall l :: 1 <= l <= MAXBITS ==> offs[l] == Offset(length, l) + CountIn(length, l, s)
      invariant AllPlaced(length, h.symbol[..], s)
    {
      ghost var before := h.symbol[..];
      if length[s] != 0 {
        SlotInRange(length, s);
        h.symbol[offs[length[s]]] := s;
        offs[length[s]] := offs[length[s]] + 1;
      }
      PlaceNext(length, before, s);
      CountStep(length, s);
    }
  }

  lemma CountZero(lens: seq<nat>)
    ensures forall l :: CountIn(lens, l, 0) == 0
  {
  }

  lemma CountStep(lens: seq<nat>, n: nat)
    requires n < |lens|
    ensures forall l :: CountIn(lens, l, n + 1) == CountIn(lens, l, n) + if lens[n] == l then 1 else 0
    ensures Rank(lens, n) == CountIn(lens, lens[n], n)
  {
  }

  method Offsets(h: Tables, length: seq<nat>) returns (offs: array<nat>)
    requires h.count.Length == MAXBITS + 1
    requires forall l :: 0 <= l <= MAXBITS ==> h.count[l] == CountIn(length, l, |length|)
    ensures fresh(offs) && offs.Length == MAXBITS + 1
    ensures forall l :: 1 <= l <= MAXBITS ==> offs[l] == Offset(length, l)
  {
    hide CountIn;
    offs := new nat[MAXBITS + 1](i => 0);
    for l := 1 to MAXBITS
      invariant forall k :: 1 <= k <= l ==> offs[k] == Offset(length, k)
    {
      offs[l + 1] := offs[l] + h.count[l];
    }
  }

  ghost predicate AllPlaced(lens: seq<nat>, symbol: seq<nat>, n: nat)
    requires n <= |lens|
  {
    forall t :: 0 <= t < n && lens[t] > 0 ==> Placed(lens, symbol, t)
  }

  lemma PlaceNext(lens: seq<nat>, symbol: seq<nat>, s: nat)
    requires s < |lens| <= |symbol| && AllPlaced(lens, symbol, s)
    ensures lens[s] == 0 ==> AllPlaced(lens, symbol, s + 1)
    ensures lens[s] > 0 ==>
              var i := Offset(lens, lens[s]) + Rank(lens, s);
              i < |symbol| && AllPlaced(lens, symbol[i := s], s + 1)
  {
    hide Offset, Rank;
    if lens[s] > 0 {
      SlotInRange(lens, s);
      var after := symbol[Offset(lens, lens[s]) + Rank(lens, s) := s];
      forall t | 0 <= t < s + 1 && lens[t] > 0 ensures Placed(lens, after, t) {
        if t < s { SlotsDiffer(lens, t, s); }
      }
    }
  }

  // ------------------------------------------------------------------ state

  /** The struct "inf_state"; the input pointer and length are one sequence. */
  class InfState {
    const input: seq<byte>
    const dest: array<byte>
    var incnt: nat
    var bitbuf: nat
    var bitcnt: nat
    var err: bool
    var outcnt: nat

    ghost predicate Valid()
      reads this
    {
      && incnt <= |input| && outcnt <= dest.Length
      && bitbuf < Pow2(bitcnt)
      && (!err ==> bitcnt < 8)
    }

    /** The unread bits: those in the accumulator, then those of the unread bytes. */
    ghost function Rem(): seq<bool>
      requires incnt <= |input|
      reads this
    {
      LsbBits(bitbuf, bitcnt) + BytesBits(input[incnt..])
    }

    ghost function Out(): seq<byte>
      requires outcnt <= dest.Length
      reads this, dest
    {
      dest[..outcnt]
    }

    constructor (source: seq<byte>, dest: array<byte>)
      ensures Valid() && !err && input == source && this.dest == dest
      ensures Rem() == BytesBits(source) && Out() == []
    {
      input, this.dest := source, dest;
      incnt, bitbuf, bitcnt, err, outcnt := 0, 0, 0, false, 0;
      new;
      assert source[0..] == source;
    }

    /** inf_bits: the next need bits, least significant first; err when the input runs out. */
    method InfBits(need: nat) returns (r: nat)
      requires Valid()
      modifies this`incnt, this`bitbuf, this`bitcnt, this`err
      ensures Valid() && r < Pow2(need) && (old(err) ==> err)
      ensures !old(err) && |old(Rem())| < need ==> err
      ensures !old(err) && |old(Rem())| >= need ==>
                !err && r == LsbVal(old(Rem())[..need]) && Rem() == old(Rem())[need..]
    {
      hide LsbBits, LsbVal, BytesBits, Pow2, Shr, Low, Join;
      ghost var bits := Rem();
      var val: nat := bitbuf;
      while bitcnt < need
        invariant incnt <= |input|
        invariant val < Pow2(bitcnt) && err == old(err) && outcnt == old(outcnt)
        invariant bitbuf == old(bitbuf) && old(bitcnt) <= bitcnt
        invariant LsbBits(val, bitcnt) + BytesBits(input[incnt..]) == bits
        invariant bitcnt == old(bitcnt) || bitcnt - 8 < need
        decreases |input| - incnt
      {
        if incnt == |input| {
          Pow2Mono(old(bitcnt), bitcnt);
          Pow2Pos(need);
          err := true;
          return 0;
        }
        AppendByte(val, bitcnt, input[incnt], input[incnt..]);
        val := Join(val, input[incnt], bitcnt);
        incnt := incnt + 1;
        bitcnt := bitcnt + 8;
      }
      TakeBits(val, bitcnt, need, BytesBits(input[incnt..]));
      bitbuf := Shr(val, need);
      bitcnt := bitcnt - need;
      r := Low(val, need);
    }

    /** inf_decode: one symbol, or -99 when the input runs out, or -9 when no code matches. */
    method InfDecode(h: Tables, ghost lens: seq<nat>) returns (sym: int)
      requires Valid() && !err && ValidLengths(lens) && IsTable(lens, h.count[..], h.symbol[..])
      modifies this`incnt, this`bitbuf, this`bitcnt, this`err
      ensures Valid()
      ensures Decode(lens, old(Rem())).OutOfInput? ==> sym == -99
      ensures Decode(lens, old(Rem())).BadCode? ==> sym == -9
      ensures Decode(lens, old(Rem())).Symbol? ==>
                !err && sym == Decode(lens, old(Rem())).sym && Rem() == old(Rem())[Decode(lens, old(Rem())).used..]
    {
      hide LsbBits, BytesBits, CountIn, NextCode, Offset, Pow2, MsbVal, LsbVal, AllPlaced, BlCount, DecodeFrom,
          PastLength;
      ghost var bits := Rem();
      var code: nat, first: nat, index: nat := 0, 0, 0;
      WalkStart(lens, bits);
      var len := 1;
      while len <= MAXBITS
        invariant 1 <= len <= MAXBITS + 1 && Valid() && !err
        invariant len - 1 <= |bits| && Rem() == bits[len - 1..]
        invariant PastLength(lens, bits, len - 1)
        invariant Decode(lens, bits) == DecodeFrom(lens, bits, len)
        invariant code == 2 * MsbVal(bits[..len - 1]) && first == NextCode(lens, len) && index == Offset(lens, len)
      {
        var b := InfBits(1);
        if err { return -99; }
        OneBit(bits, len, b);
        code := code + b;
        var count := h.count[len];
        WalkStep(lens, bits, len);
        if code - count < first {
          SlotOfNth(lens, h.count[..], h.symbol[..], len, code - first);
          return h.symbol[index + (code - first)];
        }
        index := index + count;
        first := 2 * (first + count);
        code := 2 * code;
        len := len + 1;
      }
      return -9;
    }

    /** out[outcnt++] = b. */
    method PutByte(b: byte)
      requires Valid() && outcnt < dest.Length
      modifies this`outcnt, dest
      ensures Valid() && Out() == old(Out()) + [b] && outcnt == old(outcnt) + 1
    {
      dest[outcnt] := b;
      outcnt := outcnt + 1;
    }

    /** inf_stored: realign, read LEN, skip NLEN, copy. */
    method InfStored() returns (ret: int)
      requires Valid() && !err
      modifies this, dest
      ensures Valid() && !err
      ensures var r := Stored(old(Rem()), old(Out()), dest.Length);
              ret == r.code && Out() == r.out && (ret == 0 ==> Rem() == r.rest)
    {
      hide LsbBits, LsbVal, BytesBits, StoredBody;
      ghost var bits := Rem();
      AlignedRem(LsbBits(bitbuf, bitcnt), BytesBits(input[incnt..]));
      bitbuf, bitcnt := 0, 0;
      NoBits(input[incnt..]);
      assert Rem() == Aligned(bits) == BytesBits(input[incnt..]);
      if incnt + 4 > |input| { return 2; }
      LenField(input[incnt..]);
      BytesBitsDrop(input[incnt..], 4);
      assert input[incnt..][4..] == input[incnt + 4..];
      var len: nat := input[incnt] as int + 256 * (input[incnt + 1] as int);
      incnt := incnt + 4;
      NoBits(input[incnt..]);
      ret := CopyStored(len);
    }

    /** The len bytes of a stored block, as far as the output has room. */
    method CopyStored(len: nat) returns (ret: int)
      requires Valid() && !err && bitbuf == 0 && bitcnt == 0
      modifies this, dest
      ensures Valid() && !err
      ensures var r := StoredBody(len, BytesBits(old(input[incnt..])), old(Out()), dest.Length);
              ret == r.code && Out() == r.out && (ret == 0 ==> Rem() == r.rest)
    {
      hide LsbBits, BytesBits, BitsBytes;
      if incnt + len > |input| { return 2; }
      ghost var from, out0 := input[incnt..], Out();
      var i := 0;
      while i < len
        invariant 0 <= i <= len <= |from| && Valid() && !err && bitcnt == 0 && bitbuf == 0
        invariant input[incnt..] == from[i..] && outcnt == |out0| + i
        invariant Out() == out0 + from[..i]
      {
        if outcnt == dest.Length {
          StoredBytes(from, i);
          return 1;
        }
        assert from[i] == input[incnt..][0];
        PutByte(input[incnt]);
        incnt := incnt + 1;
        i := i + 1;
      }
      StoredBytes(from, len);
      NoBits(input[incnt..]);
      return 0;
    }

    /** The two copy loops of inf_codes: n bytes from dist back, byte by byte. */
    method CopyBack(dist: nat, n: nat)
      requires Valid() && 1 <= dist <= outcnt && outcnt + n <= dest.Length
      modifies this`outcnt, dest
      ensures Valid() && Out() == Copy(old(Out()), dist, n)
    {
      hide Copy;
      var i := 0;
      CopyUnfold(Out(), dist, n);
      while i < n
        invariant 0 <= i <= n && Valid() && outcnt == old(outcnt) + i
        invariant Copy(Out(), dist, n - i) == Copy(old(Out()), dist, n)
        invariant i == n ==> Out() == Copy(old(Out()), dist, n)
      {
        ghost var o := Out();
        CopyUnfold(o, dist, n - i);
        CopyUnfold(o + [o[|o| - dist]], dist, n - i - 1);
        assert dest[outcnt - dist] == o[|o| - dist];
        PutByte(dest[outcnt - dist]);
        i := i + 1;
      }
    }

    /** inf_codes: literals and matches until end of block. */
    method InfCodes(lencode: Tables, distcode: Tables, ghost ll: seq<nat>, ghost dl: seq<nat>) returns (ret: int)
      requires Valid() && !err && ValidLengths(ll) && ValidLengths(dl)
      requires IsTable(ll, lencode.count[..], lencode.symbol[..])
               && IsTable(dl, distcode.count[..], distcode.symbol[..])
      requires dest as object !in {lencode.count as object, lencode.symbol, distcode.count, distcode.symbol}
      modifies this, dest
      ensures Valid()
      ensures var r := Codes(ll, dl, old(Rem()), old(Out()), dest.Length);
              ret == r.code && Out() == r.out && (ret == 0 ==> !err && Rem() == r.rest)
    {
      hide LsbBits, BytesBits, IsTable, Codes, ParseToken, Emit;
      ghost var r := Codes(ll, dl, Rem(), Out(), dest.Length);
      ret := 0;
      var done := false;
      while !done
        invariant Valid()
        invariant !done ==> !err && Codes(ll, dl, Rem(), Out(), dest.Length) == r
        invariant done ==> ret == r.code && Out() == r.out && (ret == 0 ==> !err && Rem() == r.rest)
        decreases !done, |Rem()|
      {
        ghost var bits := Rem();
        CodesUnfold(ll, dl, bits, Out(), dest.Length);
        var item := NextItem(lencode, distcode, ll, dl);
        done, ret := Deliver(item, ParseToken(ll, dl, bits), bits);
      }
    }

    /** What inf_codes does with one token. */
    method Deliver(item: Item, ghost p: Parsed, ghost bits: seq<bool>) returns (done: bool, ret: int)
      requires Valid() && item.Is(p) && p.Shorter(bits) && (!item.BadItem? ==> !err && Rem() == p.rest)
      modifies this`outcnt, dest
      ensures Valid()
      ensures match Emit(p, bits, old(Out()), dest.Length)
              case Stop(r) => done && ret == r.code && Out() == r.out && (ret == 0 ==> !err && Rem() == r.rest)
              case Next(rest, out) => !done && !err && Rem() == rest && Out() == out
    {
      hide LsbBits, BytesBits, Copy;
      ret := 0;
      done := true;
      match item
      case BadItem(code) => ret := code;
      case EndItem =>
      case LitItem(b) =>
        if outcnt == dest.Length { return true, 1; }
        PutByte(b);
        done := false;
      case MatchItem(len, dist) =>
        if dist > outcnt { return true, -12; }
        if outcnt + len > dest.Length {
          CopyBack(dist, dest.Length - outcnt);
          return true, 1;
        }
        CopyBack(dist, len);
        done := false;
    }

    /** One literal/length symbol with, for a match, its extra bits and distance. */
    method NextItem(lencode: Tables, distcode: Tables, ghost ll: seq<nat>, ghost dl: seq<nat>) returns (item: Item)
      requires Valid() && !err && ValidLengths(ll) && ValidLengths(dl)
      requires IsTable(ll, lencode.count[..], lencode.symbol[..])
               && IsTable(dl, distcode.count[..], distcode.symbol[..])
      modifies this`incnt, this`bitbuf, this`bitcnt, this`err
      ensures Valid() && item.Is(ParseToken(ll, dl, old(Rem())))
      ensures !item.BadItem? ==> !err && Rem() == ParseToken(ll, dl, old(Rem())).rest
    {
      hide LsbBits, BytesBits, LsbVal, Decode, IsTable, LenBase, LenExtra, DistBase, DistExtra;
      var symbol := InfDecode(lencode, ll);
      if symbol < 0 { return BadItem(symbol); }
      if symbol < 256 { return LitItem(symbol); }
      if symbol == 256 { return EndItem; }
      item := NextMatch(symbol - 257, distcode, dl);
    }

    /** The extra length bits and the distance that follow length symbol 257 + ls. */
    method NextMatch(ls: nat, distcode: Tables, ghost dl: seq<nat>) returns (item: Item)
      requires Valid() && !err && ValidLengths(dl) && IsTable(dl, distcode.count[..], distcode.symbol[..])
      modifies this`incnt, this`bitbuf, this`bitcnt, this`err
      ensures Valid() && item.Is(ParseMatch(dl, ls, old(Rem())))
      ensures !item.BadItem? ==> !err && Rem() == ParseMatch(dl, ls, old(Rem())).rest
    {
      hide LsbBits, BytesBits, LsbVal, Decode, IsTable, LenBase, LenExtra, DistBase, DistExtra;
      if ls >= 29 { return BadItem(-10); }
      LengthTable(ls);
      var extra := InfBits(LEXT[ls]);
      if err { return BadItem(-99); }
      var len := LENS[ls] + extra;
      var ds := InfDecode(distcode, dl);
      if ds < 0 { return BadItem(ds); }
      if ds >= 30 { return BadItem(-11); }
      DistTable(ds);
      extra := InfBits(DEXT[ds]);
      if err { return BadItem(-99); }
      return MatchItem(len, DISTS[ds] + extra);
    }

    /** inf_fixed: the codes of RFC 1951, section 3.2.6. */
    method InfFixed() returns (ret: int)
      requires Valid() && !err
      modifies this, dest
      ensures Valid()
      ensures var r := Codes(FixedLens(), FixedDists(), old(Rem()), old(Out()), dest.Length);
              ret == r.code && Out() == r.out && (ret == 0 ==> !err && Rem() == r.rest)
    {
      hide LsbBits, BytesBits, Codes, IsTable, FixedLens, FixedDists;
      var lencode := NewTables(FIXLCODES);
      var distcode := NewTables(MAXDCODES);
      FixedAccepted();
      FixedDistsAccepted();
      var _ := InfConstruct(lencode, FixedLens());
      var _ := InfConstruct(distcode, FixedDists());
      ret := InfCodes(lencode, distcode, FixedLens(), FixedDists());
    }

    /** inf_dynamic: read the two codes, then the tokens. */
    method InfDynamic() returns (ret: int)
      requires Valid() && !err
      modifies this, dest
      ensures Valid()
      ensures var r := Dynamic(old(Rem()), old(Out()), dest.Length);
              ret == r.code && Out() == r.out && (ret == 0 ==> !err && Rem() == r.rest)
    {
      hide LsbBits, LsbVal, BytesBits, Codes, IsTable, DynamicHeader, Pow2;
      var lencode := NewTables(MAXLCODES);
      var distcode := NewTables(MAXDCODES);
      ghost var ll: seq<nat>, dl: seq<nat>;
      ret, ll, dl := ReadHeader(lencode, distcode);
      if ret == 0 { ret := InfCodes(lencode, distcode, ll, dl); }
    }

    /** The header part of inf_dynamic. */
    method ReadHeader(lencode: Tables, distcode: Tables) returns (ret: int, ghost ll: seq<nat>, ghost dl: seq<nat>)
      requires Valid() && !err
      requires lencode.count.Length == MAXBITS + 1 == distcode.count.Length
      requires lencode.symbol.Length == MAXLCODES && distcode.symbol.Length == MAXDCODES
      requires lencode.count != lencode.symbol && distcode.count != distcode.symbol
      requires {lencode.count, lencode.symbol} !! {distcode.count, distcode.symbol}
      modifies this`incnt, this`bitbuf, this`bitcnt, this`err
      modifies lencode.count, lencode.symbol, distcode.count, distcode.symbol
      ensures Valid()
      ensures match DynamicHeader(old(Rem()))
              case BadHeader(code) => ret == code
              case Header(l, d, rest) =>
                && ret == 0 && !err && ll == l && dl == d && Rem() == rest && ValidLengths(l) && ValidLengths(d)
                && IsTable(l, lencode.count[..], lencode.symbol[..])
                && IsTable(d, distcode.count[..], distcode.symbol[..])
    {
      hide LsbBits, LsbVal, BytesBits, IsTable, Pow2, ReadAll, ClLens, Usable, Accepted, Slack;
      ll, dl := [], [];
      ghost var bits := Rem();
      var nlen, ndist, ncode := ReadCounts();
      if err { return -99, ll, dl; }
      if nlen > MAXLCODES || ndist > MAXDCODES { return -3, ll, dl; }
      var lengths := new nat[MAXLCODES + MAXDCODES];
      assert Rem() == bits[14..];
      ReadClLens(lengths, ncode);
      if err { return -99, ll, dl; }
      assert Rem() == bits[14 + 3 * ncode..];
      ghost var cl := lengths[..19];
      var left := InfConstruct(lencode, lengths[..19]);
      if left != 0 { return -4, ll, dl; }
      ret := ReadCodeLengths(lengths, lencode, cl, nlen + ndist);
      if ret != 0 { return ret, ll, dl; }
      ghost var lens := lengths[..nlen + ndist];
      assert lens[256] == lengths[256];
      assert lens[..nlen] == lengths[..nlen] && lens[nlen..] == lengths[nlen..nlen + ndist];
      if lengths[256] == 0 { return -9, ll, dl; }
      ll, dl := lengths[..nlen], lengths[nlen..nlen + ndist];
      var ok := ConstructUsable(lencode, lengths[..nlen]);
      if !ok { return -7, ll, dl; }
      ok := ConstructUsable(distcode, lengths[nlen..nlen + ndist]);
      if !ok { return -8, ll, dl; }
    }

    /** HLIT, HDIST and HCLEN. */
    method ReadCounts() returns (nlen: nat, ndist: nat, ncode: nat)
      requires Valid() && !err
      modifies this`incnt, this`bitbuf, this`bitcnt, this`err
      ensures Valid() && 257 <= nlen && 1 <= ndist && 4 <= ncode <= 19
      ensures err <==> |old(Rem())| < 14
      ensures !err ==>
                && nlen == LsbVal(old(Rem())[..5]) + 257 && ndist == LsbVal(old(Rem())[5..10]) + 1
                && ncode == LsbVal(old(Rem())[10..14]) + 4 && Rem() == old(Rem())[14..]
    {
      hide LsbBits, LsbVal, BytesBits;
      ghost var bits := Rem();
      nlen := InfBits(5);
      nlen := nlen + 257;
      ndist := InfBits(5);
      ndist := ndist + 1;
      ncode := InfBits(4);
      assert Pow2(4) == 16;
      ncode := ncode + 4;
      if |bits| >= 14 { CutCounts(bits); }
    }

    /** The code-length code lengths, in transmission order; errors are checked afterwards. */
    method ReadClLens(lengths: array<nat>, ncode: nat)
      requires Valid() && !err && lengths.Length >= 19 && ncode <= 19
      modifies this`incnt, this`bitbuf, this`bitcnt, this`err, lengths
      ensures Valid()
      ensures err <==> |old(Rem())| < 3 * ncode
      ensures !err ==> Rem() == old(Rem())[3 * ncode..] && lengths[..19] == ClLens(old(Rem()), ncode)
    {
      hide LsbBits, LsbVal, BytesBits, Pow2, ClLens, OrderAt, Fields;
      ghost var bits := Rem();
      var index := 0;
      NoFields(lengths[..19], bits);
      while index < ncode
        invariant 0 <= index <= ncode && Valid()
        invariant err <==> |bits| < 3 * index
        invariant !err ==> Rem() == bits[3 * index..]
        invariant !err ==> Fields(lengths[..19], bits, index)
      {
        ghost var before, rem := lengths[..19], if err then [] else Rem();
        var v := InfBits(3);
        lengths[OrderAt(index)] := v;
        if !err {
          CutField(bits, 3 * index, rem);
          FieldStep(before, bits, index);
          assert lengths[..19] == before[OrderAt(index) := v];
        }
        index := index + 1;
      }
      ghost var read := lengths[..19];
      ZeroRest(lengths, ncode);
      if !err { FieldsKept(read, lengths[..19], bits, ncode); }
      if !err { FieldsAreClLens(lengths[..19], bits, ncode); }
    }

    /** The repeat count of code-length symbol 16, 17 or 18, or a negative error. */
    method ReadRun(symbol: nat, total: nat, index: nat) returns (n: int)
      requires Valid() && !err && symbol >= 16
      modifies this`incnt, this`bitbuf, this`bitcnt, this`err
      ensures Valid()
      ensures match ParseRun(symbol, old(Rem()), total, index)
              case BadRun(code) => n == code
              case Run(k, rest) => n == k && !err && Rem() == rest
    {
      hide LsbBits, LsbVal, BytesBits, Pow2;
      if symbol == 16 && index == 0 { return -5; }
      var extra := InfBits(RepeatExtra(symbol));
      if err { return -99; }
      n := RepeatBase(symbol) + extra;
      if index + n > total { return -6; }
    }

    /** The run-length coded lengths of both codes. */
    method ReadCodeLengths(lengths: array<nat>, lencode: Tables, ghost cl: seq<nat>, total: nat) returns (ret: int)
      requires Valid() && !err && |cl| == 19 && ValidLengths(cl) && IsTable(cl, lencode.count[..], lencode.symbol[..])
      requires total <= lengths.Length && lengths != lencode.count && lengths != lencode.symbol
      modifies this`incnt, this`bitbuf, this`bitcnt, this`err, lengths
      ensures Valid()
      ensures match ReadAll(cl, old(Rem()), total)
              case NoLengths(code) => ret == code
              case Lengths(lens, rest) => ret == 0 && !err && lengths[..total] == lens && Rem() == rest
    {
      hide LsbBits, LsbVal, BytesBits, IsTable, Pow2, ReadLengths, ParseRun, Decode;
      ghost var r := ReadAll(cl, Rem(), total);
      var index := 0;
      assert lengths[..0] == [];
      while index < total
        invariant 0 <= index <= total && Valid() && !err && ValidLengths(lengths[..index])
        invariant ReadLengths(cl, Rem(), total, lengths[..index]) == r
        decreases |Rem()|
      {
        ghost var bits, acc := Rem(), lengths[..index];
        ReadUnfold(cl, bits, total, acc);
        var symbol := InfDecode(lencode, cl);
        if symbol < 0 { return symbol; }
        if symbol < 16 {
          ReadUnfoldShort(cl, bits, total, acc, symbol, Decode(cl, bits).used);
          lengths[index] := symbol;
          index := index + 1;
          assert lengths[..index] == acc + [symbol];
        } else {
          ghost var used := Decode(cl, bits).used;
          ReadUnfoldRun(cl, bits, total, acc, symbol, used, ParseRun(symbol, bits[used..], total, |acc|));
          var n := ReadRun(symbol, total, index);
          if n < 0 { return n; }
          var len := if symbol == 16 then lengths[index - 1] else 0;
          Fill(lengths, index, n, len);
          index := index + n;
          assert lengths[..index] == acc + Repeat(len, n);
        }
      }
      ReadUnfold(cl, Rem(), total, lengths[..index]);
      return 0;
    }
  }

  /** The first n transmitted code-length code lengths are in place. */
  ghost predicate Fields(ls: seq<nat>, bits: seq<bool>, n: nat)
    requires |ls| == 19 && n <= 19
  {
    3 * n <= |bits| && forall i :: 0 <= i < n ==> ls[OrderAt(i)] == LsbVal(bits[3 * i..3 * i + 3])
  }

  lemma FieldsKept(before: seq<nat>, after: seq<nat>, bits: seq<bool>, n: nat)
    requires |before| == |after| == 19 && n <= 19 && Fields(before, bits, n)
    requires forall i :: 0 <= i < n ==> after[OrderAt(i)] == before[OrderAt(i)]
    ensures Fields(after, bits, n)
  {
    hide OrderAt, LsbVal;
  }

  lemma NoFields(ls: seq<nat>, bits: seq<bool>)
    requires |ls| == 19
    ensures Fields(ls, bits, 0)
  {
  }

  lemma FieldStep(ls: seq<nat>, bits: seq<bool>, n: nat)
    requires |ls| == 19 && n < 19 && Fields(ls, bits, n) && 3 * n + 3 <= |bits|
    ensures OrderAt(n) < 19 && Fields(ls[OrderAt(n) := LsbVal(bits[3 * n..3 * n + 3])], bits, n + 1)
  {
    hide LsbVal, OrderAt;
    OrderDistinct(n);
  }

  lemma FieldsAreClLens(ls: seq<nat>, bits: seq<bool>, n: nat)
    requires |ls| == 19 && n <= 19 && Fields(ls, bits, n)
    requires forall i :: n <= i < 19 ==> ls[OrderAt(i)] == 0
    ensures ls == ClLens(bits, n)
  {
    hide LsbVal, ClLens, OrderAt;
    forall j | 0 <= j < 19 ensures ls[j] == ClLens(bits, n)[j] {
      OrderInverse(j);
      ClLensField(bits, n, POSITION[j]);
    }
  }

  /** The code-length code lengths that were not transmitted become zero. */
  method ZeroRest(lengths: array<nat>, ncode: nat)
    requires lengths.Length >= 19 && ncode <= 19
    modifies lengths
    ensures forall i :: 0 <= i < ncode ==> lengths[OrderAt(i)] == old(lengths[OrderAt(i)])
    ensures forall i :: ncode <= i < 19 ==> lengths[OrderAt(i)] == 0
  {
    var index := ncode;
    while index < 19
      invariant ncode <= index <= 19
      invariant forall i :: 0 <= i < ncode ==> lengths[OrderAt(i)] == old(lengths[OrderAt(i)])
      invariant forall i :: ncode <= i < index ==> lengths[OrderAt(i)] == 0
    {
      OrderDistinct(index);
      lengths[OrderAt(index)] := 0;
      index := index + 1;
    }
  }

  method Fill(a: array<nat>, from: nat, n: nat, v: nat)
    requires from + n <= a.Length
    modifies a
    ensures a[..from] == old(a[..from]) && a[from..from + n] == Repeat(v, n)
  {
    var i := 0;
    while i < n
      invariant 0 <= i <= n && a[..from] == old(a[..from])
      invariant forall k :: from <= k < from + i ==> a[k] == v
    {
      a[from + i] := v;
      i := i + 1;
    }
  }

  method NewTables(n: nat) returns (h: Tables)
    ensures fresh(h.count) && fresh(h.symbol) && h.count != h.symbol
    ensures h.count.Length == MAXBITS + 1 && h.symbol.Length == n
  {
    var count := new nat[MAXBITS + 1];
    var symbol := new nat[n];
    h := Tables(count, symbol);
  }

  /** Build a code and apply the completeness test of inf_dynamic. */
  method ConstructUsable(h: Tables, lens: seq<nat>) returns (ok: bool)
    requires h.count.Length == MAXBITS + 1 && |lens| <= h.symbol.Length && h.count != h.symbol && ValidLengths(lens)
    modifies h.count, h.symbol
    ensures ok <==> Usable(lens)
    ensures ok ==> IsTable(lens, h.count[..], h.symbol[..])
  {
    hide IsTable, CountIn, Left, Accepted;
    var left := InfConstruct(h, lens);
    ok := !(left < 0 || (left > 0 && |lens| - h.count[0] != 1));
  }

  lemma CutCounts(bits: seq<bool>)
    requires |bits| >= 14
    ensures bits[5..][..5] == bits[5..10] && bits[5..][5..] == bits[10..]
    ensures bits[10..][..4] == bits[10..14] && bits[10..][4..] == bits[14..]
  {
  }

  lemma CutField(bits: seq<bool>, k: nat, rest: seq<bool>)
    requires k + 3 <= |bits| && rest == bits[k..]
    ensures rest[..3] == bits[k..k + 3] && rest[3..] == bits[k + 3..]
  {
  }

  lemma OrderDistinct(n: nat)
    requires n < 19
    ensures OrderAt(n) < 19 && forall i :: 0 <= i < 19 && i != n ==> OrderAt(i) != OrderAt(n)
  {
    OrderInverse(n);
    forall i | 0 <= i < 19 && i != n ensures OrderAt(i) != OrderAt(n) { OrderInverse(i); }
  }

  lemma ReadUnfold(cl: seq<nat>, bits: seq<bool>, total: nat, acc: seq<nat>)
    requires |acc| <= total && ValidLengths(acc)
    ensures |acc| == total ==> ReadLengths(cl, bits, total, acc) == Lengths(acc, bits)
    ensures |acc| < total && Decode(cl, bits).OutOfInput? ==> ReadLengths(cl, bits, total, acc) == NoLengths(-99)
    ensures |acc| < total && Decode(cl, bits).BadCode? ==> ReadLengths(cl, bits, total, acc) == NoLengths(-9)
  {
    hide Decode, ParseRun;
  }

  lemma ReadUnfoldShort(cl: seq<nat>, bits: seq<bool>, total: nat, acc: seq<nat>, s: nat, used: nat)
    requires |acc| < total && ValidLengths(acc) && Decode(cl, bits) == Symbol(s, used) && s < 16
    ensures ValidLengths(acc + [s])
    ensures ReadLengths(cl, bits, total, acc) == ReadLengths(cl, bits[used..], total, acc + [s])
  {
    hide Decode, ParseRun;
  }

  lemma ReadUnfoldRun(cl: seq<nat>, bits: seq<bool>, total: nat, acc: seq<nat>, s: nat, used: nat, r: Run)
    requires |acc| < total && ValidLengths(acc) && Decode(cl, bits) == Symbol(s, used) && s >= 16
    requires r == ParseRun(s, bits[used..], total, |acc|)
    ensures r.BadRun? ==> ReadLengths(cl, bits, total, acc) == NoLengths(r.code)
    ensures r.Run? ==>
              && ValidLengths(acc + Repeat(RepeatValue(s, acc), r.n))
              && ReadLengths(cl, bits, total, acc)
                 == ReadLengths(cl, r.rest, total, acc + Repeat(RepeatValue(s, acc), r.n))
  {
    hide Decode, ParseRun;
  }

  /** rex_inflate: the return code and the number of bytes written to dest. */
  method RexInflate(dest: array<byte>, source: seq<byte>) returns (ret: int, destlen: nat)
    modifies dest
    ensures var r := Deflate.Inflate(BytesBits(source), [], dest.Length);
            ret == r.code && destlen == |r.out| && dest[..destlen] == r.out
  {
    hide BytesBits, LsbBits, LsbVal, Block, Stored, Codes, Dynamic, FixedLens, FixedDists, Deflate.Inflate;
    var s := new InfState(source, dest);
    ghost var r := Deflate.Inflate(s.Rem(), [], dest.Length);
    ret := 0;
    var last := false;
    while !last
      invariant s.Valid() && s.dest == dest && fresh(s)
      invariant !last ==> !s.err && Deflate.Inflate(s.Rem(), s.Out(), dest.Length) == r
      invariant last ==> ret == r.code && s.Out() == r.out
      decreases !last, if last then 0 else |s.Rem()|
    {
      ghost var bits := s.Rem();
      InflateUnfold(bits, s.Out(), dest.Length);
      var final := s.InfBits(1);
      var kind := s.InfBits(2);
      if s.err {
        ret := 2;
        break;
      }
      BlockHeader(bits);
      BlockKinds(kind, bits[3..], s.Out(), dest.Length);
      if kind == 0 {
        ret := s.InfStored();
      } else if kind == 1 {
        ret := s.InfFixed();
      } else if kind == 2 {
        ret := s.InfDynamic();
      } else {
        ret := -1;
      }
      if ret != 0 { break; }
      last := final == 1;
    }
    destlen := s.outcnt;
  }

  lemma BlockKinds(kind: nat, bits: seq<bool>, out: seq<byte>, cap: nat)
    requires |out| <= cap
    ensures Block(kind, bits, out, cap) ==
            if kind == 0 then Stored(bits, out, cap)
            else if kind == 1 then Codes(FixedLens(), FixedDists(), bits, out, cap)
            else if kind == 2 then Dynamic(bits, out, cap)
            else Result(-1, bits, out)
  {
  }

  lemma InflateUnfold(bits: seq<bool>, out: seq<byte>, cap: nat)
    requires |out| <= cap
    ensures |bits| < 3 ==> Deflate.Inflate(bits, out, cap) == Result(2, bits, out)
    ensures |bits| >= 3 ==>
              var r := Block(LsbVal(bits[1..3]), bits[3..], out, cap);
              Deflate.Inflate(bits, out, cap) == if r.code != 0 || bits[0] then r
                  else Deflate.Inflate(r.rest, r.out, cap)
  {
    hide Block, LsbVal;
  }

  lemma BlockHeader(bits: seq<bool>)
    requires |bits| >= 3
    ensures LsbVal(bits[..1]) == Bit(bits[0]) && bits[1..][..2] == bits[1..3] && bits[1..][2..] == bits[3..]
    ensures Pow2(2) == 4
  {
    assert bits[..1][1..] == [];
  }

  lemma CopyUnfold(out: seq<byte>, dist: nat, n: nat)
    requires 1 <= dist <= |out|
    ensures Copy(out, dist, n) == if n == 0 then out else Copy(out + [out[|out| - dist]], dist, n - 1)
  {
  }

  lemma CodesUnfold(ll: seq<nat>, dl: seq<nat>, bits: seq<bool>, out: seq<byte>, cap: nat)
    requires |out| <= cap
    ensures Codes(ll, dl, bits, out, cap) ==
            match Emit(ParseToken(ll, dl, bits), bits, out, cap)
            case Stop(r) => r
            case Next(rest, out') => Codes(ll, dl, rest, out', cap)
  {
    hide ParseToken, Emit;
  }

  /** A parsed token without the bits that follow it. */
  datatype Item = LitItem(b: byte) | MatchItem(len: nat, dist: nat) | EndItem | BadItem(code: int)
  {
    ghost predicate Is(p: Parsed)
    {
      match p
      case Literal(b, _) => this == LitItem(b)
      case Match(len, dist, _) => this == MatchItem(len, dist)
      case EndOfBlock(_) => this == EndItem
      case Malformed(code) => this == BadItem(code)
    }
  }

  const LENS: seq<nat> := [
    3, 4, 5, 6, 7, 8, 9, 10, 11, 13, 15, 17, 19, 23, 27, 31,
    35, 43, 51, 59, 67, 83, 99, 115, 131, 163, 195, 227, 258]
  const LEXT: seq<nat> := [
    0, 0, 0, 0, 0, 0, 0, 0, 1, 1, 1, 1, 2, 2, 2, 2,
    3, 3, 3, 3, 4, 4, 4, 4, 5, 5, 5, 5, 0]
  const DISTS: seq<nat> := [
    1, 2, 3, 4, 5, 7, 9, 13, 17, 25, 33, 49, 65, 97, 129, 193,
    257, 385, 513, 769, 1025, 1537, 2049, 3073, 4097, 6145,
    8193, 12289, 16385, 24577]
  const DEXT: seq<nat> := [
    0, 0, 0, 0, 1, 1, 2, 2, 3, 3, 4, 4, 5, 5, 6, 6,
    7, 7, 8, 8, 9, 9, 10, 10, 11, 11, 12, 12, 13, 13]

  lemma Powers()
    ensures Pow2(0) == 1 && Pow2(1) == 2 && Pow2(2) == 4 && Pow2(3) == 8 && Pow2(4) == 16 && Pow2(5) == 32
            && Pow2(6) == 64
    ensures Pow2(7) == 128 && Pow2(8) == 256 && Pow2(9) == 512 && Pow2(10) == 1024 && Pow2(11) == 2048
            && Pow2(12) == 4096 && Pow2(13) == 8192
  {
    assert Pow2(6) == 64;
    assert Pow2(9) == 8 * Pow2(6);
    assert Pow2(11) == 4 * Pow2(9);
  }

  /** The length tables are the ones of RFC 1951, section 3.2.5. */
  lemma LengthTable(s: nat)
    requires s < 29
    ensures |LENS| == |LEXT| == 29 && LENS[s] == LenBase(s) && LEXT[s] == LenExtra(s)
  {
    Powers();
    hide Pow2;
    assert 8 <= s < 28 ==> s == 4 * (s / 4) + s % 4;
    if s < 8 {} else if s < 16 {} else if s < 24 {} else {}
  }

  lemma DistTable(s: nat)
    requires s < 30
    ensures |DISTS| == |DEXT| == 30 && DISTS[s] == DistBase(s) && DEXT[s] == DistExtra(s)
  {
    Powers();
    hide Pow2;
    assert s == 2 * (s / 2) + s % 2;
  }

  /** The table entry the walk reads is the symbol of that length and rank. */
  lemma SlotOfNth(lens: seq<nat>, count: seq<nat>, symbol: seq<nat>, l: nat, r: nat)
    requires IsTable(lens, count, symbol) && 1 <= l && r < CountIn(lens, l, |lens|)
    ensures Offset(lens, l) + r < |symbol| && symbol[Offset(lens, l) + r] == Nth(lens, l, r, |lens|)
  {
    hide CountIn, Offset;
    assert Placed(lens, symbol, Nth(lens, l, r, |lens|));
  }

  lemma WalkStart(lens: seq<nat>, bits: seq<bool>)
    ensures PastLength(lens, bits, 0) && Decode(lens, bits) == DecodeFrom(lens, bits, 1)
    ensures MsbVal(bits[..0]) == 0 && NextCode(lens, 1) == 0 && Offset(lens, 1) == 0
    ensures bits[0..] == bits
  {
  }

  /** Reading one more bit doubles the code and adds the bit. */
  lemma OneBit(bits: seq<bool>, len: nat, b: nat)
    requires 1 <= len <= |bits| && b == LsbVal(bits[len - 1..][..1])
    ensures MsbVal(bits[..len]) == 2 * MsbVal(bits[..len - 1]) + b
    ensures bits[len - 1..][1..] == bits[len..]
  {
    assert bits[..len][..len - 1] == bits[..len - 1];
    assert bits[len - 1..][..1] == [bits[len - 1]];
    assert LsbVal([bits[len - 1]]) == Bit(bits[len - 1]) + 2 * LsbVal([]);
  }

  /** One turn of the decoding walk, in the terms of its specification. */
  lemma WalkStep(lens: seq<nat>, bits: seq<bool>, k: nat)
    requires 1 <= k <= MAXBITS && k <= |bits| && PastLength(lens, bits, k - 1)
    ensures NextCode(lens, k) <= MsbVal(bits[..k])
    ensures BlCount(lens, k) == CountIn(lens, k, |lens|)
    ensures NextCode(lens, k + 1) == 2 * (NextCode(lens, k) + BlCount(lens, k))
    ensures Offset(lens, k + 1) == Offset(lens, k) + BlCount(lens, k)
    ensures MsbVal(bits[..k]) < NextCode(lens, k) + BlCount(lens, k) ==>
              DecodeFrom(lens, bits, k) == Symbol(Nth(lens, k, MsbVal(bits[..k]) - NextCode(lens, k), |lens|), k)
    ensures MsbVal(bits[..k]) >= NextCode(lens, k) + BlCount(lens, k) ==>
              PastLength(lens, bits, k) && DecodeFrom(lens, bits, k) == DecodeFrom(lens, bits, k + 1)
  {
    hide CountIn, Pow2;
    assert bits[..k][..k - 1] == bits[..k - 1];
  }

  /** Dropping the accumulator of fewer than eight bits aligns the stream. */
  lemma AlignedRem(a: seq<bool>, b: seq<bool>)
    requires |a| < 8 && |b| % 8 == 0
    ensures Aligned(a + b) == b
  {
  }

  lemma NoBits(tail: seq<byte>)
    ensures LsbBits(0, 0) + BytesBits(tail) == BytesBits(tail)
  {
  }

  lemma LenField(bs: seq<byte>)
    requires |bs| >= 4
    ensures LsbVal(BytesBits(bs)[..16]) == bs[0] as int + 256 * (bs[1] as int)
  {
    hide LsbBits, LsbVal, Pow2;
    Pow2At8();
    Pow2Add(8, 8);
    var lo, hi := bs[0] as int, bs[1] as int;
    LsbBitsAppend(lo, 8, hi, 8);
    LsbRoundTrip(lo + hi * 256, 16);
    TwoBytes(LsbBits(lo, 8), LsbBits(hi, 8), BytesBits(bs[1..][1..]), BytesBits(bs));
  }

  lemma TwoBytes(a: seq<bool>, b: seq<bool>, rest: seq<bool>, all: seq<bool>)
    requires |a| == |b| == 8 && all == a + (b + rest)
    ensures all[..16] == a + b
  {
  }

  lemma StoredBytes(bs: seq<byte>, n: nat)
    requires n <= |bs|
    ensures BitsBytes(BytesBits(bs)[..8 * n]) == bs[..n]
    ensures BytesBits(bs)[8 * n..] == BytesBits(bs[n..])
  {
    BytesBitsDrop(bs, n);
    BytesOfBytesBits(bs[..n]);
  }

  lemma Pow2Pos(n: nat)
    ensures 0 < Pow2(n)
  {
  }

  lemma {:induction false} Pow2Mono(a: nat, b: nat)
    requires a <= b
    ensures Pow2(a) <= Pow2(b)
  {
    if a < b { Pow2Mono(a, b - 1); }
  }

  /** b placed above the low n bits that hold v: val | b << n. */
  function Join(v: nat, b: nat, n: nat): nat { v + b * Pow2(n) }

  /** Moving a byte from the input into the accumulator leaves the unread bits as they were. */
  lemma AppendByte(val: nat, n: nat, b: byte, tail: seq<byte>)
    requires val < Pow2(n) && tail != [] && tail[0] == b
    ensures Join(val, b, n) < Pow2(n + 8)
    ensures LsbBits(Join(val, b, n), n + 8) + BytesBits(tail[1..]) == LsbBits(val, n) + BytesBits(tail)
  {
    hide LsbBits, Pow2;
    LsbBitsAppend(val, n, b, 8);
    Pow2Add(n, 8);
    Pow2At8();
    MulMono(b + 1, 256, Pow2(n));
    assert (b + 1) * Pow2(n) == b * Pow2(n) + Pow2(n);
  }

  /** Shifting need bits out of the accumulator reads the first need unread bits. */
  lemma TakeBits(val: nat, n: nat, need: nat, tail: seq<bool>)
    requires need <= n && val < Pow2(n)
    ensures Shr(val, need) < Pow2(n - need) && Low(val, need) < Pow2(need)
    ensures var bits := LsbBits(val, n) + tail;
            && Low(val, need) == LsbVal(bits[..need])
            && LsbBits(Shr(val, need), n - need) + tail == bits[need..]
  {
    hide LsbBits, LsbVal, Pow2, Shr, Low;
    LsbBitsSplit(val, n, need);
    ShrBound(val, n, need);
    CutConcat(LsbBits(val, n), tail, need);
  }

  lemma CutConcat<T>(a: seq<T>, b: seq<T>, k: nat)
    requires k <= |a|
    ensures (a + b)[..k] == a[..k] && (a + b)[k..] == a[k..] + b
  {
  }
}
