/**
 * What the decoder computes, as functions of the unread bits: block kinds,
 * length/distance tokens and LZ77 expansion into a buffer of fixed capacity.
 * Result codes are those of user/inflate.c.
 */
module Deflate {
  import opened Bits
  import opened Huffman

  const MAXLCODES := 286
  const MAXDCODES := 30
  const FIXLCODES := 288

  const ORDER: seq<nat> := [16, 17, 18, 0, 8, 7, 9, 6, 10, 5, 11, 4, 12, 3, 13, 2, 14, 1, 15]

  /** Base length and number of extra bits of length symbol 257 + s (RFC 1951, section 3.2.5). */
  function LenBase(s: nat): (r: nat)
    ensures r >= 3
  {
    if s < 8 then s + 3 else if s == 28 then 258 else 3 + (4 + s % 4) * Pow2(s / 4 - 1)
  }

  function LenExtra(s: nat): nat
  {
    if s < 8 || s == 28 then 0 else s / 4 - 1
  }

  /** Base distance and number of extra bits of distance symbol s (RFC 1951, section 3.2.5). */
  function DistBase(s: nat): (r: nat)
    ensures r >= 1
  {
    if s < 4 then s + 1 else 1 + (2 + s % 2) * Pow2(s / 2 - 1)
  }

  function DistExtra(s: nat): nat
  {
    if s < 4 then 0 else s / 2 - 1
  }

  /** Outcome of decoding a block or a stream: 0 ok, 1 output full, 2 input short, < 0 malformed. */
  datatype Result = Result(code: int, rest: seq<bool>, out: seq<byte>)

  // ------------------------------------------------------------------ tokens

  datatype Parsed =
    | Literal(b: byte, rest: seq<bool>)
    | Match(len: nat, dist: nat, rest: seq<bool>)
    | EndOfBlock(rest: seq<bool>)
    | Malformed(code: int)
  {
    ghost predicate Shorter(bits: seq<bool>)
    {
      match this
      case Malformed(code) => code < 0
      case Match(len, dist, rest) => |rest| < |bits| && len >= 3 && dist >= 1
      case _ => |rest| < |bits|
    }
  }

  ghost function ParseToken(ll: seq<nat>, dl: seq<nat>, bits: seq<bool>): (p: Parsed)
    ensures p.Shorter(bits)
  {
    match Decode(ll, bits)
    case OutOfInput => Malformed(-99)
    case BadCode => Malformed(-9)
    case Symbol(s, used) =>
      var rest := bits[used..];
      if s < 256 then Literal(s, rest)
      else if s == 256 then EndOfBlock(rest)
      else ParseMatch(dl, s - 257, rest)
  }

  /** The rest of a match after length symbol 257 + ls. */
  ghost function ParseMatch(dl: seq<nat>, ls: nat, bits: seq<bool>): (p: Parsed)
    ensures (p.Malformed? && p.code < 0) || (p.Match? && |p.rest| <= |bits| && p.len >= 3 && p.dist >= 1)
  {
    if ls >= 29 then Malformed(-10)
    else if |bits| < LenExtra(ls) then Malformed(-99)
    else
      var len := LenBase(ls) + LsbVal(bits[..LenExtra(ls)]);
      var b1 := bits[LenExtra(ls)..];
      match Decode(dl, b1)
      case OutOfInput => Malformed(-99)
      case BadCode => Malformed(-9)
      case Symbol(ds, used) =>
        var b2 := b1[used..];
        if ds >= 30 then Malformed(-11)
        else if |b2| < DistExtra(ds) then Malformed(-99)
        else Match(len, DistBase(ds) + LsbVal(b2[..DistExtra(ds)]), b2[DistExtra(ds)..])
  }

  /** Byte-by-byte copy from dist bytes back; source and destination may overlap. */
  function Copy(out: seq<byte>, dist: nat, len: nat): (r: seq<byte>)
    requires 1 <= dist <= |out|
    ensures |r| == |out| + len && out <= r
    decreases len
  {
    if len == 0 then out else Copy(out + [out[|out| - dist]], dist, len - 1)
  }

  /** An overlapping copy extends the last dist bytes periodically. */
  lemma {:induction false} CopyIsPeriodic(out: seq<byte>, dist: nat, len: nat, i: nat)
    requires 1 <= dist <= |out| && i < len
    ensures Copy(out, dist, len)[|out| + i] == out[|out| - dist + i % dist]
    decreases len
  {
    var out' := out + [out[|out| - dist]];
    if i == 0 {
      assert Copy(out, dist, len)[|out|] == out'[|out|];
    } else {
      CopyIsPeriodic(out', dist, len - 1, i - 1);
      PredMod(i, dist);
    }
  }

  lemma PredMod(i: nat, d: nat)
    requires i >= 1 && d >= 1
    ensures (i - 1) % d == if i % d == 0 then d - 1 else i % d - 1
  {
    if i % d == 0 {
      assert i - 1 == d * (i / d - 1) + (d - 1);
      DivModUnique(i - 1, d, i / d - 1, d - 1);
    } else {
      DivModUnique(i - 1, d, i / d, i % d - 1);
    }
  }

  lemma {:induction false} CopyPrefix(out: seq<byte>, dist: nat, m: nat, len: nat)
    requires 1 <= dist <= |out| && m <= len
    ensures Copy(out, dist, m) == Copy(out, dist, len)[..|out| + m]
    decreases len
  {
    if m == 0 {
      assert Copy(out, dist, len)[..|out|] == out;
    } else {
      var next := out + [out[|out| - dist]];
      assert Copy(out, dist, len) == Copy(next, dist, len - 1) && Copy(out, dist, m) == Copy(next, dist, m - 1);
      CopyPrefix(next, dist, m - 1, len - 1);
    }
  }

  datatype Step = Stop(r: Result) | Next(rest: seq<bool>, out: seq<byte>)

  /** What inf_codes does with a parsed token. */
  ghost function Emit(p: Parsed, bits: seq<bool>, out: seq<byte>, cap: nat): (s: Step)
    requires |out| <= cap && p.Shorter(bits)
    ensures s.Stop? ==> |s.r.rest| <= |bits| && out <= s.r.out && |s.r.out| <= cap
    ensures s.Next? ==> |s.rest| < |bits| && out <= s.out && |s.out| <= cap
  {
    match p
    case Malformed(code) => Stop(Result(code, bits, out))
    case EndOfBlock(rest) => Stop(Result(0, rest, out))
    case Literal(b, rest) =>
      if |out| == cap then Stop(Result(1, rest, out)) else Next(rest, out + [b])
    case Match(len, dist, rest) =>
      if dist > |out| then Stop(Result(-12, rest, out))
      else if |out| + len > cap then Stop(Result(1, rest, Copy(out, dist, cap - |out|)))
      else Next(rest, Copy(out, dist, len))
  }

  /** The loop of inf_codes. */
  ghost function Codes(ll: seq<nat>, dl: seq<nat>, bits: seq<bool>, out: seq<byte>, cap: nat): (r: Result)
    requires |out| <= cap
    ensures |r.rest| <= |bits| && out <= r.out && |r.out| <= cap
    decreases |bits|
  {
    match Emit(ParseToken(ll, dl, bits), bits, out, cap)
    case Stop(r) => r
    case Next(rest, out') => Codes(ll, dl, rest, out', cap)
  }

  // ------------------------------------------------------------------ blocks

  /** Drop what is left of the current byte: the stream is whole bytes, so that is |bits| mod 8 bits. */
  function Aligned(bits: seq<bool>): (r: seq<bool>)
    ensures |r| % 8 == 0 && |r| <= |bits|
  {
    bits[|bits| % 8..]
  }

  ghost function Stored(bits: seq<bool>, out: seq<byte>, cap: nat): (r: Result)
    requires |out| <= cap
    ensures |r.rest| <= |bits| && out <= r.out && |r.out| <= cap
  {
    var a := Aligned(bits);
    if |a| < 32 then Result(2, a, out) else StoredBody(LsbVal(a[..16]), a[32..], out, cap)
  }

  /** The len literal bytes of a stored block. */
  ghost function StoredBody(len: nat, body: seq<bool>, out: seq<byte>, cap: nat): (r: Result)
    requires |out| <= cap
    ensures |r.rest| <= |body| && out <= r.out && |r.out| <= cap
  {
    if |body| < 8 * len then Result(2, body, out)
    else if |out| + len > cap then Result(1, body, out + BitsBytes(body[..8 * (cap - |out|)]))
    else Result(0, body[8 * len..], out + BitsBytes(body[..8 * len]))
  }

  function FixedLens(): (lens: seq<nat>)
    ensures |lens| == FIXLCODES && ValidLengths(lens)
  {
    seq(FIXLCODES, i => if i < 144 then 8 else if i < 256 then 9 else if i < 280 then 7 else 8)
  }

  function FixedDists(): (lens: seq<nat>)
    ensures |lens| == MAXDCODES && ValidLengths(lens)
  {
    seq(MAXDCODES, i => 5)
  }

  /** The code-length code lengths: n three-bit fields in transmission order, the rest zero. */
  ghost function ClLens(bits: seq<bool>, n: nat): (lens: seq<nat>)
    requires n <= 19 && 3 * n <= |bits|
    ensures |lens| == 19 && forall i :: 0 <= i < 19 ==> lens[i] < 8
  {
    if n == 0 then seq(19, i => 0)
    else
      assert Pow2(3) == 8;
      ClLens(bits, n - 1)[OrderAt(n - 1) := LsbVal(bits[3 * (n - 1)..3 * n])]
  }

  /** Where each code-length symbol stands in the transmission order. */
  const POSITION: seq<nat> := [3, 17, 15, 13, 11, 9, 7, 5, 4, 6, 8, 10, 12, 14, 16, 18, 0, 1, 2]

  /** The code-length symbol transmitted in place i. */
  function OrderAt(i: nat): (r: nat)
    requires i < 19
    ensures r < 19
  {
    ORDER[i]
  }

  lemma OrderInverse(i: nat)
    requires i < 19
    ensures OrderAt(i) < 19 && POSITION[OrderAt(i)] == i
    ensures POSITION[i] < 19 && OrderAt(POSITION[i]) == i
  {
  }

  lemma {:induction false} ClLensField(bits: seq<bool>, n: nat, i: nat)
    requires n <= 19 && 3 * n <= |bits| && i < 19
    ensures OrderAt(i) < 19
    ensures ClLens(bits, n)[OrderAt(i)] == if i < n then LsbVal(bits[3 * i..3 * i + 3]) else 0
    decreases n
  {
    hide LsbVal, Pow2, OrderAt;
    OrderInverse(i);
    if n > 0 {
      OrderInverse(n - 1);
      ClLensField(bits, n - 1, i);
    }
  }

  datatype Lengths = Lengths(lens: seq<nat>, rest: seq<bool>) | NoLengths(code: int)

  function Repeat(v: nat, n: nat): (r: seq<nat>)
    ensures |r| == n
  {
    seq(n, i => v)
  }

  /** Run-length coded code lengths until total of them are known. */
  ghost function ReadLengths(cl: seq<nat>, bits: seq<bool>, total: nat, acc: seq<nat>): (r: Lengths)
    requires |acc| <= total && ValidLengths(acc)
    ensures r.Lengths? ==> |r.lens| == total && ValidLengths(r.lens) && |r.rest| <= |bits| && acc <= r.lens
    ensures r.NoLengths? ==> r.code < 0
    decreases |bits|
  {
    if |acc| == total then Lengths(acc, bits)
    else
      match Decode(cl, bits)
      case OutOfInput => NoLengths(-99)
      case BadCode => NoLengths(-9)
      case Symbol(s, used) =>
        var rest := bits[used..];
        if s < 16 then ReadLengths(cl, rest, total, acc + [s])
        else
          match ParseRun(s, rest, total, |acc|)
          case BadRun(code) => NoLengths(code)
          case Run(n, rest') => ReadLengths(cl, rest', total, acc + Repeat(RepeatValue(s, acc), n))
  }

  datatype Run = Run(n: nat, rest: seq<bool>) | BadRun(code: int)

  /** How often code-length symbol s >= 16 repeats, when have lengths are already known. */
  ghost function ParseRun(s: nat, bits: seq<bool>, total: nat, have: nat): (r: Run)
    requires s >= 16
    ensures r.Run? ==> |r.rest| <= |bits| && have + r.n <= total && (s == 16 ==> have > 0)
    ensures r.BadRun? ==> r.code < 0
  {
    if s == 16 && have == 0 then BadRun(-5)
    else if |bits| < RepeatExtra(s) then BadRun(-99)
    else
      var n := RepeatBase(s) + LsbVal(bits[..RepeatExtra(s)]);
      if have + n > total then BadRun(-6) else Run(n, bits[RepeatExtra(s)..])
  }

  ghost function ReadAll(cl: seq<nat>, bits: seq<bool>, total: nat): (r: Lengths)
    ensures r.Lengths? ==> |r.lens| == total && ValidLengths(r.lens) && |r.rest| <= |bits|
    ensures r.NoLengths? ==> r.code < 0
  {
    ReadLengths(cl, bits, total, [])
  }

  function RepeatExtra(s: nat): nat { if s == 16 then 2 else if s == 17 then 3 else 7 }
  function RepeatBase(s: nat): nat { if s == 18 then 11 else if s <= 17 then 3 else 11 }
  function RepeatValue(s: nat, acc: seq<nat>): nat
    requires s == 16 ==> acc != []
  {
    if s == 16 then acc[|acc| - 1] else 0
  }

  /** A literal or distance code the decoder accepts: complete, empty, or a single code. */
  ghost predicate Usable(lens: seq<nat>)
  {
    Accepted(lens) && (Slack(lens) == 0 || |lens| - CountIn(lens, 0, |lens|) == 1)
  }

  datatype Header = Header(ll: seq<nat>, dl: seq<nat>, rest: seq<bool>) | BadHeader(code: int)

  /** The two codes that a dynamic block announces. */
  ghost function DynamicHeader(bits: seq<bool>): (h: Header)
    ensures h.Header? ==> |h.rest| <= |bits|
    ensures h.BadHeader? ==> h.code < 0
  {
    if |bits| < 14 then BadHeader(-99)
    else
      var nlen := LsbVal(bits[..5]) + 257;
      var ndist := LsbVal(bits[5..10]) + 1;
      var ncode := LsbVal(bits[10..14]) + 4;
      if nlen > MAXLCODES || ndist > MAXDCODES then BadHeader(-3)
      else if |bits| < 14 + 3 * ncode then BadHeader(-99)
      else
        assert ncode <= 19 by { assert Pow2(4) == 16; }
        var cl := ClLens(bits[14..], ncode);
        if !(Accepted(cl) && Slack(cl) == 0) then BadHeader(-4)
        else
          match ReadAll(cl, bits[14 + 3 * ncode..], nlen + ndist)
          case NoLengths(code) => BadHeader(code)
          case Lengths(lens, rest) => SplitLengths(lens, nlen, rest)
  }

  ghost function SplitLengths(lens: seq<nat>, nlen: nat, bits: seq<bool>): (h: Header)
    requires 257 <= nlen <= |lens|
    ensures h.Header? ==> h.rest == bits
    ensures h.BadHeader? ==> h.code < 0
  {
    if lens[256] == 0 then BadHeader(-9)
    else if !Usable(lens[..nlen]) then BadHeader(-7)
    else if !Usable(lens[nlen..]) then BadHeader(-8)
    else Header(lens[..nlen], lens[nlen..], bits)
  }

  ghost function Dynamic(bits: seq<bool>, out: seq<byte>, cap: nat): (r: Result)
    requires |out| <= cap
    ensures |r.rest| <= |bits| && out <= r.out && |r.out| <= cap
  {
    match DynamicHeader(bits)
    case BadHeader(code) => Result(code, bits, out)
    case Header(ll, dl, rest) => Codes(ll, dl, rest, out, cap)
  }

  ghost function Block(kind: nat, bits: seq<bool>, out: seq<byte>, cap: nat): (r: Result)
    requires |out| <= cap
    ensures |r.rest| <= |bits| && out <= r.out && |r.out| <= cap
  {
    if kind == 0 then Stored(bits, out, cap)
    else if kind == 1 then Codes(FixedLens(), FixedDists(), bits, out, cap)
    else if kind == 2 then Dynamic(bits, out, cap)
    else Result(-1, bits, out)
  }

  /** The stream: blocks until one carries the final bit. Defined on every input. */
  ghost function Inflate(bits: seq<bool>, out: seq<byte>, cap: nat): (r: Result)
    requires |out| <= cap
    ensures out <= r.out && |r.out| <= cap
    decreases |bits|
  {
    if |bits| < 3 then Result(2, bits, out)
    else
      var r := Block(LsbVal(bits[1..3]), bits[3..], out, cap);
      if r.code != 0 || bits[0] then r else Inflate(r.rest, r.out, cap)
  }

  // -------------------------------------------------- truncation is a prefix

  /** r2 is what capacity cap makes of the complete result r1. */
  ghost predicate Truncates(r1: Result, r2: Result, cap: nat)
  {
    && (cap >= |r1.out| ==> r2 == r1)
    && (cap < |r1.out| ==> r2.code == 1 && r2.out == r1.out[..cap])
  }

  /** If capacity c1 lets a token through and c2 does not, c2 keeps a prefix of what c1 wrote. */
  lemma EmitTruncates(p: Parsed, bits: seq<bool>, out: seq<byte>, c1: nat, c2: nat)
    requires |out| <= c1 && |out| <= c2 && p.Shorter(bits)
    ensures Emit(p, bits, out, c1).Stop? && Emit(p, bits, out, c1).r.code == 0 ==>
              Emit(p, bits, out, c2) == Emit(p, bits, out, c1)
    ensures Emit(p, bits, out, c1).Next? ==>
              var s1, s2 := Emit(p, bits, out, c1), Emit(p, bits, out, c2);
              if c2 >= |s1.out| then s2 == s1
              else s2.Stop? && s2.r.code == 1 && s2.r.out == s1.out[..c2]
  {
    if p.Match? && p.dist <= |out| && c2 < |out| + p.len {
      CopyPrefix(out, p.dist, c2 - |out|, p.len);
    }
  }

  lemma {:induction false} CodesTruncates(ll: seq<nat>, dl: seq<nat>, bits: seq<bool>, out: seq<byte>, c1: nat, c2: nat)
    requires |out| <= c1 && |out| <= c2 && Codes(ll, dl, bits, out, c1).code == 0
    ensures Truncates(Codes(ll, dl, bits, out, c1), Codes(ll, dl, bits, out, c2), c2)
    decreases |bits|
  {
    var p := ParseToken(ll, dl, bits);
    EmitTruncates(p, bits, out, c1, c2);
    var s1 := Emit(p, bits, out, c1);
    if s1.Next? {
      if c2 >= |s1.out| {
        CodesTruncates(ll, dl, s1.rest, s1.out, c1, c2);
      } else {
        assert s1.out <= Codes(ll, dl, s1.rest, s1.out, c1).out;
      }
    }
  }

  lemma StoredTruncates(len: nat, body: seq<bool>, out: seq<byte>, c1: nat, c2: nat)
    requires |out| <= c1 && |out| <= c2 && StoredBody(len, body, out, c1).code == 0
    ensures Truncates(StoredBody(len, body, out, c1), StoredBody(len, body, out, c2), c2)
  {
    if |out| + len > c2 {
      var k := c2 - |out|;
      BitsBytesPrefix(body[..8 * len], k);
      assert body[..8 * len][..8 * k] == body[..8 * k];
      TakeConcat(out, BitsBytes(body[..8 * len]), k);
    }
  }

  lemma TakeConcat<T>(a: seq<T>, b: seq<T>, k: nat)
    requires k <= |b|
    ensures a + b[..k] == (a + b)[..|a| + k]
  {
  }

  lemma {:induction false} BitsBytesPrefix(bits: seq<bool>, n: nat)
    requires |bits| % 8 == 0 && 8 * n <= |bits|
    ensures BitsBytes(bits[..8 * n]) == BitsBytes(bits)[..n]
    decreases n
  {
    if n > 0 {
      BitsBytesPrefix(bits[8..], n - 1);
      assert bits[..8 * n][..8] == bits[..8];
      assert bits[..8 * n][8..] == bits[8..][..8 * (n - 1)];
    }
  }

  lemma BlockTruncates(kind: nat, bits: seq<bool>, out: seq<byte>, c1: nat, c2: nat)
    requires |out| <= c1 && |out| <= c2 && Block(kind, bits, out, c1).code == 0
    ensures Truncates(Block(kind, bits, out, c1), Block(kind, bits, out, c2), c2)
  {
    if kind == 0 {
      var a := Aligned(bits);
      StoredTruncates(LsbVal(a[..16]), a[32..], out, c1, c2);
    } else if kind == 1 {
      CodesTruncates(FixedLens(), FixedDists(), bits, out, c1, c2);
    } else {
      hide ReadAll;
      var h := DynamicHeader(bits);
      CodesTruncates(h.ll, h.dl, h.rest, out, c1, c2);
    }
  }

  lemma {:induction false} InflateTruncates(bits: seq<bool>, out: seq<byte>, c1: nat, c2: nat)
    requires |out| <= c1 && |out| <= c2 && Inflate(bits, out, c1).code == 0
    ensures Truncates(Inflate(bits, out, c1), Inflate(bits, out, c2), c2)
    decreases |bits|
  {
    hide Block, LsbVal;
    var kind := LsbVal(bits[1..3]);
    BlockTruncates(kind, bits[3..], out, c1, c2);
    var b1 := Block(kind, bits[3..], out, c1);
    if !bits[0] {
      if c2 >= |b1.out| {
        InflateTruncates(b1.rest, b1.out, c1, c2);
      } else {
        assert b1.out <= Inflate(b1.rest, b1.out, c1).out;
      }
    }
  }

  /**
   * If decoding succeeds with N bytes at some capacity, every capacity of at
   * least N gives the same result and every smaller one returns 1 with exactly
   * the first bytes of it.
   */
  lemma TruncationIsPrefix(input: seq<byte>, c: nat, m: nat)
    requires Inflate(BytesBits(input), [], c).code == 0
    ensures var full := Inflate(BytesBits(input), [], c).out;
            var r := Inflate(BytesBits(input), [], m);
            if m >= |full| then r.code == 0 && r.out == full
            else r.code == 1 && r.out == full[..m]
  {
    InflateTruncates(BytesBits(input), [], c, m);
  }
}
