/**
 * A reference encoder after RFC 1951 and the theorem that decoding inverts it:
 * any list of stored, fixed and dynamic blocks over valid literal/match tokens
 * decodes to its LZ77 expansion.
 */
module DeflateEncoder {
  import opened Bits
  import opened Huffman
  import opened Deflate

  /**
   * How many extra bits length symbol 257 + s has (RFC 1951, section 3.2.5): none
   * for the first eight and the last, then one more for every four.
   */
  function LengthBits(s: nat): nat
  {
    if s < 8 || s >= 28 then 0 else 1 + LengthBits(s - 4)
  }

  /** How many distance symbol s has: none for the first four, then one more for every two. */
  function DistanceBits(s: nat): nat
  {
    if s < 4 then 0 else 1 + DistanceBits(s - 2)
  }

  /** The shortest length of symbol 257 + s: the ranges follow each other from 3 on, but 258 has the last symbol. */
  function FirstLength(s: nat): (r: nat)
    ensures r >= 3
  {
    if s == 0 then 3 else if s == 28 then 258 else FirstLength(s - 1) + Pow2(LengthBits(s - 1))
  }

  /** The shortest distance of symbol s: the ranges follow each other from 1 on. */
  function FirstDistance(s: nat): (r: nat)
    ensures r >= 1
  {
    if s == 0 then 1 else FirstDistance(s - 1) + Pow2(DistanceBits(s - 1))
  }

  /** The decoder's closed forms are these ranges. */
  lemma {:induction false} LengthCodes(s: nat)
    requires s < 29
    ensures LenBase(s) == FirstLength(s) && LenExtra(s) == LengthBits(s)
  {
    hide Pow2, LengthBits;
    LengthExtra(s);
    if 0 < s < 28 {
      LengthCodes(s - 1);
      LengthStep(s);
    }
  }

  lemma {:induction false} LengthExtra(s: nat)
    requires s < 29
    ensures LenExtra(s) == LengthBits(s)
  {
    if 8 <= s < 28 { LengthExtra(s - 4); }
  }

  lemma LengthStep(s: nat)
    requires 0 < s < 28
    ensures LenBase(s) == LenBase(s - 1) + Pow2(LenExtra(s - 1))
  {
    assert Pow2(0) == 1;
    if s == 8 { assert Pow2(1) == 2; }
    if s > 8 {
      var e := (s - 1) / 4 - 1;
      var k := (s - 1) % 4;
      if k < 3 {
        assert s / 4 - 1 == e && s % 4 == k + 1;
        assert (4 + (k + 1)) * Pow2(e) == (4 + k) * Pow2(e) + Pow2(e);
      } else {
        assert s / 4 - 1 == e + 1 && s % 4 == 0;
        assert 4 * Pow2(e + 1) == 8 * Pow2(e);
      }
    }
  }

  lemma {:induction false} DistanceCodes(s: nat)
    requires s < 30
    ensures DistBase(s) == FirstDistance(s) && DistExtra(s) == DistanceBits(s)
  {
    hide Pow2, DistanceBits;
    DistanceExtra(s);
    if s > 0 {
      DistanceCodes(s - 1);
      DistanceStep(s);
    }
  }

  lemma {:induction false} DistanceExtra(s: nat)
    ensures DistExtra(s) == DistanceBits(s)
  {
    if s >= 4 { DistanceExtra(s - 2); }
  }

  lemma DistanceStep(s: nat)
    requires s > 0
    ensures DistBase(s) == DistBase(s - 1) + Pow2(DistExtra(s - 1))
  {
    assert Pow2(0) == 1;
    if s == 4 { assert Pow2(1) == 2; }
    if s > 4 {
      var e := (s - 1) / 2 - 1;
      if s % 2 == 1 {
        assert s / 2 - 1 == e;
        assert (2 + 1) * Pow2(e) == 2 * Pow2(e) + Pow2(e);
      } else {
        assert s / 2 - 1 == e + 1;
        assert 2 * Pow2(e + 1) == 4 * Pow2(e);
      }
    }
  }

  /** A literal, or a match as length/distance symbols with the values of their extra bits. */
  datatype Token = Lit(b: byte) | Ref(ls: nat, lx: nat, ds: nat, dx: nat)
  {
    ghost predicate Valid()
    {
      Ref? ==> ls < 29 && lx < Pow2(LengthBits(ls)) && ds < 30 && dx < Pow2(DistanceBits(ds))
    }

    function Length(): nat
      requires Ref?
    {
      FirstLength(ls) + lx
    }

    function Distance(): (d: nat)
      requires Ref?
      ensures d >= 1
    {
      FirstDistance(ds) + dx
    }

    /** The two codes have a code for every symbol this token needs. */
    ghost predicate Codable(ll: seq<nat>, dl: seq<nat>)
    {
      match this
      case Lit(b) => b < |ll| && ll[b] > 0
      case Ref(ls, lx, ds, dx) => 257 + ls < |ll| && ll[257 + ls] > 0 && ds < |dl| && dl[ds] > 0
    }
  }

  // -------------------------------------------------------------- expansion

  /** len more bytes that repeat the last dist bytes of out. */
  function PeriodicExtension(out: seq<byte>, dist: nat, len: nat): seq<byte>
    requires 1 <= dist <= |out|
  {
    out + seq(len, (i: nat) requires 0 <= i < len => out[|out| - dist + i % dist])
  }

  lemma CopyExtendsPeriodically(out: seq<byte>, dist: nat, len: nat)
    requires 1 <= dist <= |out|
    ensures Copy(out, dist, len) == PeriodicExtension(out, dist, len)
  {
    var c, p := Copy(out, dist, len), PeriodicExtension(out, dist, len);
    forall i | 0 <= i < |c| ensures c[i] == p[i] {
      if i >= |out| { CopyIsPeriodic(out, dist, len, i - |out|); }
    }
  }

  ghost predicate ValidTokens(ts: seq<Token>, have: nat)
  {
    ts == [] || (ts[0].Valid()
                 && (ts[0].Ref? ==> ts[0].Distance() <= have)
                 && ValidTokens(ts[1..], have + if ts[0].Lit? then 1 else ts[0].Length()))
  }

  /** The output after one token. */
  function Grow(t: Token, out: seq<byte>): (r: seq<byte>)
    requires t.Ref? ==> t.Distance() <= |out|
    ensures out <= r && |r| == |out| + if t.Lit? then 1 else t.Length()
  {
    if t.Lit? then out + [t.b] else PeriodicExtension(out, t.Distance(), t.Length())
  }

  ghost function Expand(ts: seq<Token>, out: seq<byte>): (r: seq<byte>)
    requires ValidTokens(ts, |out|)
    ensures out <= r
  {
    if ts == [] then out else Expand(ts[1..], Grow(ts[0], out))
  }

  // --------------------------------------------------------------- encoding

  ghost predicate GoodCode(lens: seq<nat>)
  {
    ValidLengths(lens) && Accepted(lens)
  }

  ghost function EncodeToken(ll: seq<nat>, dl: seq<nat>, t: Token): seq<bool>
    requires t.Valid() && t.Codable(ll, dl)
  {
    match t
    case Lit(b) => CodeBits(ll, b)
    case Ref(ls, lx, ds, dx) =>
      CodeBits(ll, 257 + ls) + LsbBits(lx, LengthBits(ls)) + CodeBits(dl, ds) + LsbBits(dx, DistanceBits(ds))
  }

  ghost predicate AllCodable(ll: seq<nat>, dl: seq<nat>, ts: seq<Token>)
  {
    && 256 < |ll| && ll[256] > 0
    && forall i :: 0 <= i < |ts| ==> ts[i].Codable(ll, dl)
  }

  ghost function EncodeTokens(ll: seq<nat>, dl: seq<nat>, ts: seq<Token>, have: nat): seq<bool>
    requires ValidTokens(ts, have) && AllCodable(ll, dl, ts)
  {
    if ts == [] then CodeBits(ll, 256)
    else
      EncodeToken(ll, dl, ts[0])
      + EncodeTokens(ll, dl, ts[1..], have + if ts[0].Lit? then 1 else ts[0].Length())
  }

  lemma Assoc<T>(a: seq<T>, b: seq<T>, c: seq<T>)
    ensures a + b + c == a + (b + c)
  {
  }

  lemma DropPrefix<T>(a: seq<T>, b: seq<T>)
    ensures (a + b)[|a|..] == b && (a + b)[..|a|] == a
  {
  }

  lemma ParseEncodedToken(ll: seq<nat>, dl: seq<nat>, t: Token, rest: seq<bool>)
    requires GoodCode(ll) && GoodCode(dl) && t.Valid() && t.Codable(ll, dl)
    ensures ParseToken(ll, dl, EncodeToken(ll, dl, t) + rest) ==
            if t.Lit? then Literal(t.b, rest) else Match(t.Length(), t.Distance(), rest)
  {
    hide Decode, CodeBits, LsbBits, Pow2, Accepted, ParseMatch, FirstLength, LengthBits, FirstDistance, DistanceBits;
    match t
    case Lit(b) =>
      DecodeCode(ll, b, rest);
      DropPrefix(CodeBits(ll, b), rest);
    case Ref(ls, lx, ds, dx) =>
      var c, x, d, y := CodeBits(ll, 257 + ls), LsbBits(lx, LengthBits(ls)), CodeBits(dl, ds),
          LsbBits(dx, DistanceBits(ds));
      assert c + x + d + y + rest == c + (x + d + y + rest);
      DecodeCode(ll, 257 + ls, x + d + y + rest);
      DropPrefix(c, x + d + y + rest);
      ParseEncodedMatch(dl, ls, lx, ds, dx, rest);
  }

  lemma ParseEncodedMatch(dl: seq<nat>, ls: nat, lx: nat, ds: nat, dx: nat, rest: seq<bool>)
    requires GoodCode(dl) && Ref(ls, lx, ds, dx).Valid() && ds < |dl| && dl[ds] > 0
    ensures ParseMatch(dl, ls, LsbBits(lx, LengthBits(ls)) + CodeBits(dl, ds) + LsbBits(dx, DistanceBits(ds)) + rest)
            == Match(FirstLength(ls) + lx, FirstDistance(ds) + dx, rest)
  {
    hide Decode, CodeBits, LsbBits, LsbVal, Pow2, Accepted, LenBase, LenExtra, DistBase, DistExtra, FirstLength,
        LengthBits, FirstDistance, DistanceBits;
    LengthCodes(ls);
    DistanceCodes(ds);
    var x, d, y := LsbBits(lx, LengthBits(ls)), CodeBits(dl, ds), LsbBits(dx, DistanceBits(ds));
    assert x + d + y + rest == x + (d + (y + rest));
    LsbRoundTrip(lx, LengthBits(ls));
    LsbRoundTrip(dx, DistanceBits(ds));
    DropPrefix(x, d + (y + rest));
    DecodeCode(dl, ds, y + rest);
    DropPrefix(d, y + rest);
    DropPrefix(y, rest);
  }

  lemma EndEncoded(ll: seq<nat>, dl: seq<nat>, rest: seq<bool>, out: seq<byte>, cap: nat)
    requires GoodCode(ll) && 256 < |ll| && ll[256] > 0 && |out| <= cap
    ensures Codes(ll, dl, CodeBits(ll, 256) + rest, out, cap) == Result(0, rest, out)
  {
    DecodeCode(ll, 256, rest);
    assert (CodeBits(ll, 256) + rest)[ll[256]..] == rest;
  }

  lemma TokenEncoded(ll: seq<nat>, dl: seq<nat>, t: Token, tail: seq<bool>, out: seq<byte>, cap: nat)
    requires GoodCode(ll) && GoodCode(dl) && t.Valid() && t.Codable(ll, dl)
    requires t.Ref? ==> t.Distance() <= |out|
    requires |Grow(t, out)| <= cap
    ensures Codes(ll, dl, EncodeToken(ll, dl, t) + tail, out, cap) == Codes(ll, dl, tail, Grow(t, out), cap)
  {
    ParseEncodedToken(ll, dl, t, tail);
    if t.Ref? { CopyExtendsPeriodically(out, t.Distance(), t.Length()); }
  }

  lemma {:induction false} DecodeTokens(ll: seq<nat>, dl: seq<nat>, ts: seq<Token>, rest: seq<bool>, out: seq<byte>,
      cap: nat)
    requires GoodCode(ll) && GoodCode(dl) && ValidTokens(ts, |out|) && AllCodable(ll, dl, ts)
    requires |Expand(ts, out)| <= cap
    ensures |out| <= cap
    ensures Codes(ll, dl, EncodeTokens(ll, dl, ts, |out|) + rest, out, cap) == Result(0, rest, Expand(ts, out))
    decreases |ts|
  {
    hide Codes, EncodeToken, FirstLength, LengthBits, FirstDistance, DistanceBits, Accepted, CodeBits;
    if ts == [] {
      EndEncoded(ll, dl, rest, out, cap);
    } else {
      var t := ts[0];
      var out' := Grow(t, out);
      var tail := EncodeTokens(ll, dl, ts[1..], |out'|) + rest;
      Assoc(EncodeToken(ll, dl, t), EncodeTokens(ll, dl, ts[1..], |out'|), rest);
      assert out' <= Expand(ts[1..], out');
      TokenEncoded(ll, dl, t, tail, out, cap);
      DecodeTokens(ll, dl, ts[1..], rest, out', cap);
    }
  }

  // --------------------------------------------------------- dynamic header

  /**
   * The alphabet of RFC 1951, section 3.2.7: a length 0 to 15, the length before
   * it 3 to 6 times again, 3 to 10 zeros, or 11 to 138 zeros.
   */
  datatype ClToken = One(n: nat) | Again(n: nat) | Zeros(n: nat) | ManyZeros(n: nat)
  {
    ghost predicate Valid()
    {
      match this
      case One(n) => n <= 15
      case Again(n) => 3 <= n <= 6
      case Zeros(n) => 3 <= n <= 10
      case ManyZeros(n) => 11 <= n <= 138
    }

    ghost function Expand(acc: seq<nat>): (r: seq<nat>)
      requires Again? ==> acc != []
    {
      match this
      case One(n) => acc + [n]
      case Again(n) => acc + seq(n, i => acc[|acc| - 1])
      case Zeros(n) => acc + seq(n, i => 0)
      case ManyZeros(n) => acc + seq(n, i => 0)
    }

    ghost function Symbol(): (s: nat)
      ensures Valid() ==> s < 19
    {
      match this
      case One(n) => n
      case Again(_) => 16
      case Zeros(_) => 17
      case ManyZeros(_) => 18
    }

    /** Two, three or seven extra bits say how often. */
    ghost function Extra(): seq<bool>
      requires Valid()
    {
      match this
      case One(_) => []
      case Again(n) => LsbBits(n - 3, 2)
      case Zeros(n) => LsbBits(n - 3, 3)
      case ManyZeros(n) => LsbBits(n - 11, 7)
    }

    ghost function Encode(cl: seq<nat>): seq<bool>
      requires Valid() && Symbol() < |cl|
    {
      CodeBits(cl, Symbol()) + Extra()
    }
  }

  ghost predicate ValidClTokens(ts: seq<ClToken>, acc: seq<nat>)
  {
    ts == [] || (ts[0].Valid() && (ts[0].Again? ==> acc != []) && ValidClTokens(ts[1..], ts[0].Expand(acc)))
  }

  ghost function ExpandCl(ts: seq<ClToken>, acc: seq<nat>): (r: seq<nat>)
    requires ValidClTokens(ts, acc)
    ensures acc <= r && |r| >= |acc| + |ts|
    ensures ValidLengths(acc) ==> ValidLengths(r)
  {
    if ts == [] then acc else ExpandCl(ts[1..], ts[0].Expand(acc))
  }

  ghost function EncodeCl(cl: seq<nat>, ts: seq<ClToken>): seq<bool>
    requires |cl| == 19 && forall i :: 0 <= i < |ts| ==> ts[i].Valid()
  {
    if ts == [] then [] else ts[0].Encode(cl) + EncodeCl(cl, ts[1..])
  }

  lemma ReadOneLength(cl: seq<nat>, t: ClToken, tail: seq<bool>, total: nat, acc: seq<nat>)
    requires |cl| == 19 && GoodCode(cl) && t.Valid() && cl[t.Symbol()] > 0
    requires (t.Again? ==> acc != []) && ValidLengths(acc)
    requires |acc| < total && |t.Expand(acc)| <= total
    ensures ValidLengths(t.Expand(acc))
    ensures ReadLengths(cl, t.Encode(cl) + tail, total, acc) == ReadLengths(cl, tail, total, t.Expand(acc))
  {
    hide Decode, CodeBits, LsbBits, LsbVal, Accepted, Pow2, ClToken.Extra, ParseRun;
    Assoc(CodeBits(cl, t.Symbol()), t.Extra(), tail);
    DecodeCode(cl, t.Symbol(), t.Extra() + tail);
    DropPrefix(CodeBits(cl, t.Symbol()), t.Extra() + tail);
    if t.One? { assert t.Extra() + tail == tail by { NoExtra(t); } } else { RunEncoded(t, tail, total, acc); }
  }

  lemma NoExtra(t: ClToken)
    requires t.One? && t.Valid()
    ensures t.Extra() == []
  {
  }

  /** The extra bits give the number of repetitions, and the symbol what is repeated. */
  lemma RunEncoded(t: ClToken, tail: seq<bool>, total: nat, acc: seq<nat>)
    requires t.Valid() && !t.One? && (t.Again? ==> acc != []) && |acc| + t.n <= total
    ensures ParseRun(t.Symbol(), t.Extra() + tail, total, |acc|) == Run(t.n, tail)
    ensures t.Expand(acc) == acc + Repeat(RepeatValue(t.Symbol(), acc), t.n)
  {
    hide LsbBits, LsbVal, Pow2;
    RunBits();
    DropPrefix(t.Extra(), tail);
    if t.ManyZeros? { LsbRoundTrip(t.n - 11, 7); } else { LsbRoundTrip(t.n - 3, if t.Again? then 2 else 3); }
  }

  lemma RunBits()
    ensures Pow2(2) == 4 && Pow2(3) == 8 && Pow2(7) == 128
  {
    Pow2At8();
    assert Pow2(8) == 2 * Pow2(7);
    assert Pow2(2) == 4;
  }

  lemma {:induction false} ReadEncodedLengths(cl: seq<nat>, ts: seq<ClToken>, rest: seq<bool>, acc: seq<nat>)
    requires |cl| == 19 && GoodCode(cl) && ValidClTokens(ts, acc) && ValidLengths(acc)
    requires forall i :: 0 <= i < |ts| ==> ts[i].Valid() && cl[ts[i].Symbol()] > 0
    ensures ReadLengths(cl, EncodeCl(cl, ts) + rest, |ExpandCl(ts, acc)|, acc) == Lengths(ExpandCl(ts, acc), rest)
    decreases |ts|
  {
    if ts == [] {
      assert EncodeCl(cl, ts) + rest == rest;
    } else {
      var t := ts[0];
      Assoc(t.Encode(cl), EncodeCl(cl, ts[1..]), rest);
      ReadOneLength(cl, t, EncodeCl(cl, ts[1..]) + rest, |ExpandCl(ts, acc)|, acc);
      ReadEncodedLengths(cl, ts[1..], rest, t.Expand(acc));
    }
  }

  ghost function EncodeClLens(cl: seq<nat>, n: nat): (r: seq<bool>)
    requires |cl| == 19 && n <= 19
    ensures |r| == 3 * n
  {
    if n == 0 then [] else EncodeClLens(cl, n - 1) + LsbBits(cl[Sent(n - 1)], 3)
  }

  lemma {:induction false} EncodedField(cl: seq<nat>, n: nat, j: nat)
    requires |cl| == 19 && j < n <= 19
    ensures EncodeClLens(cl, n)[3 * j..3 * j + 3] == LsbBits(cl[Sent(j)], 3)
    decreases n
  {
    hide LsbBits;
    if j < n - 1 {
      EncodedField(cl, n - 1, j);
      assert EncodeClLens(cl, n)[3 * j..3 * j + 3] == EncodeClLens(cl, n - 1)[3 * j..3 * j + 3];
    }
  }

  lemma ReadEncodedClLens(cl: seq<nat>, n: nat, rest: seq<bool>, i: nat)
    requires |cl| == 19 && n <= 19 && i < 19 && forall j :: 0 <= j < 19 ==> cl[j] < 8
    ensures ClLens(EncodeClLens(cl, n) + rest, n)[i] == if POSITION[i] < n then cl[i] else 0
  {
    hide LsbBits, LsbVal, ClLens, EncodeClLens, OrderAt, Sent;
    var j, bits := POSITION[i], EncodeClLens(cl, n) + rest;
    OrderInverse(i);
    SentInOrder(j);
    ClLensField(bits, n, j);
    if j < n {
      EncodedField(cl, n, j);
      assert bits[3 * j..3 * j + 3] == EncodeClLens(cl, n)[3 * j..3 * j + 3];
      assert Pow2(3) == 8;
      LsbRoundTrip(cl[i], 3);
    }
  }

  /** The code-length symbols in the order of their lengths: 16, 17, 18, 0, 8, then 7, 9, 6, 10 and so on to 15. */
  function Sent(i: nat): (s: nat)
    requires i < 19
    ensures s < 19
  {
    if i < 3 then 16 + i else if i == 3 then 0 else if i % 2 == 0 then 6 + i / 2 else 9 - i / 2
  }

  lemma SentInOrder(i: nat)
    requires i < 19
    ensures OrderAt(i) == Sent(i)
  {
    if i < 10 {} else {}
  }

  /** The codes fill the code space: the sum of 2^-length is 1. */
  ghost predicate Complete(lens: seq<nat>)
  {
    ValidLengths(lens) && KraftSum(lens, |lens|) == Pow2(MAXBITS)
  }

  /** A code of one symbol only. */
  ghost predicate Single(lens: seq<nat>)
  {
    exists s: nat :: Only(lens, s, |lens|)
  }

  /** The codes a dynamic block may announce: complete ones, a single code, or none at all. */
  ghost predicate Transmittable(lens: seq<nat>)
  {
    Complete(lens) || Single(lens) || Unused(lens)
  }

  /** Lengths that are not transmitted are zero. */
  ghost predicate ZeroFrom(cl: seq<nat>, n: nat)
    requires |cl| == 19
  {
    forall i :: 0 <= i < 19 && POSITION[i] >= n ==> cl[i] == 0
  }

  /** The code-length code has a code for every symbol used. */
  ghost predicate Sendable(cl: seq<nat>, ts: seq<ClToken>)
    requires |cl| == 19
  {
    forall i :: 0 <= i < |ts| ==> ts[i].Valid() && cl[ts[i].Symbol()] > 0
  }

  /** The lengths of a literal/length code that can end the block, and of a distance code. */
  ghost predicate TwoCodes(lens: seq<nat>, nlen: nat, ndist: nat)
  {
    && 256 < nlen && |lens| == nlen + ndist && lens[256] > 0
    && Transmittable(lens[..nlen]) && Transmittable(lens[nlen..])
  }

  /** A dynamic block header: counts, code-length code and run-length coded lengths. */
  datatype Dyn = Dyn(nlen: nat, ndist: nat, ncode: nat, cl: seq<nat>, ts: seq<ClToken>)
  {
    ghost predicate Valid()
    {
      && 257 <= nlen <= 286 && 1 <= ndist <= 30 && 4 <= ncode <= 19
      && |cl| == 19 && (forall i :: 0 <= i < 19 ==> cl[i] < 8)
      && ZeroFrom(cl, ncode)
      && Complete(cl)
      && ValidClTokens(ts, [])
      && Sendable(cl, ts)
      && TwoCodes(ExpandCl(ts, []), nlen, ndist)
    }

    ghost function LitLens(): (r: seq<nat>)
      requires Valid()
      ensures GoodCode(r)
    {
      UsableIff(ExpandCl(ts, [])[..nlen]);
      ExpandCl(ts, [])[..nlen]
    }

    ghost function DistLens(): (r: seq<nat>)
      requires Valid()
      ensures GoodCode(r)
    {
      UsableIff(ExpandCl(ts, [])[nlen..]);
      ExpandCl(ts, [])[nlen..]
    }

    ghost function Encode(): seq<bool>
      requires Valid()
    {
      LsbBits(nlen - 257, 5) + LsbBits(ndist - 1, 5) + LsbBits(ncode - 4, 4)
      + EncodeClLens(cl, ncode) + EncodeCl(cl, ts)
    }
  }

  /** Cutting a dynamic header into its fields. */
  lemma CutHeader(a: seq<bool>, b: seq<bool>, c: seq<bool>, cl: seq<bool>, ts: seq<bool>, rest: seq<bool>, n: nat)
    requires |a| == 5 && |b| == 5 && |c| == 4 && |cl| == n
    ensures var bits := a + b + c + cl + ts + rest;
            && |bits| >= 14 + n
            && bits[..5] == a && bits[5..10] == b && bits[10..14] == c
            && bits[14..] == cl + (ts + rest) && bits[14 + n..] == ts + rest
  {
  }

  lemma ReadClLens(cl: seq<nat>, n: nat, rest: seq<bool>)
    requires |cl| == 19 && n <= 19 && forall j :: 0 <= j < 19 ==> cl[j] < 8
    requires ZeroFrom(cl, n)
    ensures ClLens(EncodeClLens(cl, n) + rest, n) == cl
  {
    hide ClLens, EncodeClLens;
    forall i | 0 <= i < 19 ensures ClLens(EncodeClLens(cl, n) + rest, n)[i] == cl[i] {
      ReadEncodedClLens(cl, n, rest, i);
    }
  }

  /** What the decoder checks with inf_construct's result and the number of unused symbols. */
  lemma UsableIff(lens: seq<nat>)
    requires ValidLengths(lens)
    ensures Accepted(lens) && Slack(lens) == 0 <==> Complete(lens) || Unused(lens)
    ensures Usable(lens) <==> Transmittable(lens)
  {
    hide Left, CountIn, KraftSum, Pow2;
    KraftSlack(lens);
    UnusedAccepted(lens);
    UnusedKraft(lens, |lens|);
    OneUsed(lens, |lens|);
    if Single(lens) {
      var s: nat :| Only(lens, s, |lens|);
      SingleKraft(lens, s, |lens|);
    }
  }

  lemma UnusedAccepted(lens: seq<nat>)
    ensures Unused(lens) ==> Accepted(lens)
  {
    hide Left;
    if Unused(lens) {
      forall k | 1 <= k <= MAXBITS ensures Left(lens, k) >= 0 { UnusedLeft(lens, k); }
    }
  }

  lemma {:induction false} UnusedKraft(lens: seq<nat>, n: nat)
    requires n <= |lens| && ValidLengths(lens)
    ensures (forall i :: 0 <= i < n ==> lens[i] == 0) ==> KraftSum(lens, n) == 0
    ensures (forall i :: 0 <= i < n ==> lens[i] == 0) <==> CountIn(lens, 0, n) == n
  {
    hide Pow2;
    if n > 0 { UnusedKraft(lens, n - 1); }
  }

  lemma {:induction false} SingleKraft(lens: seq<nat>, s: nat, n: nat)
    requires s < n <= |lens| && ValidLengths(lens) && lens[s] > 0
    requires forall t :: 0 <= t < n && t != s ==> lens[t] == 0
    ensures KraftSum(lens, n) <= Pow2(MAXBITS)
  {
    hide Pow2;
    if s == n - 1 {
      UnusedKraft(lens, s);
      PowMono(MAXBITS - lens[s], MAXBITS);
    } else {
      SingleKraft(lens, s, n - 1);
    }
  }

  lemma {:induction false} PowMono(a: nat, b: nat)
    requires a <= b
    ensures Pow2(a) <= Pow2(b)
  {
    if a < b { PowMono(a, b - 1); }
  }

  /** s is the only used symbol of the first n. */
  ghost predicate Only(lens: seq<nat>, s: nat, n: nat)
  {
    s < n <= |lens| && lens[s] > 0 && forall t :: 0 <= t < n && t != s ==> lens[t] == 0
  }

  /** All symbols but one are unused exactly when the code is a single one. */
  lemma {:induction false} OneUsed(lens: seq<nat>, n: nat)
    requires n <= |lens| && ValidLengths(lens)
    ensures CountIn(lens, 0, n) == n - 1 <==> exists s: nat :: Only(lens, s, n)
  {
    hide KraftSum;
    if n > 0 {
      OneUsed(lens, n - 1);
      UnusedKraft(lens, n - 1);
      if CountIn(lens, 0, n) == n - 1 {
        if lens[n - 1] == 0 {
          var s: nat :| Only(lens, s, n - 1);
          assert Only(lens, s, n);
        } else {
          assert Only(lens, n - 1, n);
        }
      }
      if s: nat :| Only(lens, s, n) {
        if s < n - 1 { assert Only(lens, s, n - 1); }
      }
    }
  }

  lemma ReadAllEncoded(d: Dyn, rest: seq<bool>)
    requires d.Valid()
    ensures ReadAll(d.cl, EncodeCl(d.cl, d.ts) + rest, d.nlen + d.ndist) == Lengths(ExpandCl(d.ts, []), rest)
  {
    hide EncodeCl, ReadLengths, ExpandCl, ValidClTokens, Usable, Slack, Accepted, ZeroFrom, Complete, Transmittable;
    var acc: seq<nat> := [];
    UsableIff(d.cl);
    ReadEncodedLengths(d.cl, d.ts, rest, acc);
    assert ReadAll(d.cl, EncodeCl(d.cl, d.ts) + rest, |ExpandCl(d.ts, acc)|) == Lengths(ExpandCl(d.ts, acc), rest);
  }

  lemma HeaderFromFields(d: Dyn, bits: seq<bool>, a: seq<bool>, b: seq<bool>, c: seq<bool>,
                         cls: seq<bool>, codes: seq<bool>, rest: seq<bool>)
    requires d.Valid() && |bits| >= 14 + 3 * d.ncode
    requires bits[..5] == a && bits[5..10] == b && bits[10..14] == c && bits[14..] == cls
             && bits[14 + 3 * d.ncode..] == codes
    requires LsbVal(a) == d.nlen - 257 && LsbVal(b) == d.ndist - 1 && LsbVal(c) == d.ncode - 4
    requires ClLens(cls, d.ncode) == d.cl
    requires ReadAll(d.cl, codes, d.nlen + d.ndist) == Lengths(ExpandCl(d.ts, []), rest)
    ensures DynamicHeader(bits) == Header(d.LitLens(), d.DistLens(), rest)
  {
    hide Usable, Slack, Accepted, ExpandCl, ValidClTokens, ReadAll, ClLens, LsbVal, Complete, Transmittable;
    UsableIff(d.cl);
    UsableIff(d.LitLens());
    UsableIff(d.DistLens());
  }

  /** Reading a header whose three count fields carry the right values. */
  lemma ReadHeaderFields(d: Dyn, a: seq<bool>, b: seq<bool>, c: seq<bool>, rest: seq<bool>)
    requires d.Valid() && |a| == 5 && |b| == 5 && |c| == 4
    requires LsbVal(a) == d.nlen - 257 && LsbVal(b) == d.ndist - 1 && LsbVal(c) == d.ncode - 4
    ensures DynamicHeader(a + b + c + EncodeClLens(d.cl, d.ncode) + EncodeCl(d.cl, d.ts) + rest)
            == Header(d.LitLens(), d.DistLens(), rest)
  {
    hide Complete, Transmittable, ValidClTokens, ExpandCl, ReadAll, ClLens, LsbVal, DynamicHeader, EncodeCl,
        EncodeClLens, ZeroFrom, Dyn.LitLens, Dyn.DistLens;
    var cls, codes := EncodeClLens(d.cl, d.ncode), EncodeCl(d.cl, d.ts);
    CutHeader(a, b, c, cls, codes, rest, 3 * d.ncode);
    ReadClLens(d.cl, d.ncode, codes + rest);
    ReadAllEncoded(d, rest);
    HeaderFromFields(d, a + b + c + cls + codes + rest, a, b, c, cls + (codes + rest), codes + rest, rest);
  }

  lemma ReadEncodedHeader(d: Dyn, rest: seq<bool>)
    requires d.Valid()
    ensures DynamicHeader(d.Encode() + rest) == Header(d.LitLens(), d.DistLens(), rest)
  {
    hide LsbBits, LsbVal, DynamicHeader, EncodeCl, EncodeClLens, ExpandCl, ValidClTokens, Complete, Transmittable;
    assert Pow2(4) == 16 && Pow2(5) == 32;
    LsbRoundTrip(d.nlen - 257, 5);
    LsbRoundTrip(d.ndist - 1, 5);
    LsbRoundTrip(d.ncode - 4, 4);
    ReadHeaderFields(d, LsbBits(d.nlen - 257, 5), LsbBits(d.ndist - 1, 5), LsbBits(d.ncode - 4, 4), rest);
  }

  // ------------------------------------------------------------ fixed codes

  lemma {:induction false} FixedCounts(n: nat)
    requires n <= FIXLCODES
    ensures CountIn(FixedLens(), 8, n) == (if n <= 144 then n else if n <= 280 then 144 else n - 136)
    ensures CountIn(FixedLens(), 9, n) == (if n <= 144 then 0 else if n <= 256 then n - 144 else 112)
    ensures CountIn(FixedLens(), 7, n) == (if n <= 256 then 0 else if n <= 280 then n - 256 else 24)
    ensures forall l :: l != 7 && l != 8 && l != 9 ==> CountIn(FixedLens(), l, n) == 0
  {
    if n > 0 {
      FixedCounts(n - 1);
      assert FixedLens()[n - 1] == if n <= 144 then 8 else if n <= 256 then 9 else if n <= 280 then 7 else 8;
    }
  }

  lemma {:induction false} FixedShort(l: nat)
    requires l <= 6
    ensures NextCode(FixedLens(), l) == 0 && Left(FixedLens(), l) > 0
  {
    FixedCounts(FIXLCODES);
    if l > 0 { FixedShort(l - 1); }
  }

  lemma FixedStarts()
    ensures NextCode(FixedLens(), 7) == 0 && NextCode(FixedLens(), 8) == 0x30 && NextCode(FixedLens(), 9) == 0x190
    ensures Left(FixedLens(), 7) == 104 && Left(FixedLens(), 8) == 56 && Left(FixedLens(), 9) == 0
  {
    FixedCounts(FIXLCODES);
    FixedShort(6);
    LeftIsSpace(FixedLens(), 6);
    assert Pow2(6) == 64 by { assert Pow2(4) == 16; }
  }

  /** The literal/length codes of the table in RFC 1951, section 3.2.6. */
  lemma FixedTable(s: nat)
    requires s < FIXLCODES
    ensures Code(FixedLens(), s) ==
            if s < 144 then 0x30 + s
            else if s < 256 then 0x190 + (s - 144)
            else if s < 280 then s - 256
            else 0xC0 + (s - 280)
  {
    FixedCounts(s);
    FixedStarts();
    assert FixedLens()[s] == if s < 144 then 8 else if s < 256 then 9 else if s < 280 then 7 else 8;
  }

  lemma {:induction false} FixedLong(k: nat)
    requires 9 <= k <= MAXBITS
    ensures Left(FixedLens(), k) == 0
  {
    FixedStarts();
    if k > 9 {
      FixedLong(k - 1);
      FixedCounts(FIXLCODES);
    }
  }

  lemma FixedAccepted()
    ensures GoodCode(FixedLens()) && AllCodable(FixedLens(), FixedDists(), [])
    ensures forall i :: 0 <= i < FIXLCODES ==> FixedLens()[i] > 0
  {
    hide Left, CountIn;
    forall k | 1 <= k <= MAXBITS ensures Left(FixedLens(), k) >= 0 {
      if k <= 6 { FixedShort(k); } else if k <= 9 { FixedStarts(); } else { FixedLong(k); }
    }
  }

  lemma {:induction false} FixedDistCounts(l: nat, n: nat)
    requires n <= MAXDCODES
    ensures CountIn(FixedDists(), l, n) == if l == 5 then n else 0
  {
    if n > 0 { FixedDistCounts(l, n - 1); }
  }

  /** The distance codes of section 3.2.6: the symbols themselves, as five bits. */
  lemma FixedDistTable(s: nat)
    requires s < MAXDCODES
    ensures CodeBits(FixedDists(), s) == MsbBits(s, 5)
  {
    hide MsbBits, FixedDists;
    FixedDistCounts(5, s);
    FixedDistShort(5);
    FixedDistLengths(s);
  }

  lemma FixedDistLengths(s: nat)
    requires s < MAXDCODES
    ensures FixedDists()[s] == 5
  {
  }

  lemma {:induction false} FixedDistShort(l: nat)
    requires l <= 5
    ensures NextCode(FixedDists(), l) == 0
  {
    if l > 0 {
      FixedDistShort(l - 1);
      FixedDistCounts(l - 1, MAXDCODES);
    }
  }

  lemma {:induction false} FixedDistLeft(k: nat)
    ensures Left(FixedDists(), k) > 0
    ensures k <= 4 ==> Left(FixedDists(), k) == Pow2(k)
  {
    FixedDistCounts(k, MAXDCODES);
    if k > 0 {
      FixedDistLeft(k - 1);
      assert Pow2(4) == 16;
    }
  }

  lemma FixedDistsAccepted()
    ensures GoodCode(FixedDists()) && forall i :: 0 <= i < MAXDCODES ==> FixedDists()[i] > 0
  {
    forall k | 1 <= k <= MAXBITS ensures Left(FixedDists(), k) >= 0 { FixedDistLeft(k); }
  }

  // ----------------------------------------------------------------- blocks

  /** A stored block may have any padding bits and any NLEN: the decoder looks at neither. */
  datatype EBlock =
    | EStored(data: seq<byte>, pad: seq<bool>, nlen: seq<bool>)
    | EFixed(ts: seq<Token>)
    | EDynamic(d: Dyn, ts: seq<Token>)
  {
    ghost predicate Valid(have: nat)
    {
      match this
      case EStored(data, pad, nlen) => |data| < 65536 && |pad| == 7 && |nlen| == 16
      case EFixed(ts) => ValidTokens(ts, have)
      case EDynamic(d, ts) => ValidTokens(ts, have) && d.Valid() && AllCodable(d.LitLens(), d.DistLens(), ts)
    }

    ghost function Expanded(out: seq<byte>): (r: seq<byte>)
      requires Valid(|out|)
      ensures out <= r
    {
      match this
      case EStored(data, pad, nlen) => out + data
      case EFixed(ts) => Expand(ts, out)
      case EDynamic(d, ts) => Expand(ts, out)
    }

    ghost function Kind(): nat { if EStored? then 0 else if EFixed? then 1 else 2 }

    /** The block after its three header bits, when pos bits precede it. */
    ghost function Body(have: nat, pos: nat): seq<bool>
      requires Valid(have)
    {
      match this
      case EStored(data, pad, nlen) =>
        pad[..Gap(pos)] + LsbBits(|data|, 16) + nlen + BytesBits(data)
      case EFixed(ts) =>
        FixedCodable(ts, have);
        EncodeTokens(FixedLens(), FixedDists(), ts, have)
      case EDynamic(d, ts) =>
        d.Encode() + EncodeTokens(d.LitLens(), d.DistLens(), ts, have)
    }
  }

  lemma {:induction false} FixedCodable(ts: seq<Token>, have: nat)
    requires ValidTokens(ts, have)
    ensures AllCodable(FixedLens(), FixedDists(), ts)
    decreases |ts|
  {
    hide FirstLength, LengthBits, FirstDistance, DistanceBits, Accepted, FixedLens, FixedDists;
    FixedAccepted();
    FixedDistsAccepted();
    if ts != [] {
      FixedCodable(ts[1..], have + if ts[0].Lit? then 1 else ts[0].Length());
      assert ts == [ts[0]] + ts[1..];
    }
  }

  /** How many bits are missing to a whole byte. */
  function Gap(pos: nat): (n: nat)
    ensures n < 8 && (pos + n) % 8 == 0
  {
    (8 - pos % 8) % 8
  }

  function Padding(pos: nat): (r: seq<bool>)
    ensures (pos + |r|) % 8 == 0 && |r| < 8
  {
    seq(Gap(pos), i => false)
  }

  ghost function EncodeBlock(b: EBlock, last: bool, have: nat, pos: nat): seq<bool>
    requires b.Valid(have)
  {
    [last] + LsbBits(b.Kind(), 2) + b.Body(have, pos + 3)
  }

  /** Cutting an aligned stored block into its fields. */
  lemma CutStored(pad: seq<bool>, l: seq<bool>, n: seq<bool>, data: seq<bool>, rest: seq<bool>)
    requires |pad| < 8 && |l| == 16 && |n| == 16 && (|l + n + data + rest|) % 8 == 0
    ensures var bits := pad + l + n + data + rest;
            && Aligned(bits) == l + n + data + rest
            && Aligned(bits)[..16] == l && Aligned(bits)[32..] == data + rest
  {
    var bits := pad + l + n + data + rest;
    assert |bits| % 8 == |pad|;
    assert bits[|pad|..] == l + n + data + rest;
  }

  lemma StoredFields(pad: seq<bool>, l: seq<bool>, n: seq<bool>, data: seq<byte>, rest: seq<bool>, out: seq<byte>,
      cap: nat)
    requires |pad| < 8 && |l| == 16 && |n| == 16 && LsbVal(l) == |data| && |rest| % 8 == 0
    requires |out| + |data| <= cap
    ensures Stored(pad + l + n + BytesBits(data) + rest, out, cap) == Result(0, rest, out + data)
  {
    hide BytesBits, BitsBytes, LsbVal, Aligned, StoredBody;
    CutStored(pad, l, n, BytesBits(data), rest);
    BodyCopied(data, rest, out, cap);
  }

  lemma BodyCopied(data: seq<byte>, rest: seq<bool>, out: seq<byte>, cap: nat)
    requires |out| + |data| <= cap
    ensures StoredBody(|data|, BytesBits(data) + rest, out, cap) == Result(0, rest, out + data)
  {
    hide BytesBits, BitsBytes;
    DropPrefix(BytesBits(data), rest);
    BytesOfBytesBits(data);
  }

  lemma DecodeStored(b: EBlock, pos: nat, rest: seq<bool>, out: seq<byte>, cap: nat)
    requires b.EStored? && b.Valid(|out|) && |out| + |b.data| <= cap
    requires (pos + |b.Body(|out|, pos) + rest|) % 8 == 0
    ensures Stored(b.Body(|out|, pos) + rest, out, cap) == Result(0, rest, out + b.data)
  {
    hide LsbBits, LsbVal, Stored, BytesBits, Pow2, Gap;
    SizeField(|b.data|);
    assert |b.Body(|out|, pos)| == Gap(pos) + 8 * (4 + |b.data|);
    AlignedRest(pos + Gap(pos), 4 + |b.data|, |rest|);
    StoredFields(b.pad[..Gap(pos)], LsbBits(|b.data|, 16), b.nlen, b.data, rest, out, cap);
  }

  lemma SizeField(n: nat)
    requires n < 65536
    ensures LsbVal(LsbBits(n, 16)) == n
  {
    hide LsbVal, LsbBits;
    Pow2At8();
    Pow2Add(8, 8);
    LsbRoundTrip(n, 16);
  }

  lemma AlignedRest(p: nat, k: nat, r: nat)
    requires p % 8 == 0 && (p + 8 * k + r) % 8 == 0
    ensures r % 8 == 0
  {
  }

  lemma DecodeFixed(ts: seq<Token>, rest: seq<bool>, out: seq<byte>, cap: nat)
    requires ValidTokens(ts, |out|) && |Expand(ts, out)| <= cap
    ensures |out| <= cap
    ensures Block(1, EFixed(ts).Body(|out|, 0) + rest, out, cap) == Result(0, rest, Expand(ts, out))
  {
    FixedAccepted();
    FixedDistsAccepted();
    FixedCodable(ts, |out|);
    DecodeTokens(FixedLens(), FixedDists(), ts, rest, out, cap);
  }

  lemma DecodeDynamic(d: Dyn, ts: seq<Token>, rest: seq<bool>, out: seq<byte>, cap: nat)
    requires EDynamic(d, ts).Valid(|out|) && |Expand(ts, out)| <= cap
    ensures |out| <= cap
    ensures Dynamic(EDynamic(d, ts).Body(|out|, 0) + rest, out, cap) == Result(0, rest, Expand(ts, out))
  {
    var codes := EncodeTokens(d.LitLens(), d.DistLens(), ts, |out|);
    Assoc(d.Encode(), codes, rest);
    ReadEncodedHeader(d, codes + rest);
    DecodeTokens(d.LitLens(), d.DistLens(), ts, rest, out, cap);
  }

  lemma DecodeBlock(b: EBlock, pos: nat, rest: seq<bool>, out: seq<byte>, cap: nat)
    requires b.Valid(|out|) && |b.Expanded(out)| <= cap
    requires (pos + |b.Body(|out|, pos) + rest|) % 8 == 0
    ensures |out| <= cap
    ensures Block(b.Kind(), b.Body(|out|, pos) + rest, out, cap) == Result(0, rest, b.Expanded(out))
  {
    hide Stored, Codes, Dynamic, Dyn.Valid, Dyn.Encode, EncodeTokens, ValidTokens, Expand, BytesBits, LsbBits,
        FixedLens, FixedDists, Padding, AllCodable;
    match b
    case EStored(data, pad, nlen) => DecodeStored(b, pos, rest, out, cap);
    case EFixed(ts) => DecodeFixed(ts, rest, out, cap);
    case EDynamic(d, ts) => DecodeDynamic(d, ts, rest, out, cap);
  }

  ghost predicate ValidBlocks(bs: seq<EBlock>, out: seq<byte>)
  {
    |bs| > 0 && bs[0].Valid(|out|) && (|bs| > 1 ==> ValidBlocks(bs[1..], bs[0].Expanded(out)))
  }

  ghost function ExpandBlocks(bs: seq<EBlock>, out: seq<byte>): (r: seq<byte>)
    requires ValidBlocks(bs, out)
    ensures out <= r
  {
    if |bs| == 1 then bs[0].Expanded(out) else ExpandBlocks(bs[1..], bs[0].Expanded(out))
  }

  /** All blocks, the final bit set on the last, when pos bits precede them. */
  ghost function EncodeBlocks(bs: seq<EBlock>, out: seq<byte>, pos: nat): seq<bool>
    requires ValidBlocks(bs, out)
  {
    var b := EncodeBlock(bs[0], |bs| == 1, |out|, pos);
    if |bs| == 1 then b else b + EncodeBlocks(bs[1..], bs[0].Expanded(out), pos + |b|)
  }

  lemma CutBlock(last: bool, kind: seq<bool>, body: seq<bool>, tail: seq<bool>)
    requires |kind| == 2
    ensures var bits := [last] + kind + body + tail;
            bits[0] == last && bits[1..3] == kind && bits[3..] == body + tail && |bits| == 3 + |body + tail|
  {
  }

  lemma {:induction false} DecodeBlocks(bs: seq<EBlock>, pos: nat, rest: seq<bool>, out: seq<byte>, cap: nat)
    requires ValidBlocks(bs, out) && |ExpandBlocks(bs, out)| <= cap
    requires (pos + |EncodeBlocks(bs, out, pos) + rest|) % 8 == 0
    ensures |out| <= cap
    ensures Inflate(EncodeBlocks(bs, out, pos) + rest, out, cap) == Result(0, rest, ExpandBlocks(bs, out))
    decreases |bs|
  {
    hide Block, LsbVal, LsbBits, EBlock.Body, EBlock.Valid, EBlock.Expanded;
    var b := bs[0];
    var last := |bs| == 1;
    var body := b.Body(|out|, pos + 3);
    var enc := EncodeBlock(b, last, |out|, pos);
    var out' := b.Expanded(out);
    var tail := if last then rest else EncodeBlocks(bs[1..], out', pos + |enc|) + rest;
    if !last { Assoc(enc, EncodeBlocks(bs[1..], out', pos + |enc|), rest); }
    assert EncodeBlocks(bs, out, pos) + rest == enc + tail;
    CutBlock(last, LsbBits(b.Kind(), 2), body, tail);
    assert Pow2(2) == 4;
    LsbRoundTrip(b.Kind(), 2);
    assert out' <= ExpandBlocks(bs, out);
    DecodeBlock(b, pos + 3, tail, out, cap);
    if !last { DecodeBlocks(bs[1..], pos + |enc|, rest, out', cap); }
  }

  /** The byte stream of a list of blocks, zero-padded to a whole byte. */
  ghost function Compress(bs: seq<EBlock>): seq<byte>
    requires ValidBlocks(bs, [])
  {
    BitsBytes(Padded(EncodeBlocks(bs, [], 0)))
  }

  function Padded(bits: seq<bool>): (r: seq<bool>)
    ensures |r| % 8 == 0 && bits <= r
  {
    bits + Padding(|bits|)
  }

  /** Decoding inverts encoding, whatever bytes follow the stream. */
  lemma RoundTrip(bs: seq<EBlock>, trailer: seq<byte>, cap: nat)
    requires ValidBlocks(bs, []) && |ExpandBlocks(bs, [])| <= cap
    ensures var r := Inflate(BytesBits(Compress(bs) + trailer), [], cap);
            r.code == 0 && r.out == ExpandBlocks(bs, [])
  {
    hide EncodeBlocks, ExpandBlocks, ValidBlocks, Inflate, BytesBits, BitsBytes;
    var bits := EncodeBlocks(bs, [], 0);
    var pad := Padding(|bits|);
    var rest := pad + BytesBits(trailer);
    BitsOfBitsBytes(bits + pad);
    BytesBitsConcat(Compress(bs), trailer);
    Assoc(bits, pad, BytesBits(trailer));
    assert (|bits| + |pad| + 8 * |trailer|) % 8 == 0;
    DecodeBlocks(bs, 0, rest, [], cap);
  }

  // ------------------------------------- every length and distance has a code

  /** The exponent of the largest power of two not above m / 2^b. */
  lemma {:induction false} FindExponent(m: nat, b: nat, top: nat) returns (e: nat)
    requires Pow2(b + 1) <= m < Pow2(b + 1 + top)
    ensures 1 <= e <= top && Pow2(e + b) <= m < Pow2(e + b + 1)
  {
    e := 1;
    while Pow2(e + b + 1) <= m
      invariant 1 <= e <= top && Pow2(e + b) <= m
      decreases top - e
    {
      assert e != top;
      e := e + 1;
    }
  }

  lemma EveryLengthHasSymbol(len: nat) returns (ls: nat, lx: nat)
    requires 3 <= len <= 258
    ensures ls < 29 && lx < Pow2(LengthBits(ls)) && FirstLength(ls) + lx == len
  {
    hide FirstLength, LengthBits;
    ls, lx := LengthSymbol(len);
    LengthCodes(ls);
  }

  lemma LengthSymbol(len: nat) returns (ls: nat, lx: nat)
    requires 3 <= len <= 258
    ensures ls < 29 && lx < Pow2(LenExtra(ls)) && LenBase(ls) + lx == len
  {
    if len < 11 { return len - 3, 0; }
    if len == 258 { return 28, 0; }
    var m := len - 3;
    assert Pow2(3) == 8;
    Pow2At8();
    var e := FindExponent(m, 2, 5);
    var p := Pow2(e);
    assert Pow2(e + 2) == 4 * p && Pow2(e + 3) == 8 * p;
    var q := if m < 5 * p then 0 else if m < 6 * p then 1 else if m < 7 * p then 2 else 3;
    ls, lx := 4 * (e + 1) + q, m - (4 + q) * p;
    assert ls / 4 - 1 == e && ls % 4 == q;
    if ls >= 28 { assert false; }
  }

  lemma EveryDistanceHasSymbol(dist: nat) returns (ds: nat, dx: nat)
    requires 1 <= dist <= 32768
    ensures ds < 30 && dx < Pow2(DistanceBits(ds)) && FirstDistance(ds) + dx == dist
  {
    hide FirstDistance, DistanceBits;
    ds, dx := DistanceSymbol(dist);
    DistanceCodes(ds);
  }

  lemma DistanceSymbol(dist: nat) returns (ds: nat, dx: nat)
    requires 1 <= dist <= 32768
    ensures ds < 30 && dx < Pow2(DistExtra(ds)) && DistBase(ds) + dx == dist
  {
    if dist < 5 { return dist - 1, 0; }
    var m := dist - 1;
    assert Pow2(2) == 4;
    assert Pow2(15) == 32768 by { Pow2At8(); Pow2Add(8, 7); assert Pow2(8) == 2 * Pow2(7); }
    var e := FindExponent(m, 1, 13);
    var p := Pow2(e);
    assert Pow2(e + 1) == 2 * p && Pow2(e + 2) == 4 * p;
    var q := if m < 3 * p then 0 else 1;
    ds, dx := 2 * (e + 1) + q, m - (2 + q) * p;
    assert ds / 2 - 1 == e && ds % 2 == q;
  }
}
