/**
 * The converse of the round trip: whatever the decoder accepts is the encoding of
 * some list of blocks, which expands to its output. Each lemma reads the encoded
 * object back from the bits.
 */
module DeflateParser {
  import opened Bits
  import opened Huffman
  import opened Deflate
  import opened DeflateEncoder

  /** The first n bits are those of their value. */
  lemma FieldBits(bits: seq<bool>, n: nat)
    requires n <= |bits|
    ensures LsbVal(bits[..n]) < Pow2(n) && LsbBits(LsbVal(bits[..n]), n) == bits[..n]
  {
    LsbBitsOfVal(bits[..n]);
  }

  lemma Split<T>(s: seq<T>, n: nat)
    requires n <= |s|
    ensures s[..n] + s[n..] == s
  {
  }

  // ------------------------------------------------------------------ tokens

  /** A decoded symbol was in the stream as its canonical code. */
  lemma SymbolParsed(lens: seq<nat>, bits: seq<bool>)
    requires GoodCode(lens) && Decode(lens, bits).Symbol?
    ensures var d := Decode(lens, bits);
            && d.sym < |lens| && lens[d.sym] > 0 && d.used <= |bits| && bits == CodeBits(lens, d.sym) + bits[d.used..]
  {
    var d := Decode(lens, bits);
    DecodeIffCode(lens, bits, d.sym, d.used);
    Split(bits, d.used);
  }

  lemma MatchParsed(dl: seq<nat>, ls: nat, bits: seq<bool>) returns (lx: nat, ds: nat, dx: nat)
    requires GoodCode(dl) && ParseMatch(dl, ls, bits).Match?
    ensures var p := ParseMatch(dl, ls, bits);
            && Ref(ls, lx, ds, dx).Valid() && ds < |dl| && dl[ds] > 0
            && p.len == FirstLength(ls) + lx && p.dist == FirstDistance(ds) + dx
            && bits == LsbBits(lx, LengthBits(ls)) + CodeBits(dl, ds) + LsbBits(dx, DistanceBits(ds)) + p.rest
  {
    hide Decode, CodeBits, LsbBits, LsbVal, Pow2, Accepted, LenBase, LenExtra, DistBase, DistExtra, FirstLength,
        LengthBits, FirstDistance, DistanceBits;
    LengthCodes(ls);
    var n := LengthBits(ls);
    var b1 := bits[n..];
    var d := Decode(dl, b1);
    var b2 := b1[d.used..];
    DistanceCodes(d.sym);
    lx, ds, dx := LsbVal(bits[..n]), d.sym, LsbVal(b2[..DistanceBits(d.sym)]);
    FieldBits(bits, n);
    SymbolParsed(dl, b1);
    FieldBits(b2, DistanceBits(ds));
    Split(bits, n);
    Split(b2, DistanceBits(ds));
    var x, c, y, rest := bits[..n], CodeBits(dl, ds), b2[..DistanceBits(ds)], b2[DistanceBits(ds)..];
    assert x + (c + (y + rest)) == x + c + y + rest;
  }

  /** A parsed literal or match was in the stream as the encoding of a token. */
  lemma TokenParsed(ll: seq<nat>, dl: seq<nat>, bits: seq<bool>) returns (t: Token)
    requires GoodCode(ll) && GoodCode(dl) && (ParseToken(ll, dl, bits).Literal? || ParseToken(ll, dl, bits).Match?)
    ensures var p := ParseToken(ll, dl, bits);
            && t.Valid() && t.Codable(ll, dl) && (t.Lit? <==> p.Literal?) && bits == EncodeToken(ll, dl, t) + p.rest
            && (p.Literal? ==> t.b == p.b) && (p.Match? ==> t.Length() == p.len && t.Distance() == p.dist)
  {
    hide Decode, CodeBits, LsbBits, LsbVal, Pow2, Accepted, ParseMatch, FirstLength, LengthBits, FirstDistance,
        DistanceBits;
    var d := Decode(ll, bits);
    SymbolParsed(ll, bits);
    var rest := bits[d.used..];
    if d.sym < 256 {
      t := Lit(d.sym);
    } else {
      var ls := d.sym - 257;
      var lx, ds, dx := MatchParsed(dl, ls, rest);
      t := Ref(ls, lx, ds, dx);
      var x, c, y, r := LsbBits(lx, LengthBits(ls)), CodeBits(dl, ds), LsbBits(dx, DistanceBits(ds)),
          ParseMatch(dl, ls, rest).rest;
      assert CodeBits(ll, d.sym) + (x + c + y + r) == CodeBits(ll, d.sym) + x + c + y + r;
    }
  }

  lemma {:induction false} TokensParsed(ll: seq<nat>, dl: seq<nat>, bits: seq<bool>, out: seq<byte>, cap: nat)
      returns (ts: seq<Token>)
    requires GoodCode(ll) && GoodCode(dl) && |out| <= cap && Codes(ll, dl, bits, out, cap).code == 0
    ensures var r := Codes(ll, dl, bits, out, cap);
            && ValidTokens(ts, |out|) && AllCodable(ll, dl, ts)
            && bits == EncodeTokens(ll, dl, ts, |out|) + r.rest && Expand(ts, out) == r.out
    decreases |bits|
  {
    hide ParseToken, Emit, Codes, CodeBits, Accepted, EncodeToken, Token.Valid, Token.Codable, Grow;
    if ParseToken(ll, dl, bits).EndOfBlock? {
      ts := [];
      EndParsed(ll, dl, bits, out, cap);
    } else {
      var t, rest := NextParsed(ll, dl, bits, out, cap);
      var out' := Grow(t, out);
      var tail := TokensParsed(ll, dl, rest, out', cap);
      ts := [t] + tail;
      assert ts[1..] == tail;
      Assoc(EncodeToken(ll, dl, t), EncodeTokens(ll, dl, tail, |out'|), Codes(ll, dl, bits, out, cap).rest);
    }
  }

  /** One round of a decoding that succeeds. */
  lemma NextParsed(ll: seq<nat>, dl: seq<nat>, bits: seq<bool>, out: seq<byte>, cap: nat)
      returns (t: Token, rest: seq<bool>)
    requires GoodCode(ll) && GoodCode(dl) && |out| <= cap && Codes(ll, dl, bits, out, cap).code == 0
    requires !ParseToken(ll, dl, bits).EndOfBlock?
    ensures t.Valid() && t.Codable(ll, dl) && (t.Ref? ==> t.Distance() <= |out|) && |Grow(t, out)| <= cap
    ensures |rest| < |bits| && bits == EncodeToken(ll, dl, t) + rest
    ensures Codes(ll, dl, bits, out, cap) == Codes(ll, dl, rest, Grow(t, out), cap)
  {
    hide ParseToken, Accepted, EncodeToken, Token.Valid, Token.Codable;
    t := TokenParsed(ll, dl, bits);
    rest := ParseToken(ll, dl, bits).rest;
    if t.Ref? { CopyExtendsPeriodically(out, t.Distance(), t.Length()); }
  }

  lemma EndParsed(ll: seq<nat>, dl: seq<nat>, bits: seq<bool>, out: seq<byte>, cap: nat)
    requires GoodCode(ll) && |out| <= cap && ParseToken(ll, dl, bits).EndOfBlock?
    ensures 256 < |ll| && ll[256] > 0
    ensures var r := Codes(ll, dl, bits, out, cap); r.out == out && bits == CodeBits(ll, 256) + r.rest
  {
    hide Decode, CodeBits, Accepted, ParseMatch;
    SymbolParsed(ll, bits);
  }

  // ------------------------------------------------------------------ headers

  lemma {:induction false} LengthsParsed(cl: seq<nat>, bits: seq<bool>, total: nat, acc: seq<nat>)
      returns (ts: seq<ClToken>)
    requires |cl| == 19 && GoodCode(cl) && |acc| <= total && ValidLengths(acc)
             && ReadLengths(cl, bits, total, acc).Lengths?
    ensures var r := ReadLengths(cl, bits, total, acc);
            && ValidClTokens(ts, acc) && (forall i :: 0 <= i < |ts| ==> ts[i].Valid() && cl[ts[i].Symbol()] > 0)
            && ExpandCl(ts, acc) == r.lens && bits == EncodeCl(cl, ts) + r.rest
    decreases |bits|
  {
    hide Decode, CodeBits, Accepted, Pow2, ClToken.Valid, ClToken.Symbol, ClToken.Encode, ClToken.Expand;
    if |acc| == total {
      ts := [];
      assert EncodeCl(cl, ts) + bits == bits;
    } else {
      var t, rest := LengthParsed(cl, bits, total, acc);
      var tail := LengthsParsed(cl, rest, total, t.Expand(acc));
      ts := [t] + tail;
      assert ts[1..] == tail;
      Assoc(t.Encode(cl), EncodeCl(cl, tail), ReadLengths(cl, bits, total, acc).rest);
    }
  }

  /** One code-length symbol with its extra bits. */
  lemma LengthParsed(cl: seq<nat>, bits: seq<bool>, total: nat, acc: seq<nat>) returns (t: ClToken, rest: seq<bool>)
    requires |cl| == 19 && GoodCode(cl) && |acc| < total && ValidLengths(acc)
             && ReadLengths(cl, bits, total, acc).Lengths?
    ensures t.Valid() && cl[t.Symbol()] > 0 && (t.Again? ==> acc != []) && |rest| < |bits|
    ensures |t.Expand(acc)| <= total && ValidLengths(t.Expand(acc))
    ensures bits == t.Encode(cl) + rest
            && ReadLengths(cl, bits, total, acc) == ReadLengths(cl, rest, total, t.Expand(acc))
  {
    hide Decode, CodeBits, LsbBits, LsbVal, Accepted, Pow2, ParseRun, ClToken.Extra;
    var d := Decode(cl, bits);
    SymbolParsed(cl, bits);
    rest := bits[d.used..];
    if d.sym < 16 {
      t := One(d.sym);
      assert CodeBits(cl, d.sym) + [] == CodeBits(cl, d.sym);
      NoExtra(t);
    } else {
      var after := ParseRun(d.sym, rest, total, |acc|).rest;
      t := RunParsed(d.sym, rest, total, acc);
      Assoc(CodeBits(cl, d.sym), t.Extra(), after);
      rest := after;
    }
  }

  lemma RunParsed(s: nat, bits: seq<bool>, total: nat, acc: seq<nat>) returns (t: ClToken)
    requires 16 <= s < 19 && ParseRun(s, bits, total, |acc|).Run?
    ensures var r := ParseRun(s, bits, total, |acc|);
            && t.Valid() && !t.One? && t.Symbol() == s && (t.Again? ==> acc != []) && bits == t.Extra() + r.rest
            && |acc| + r.n <= total && t.Expand(acc) == acc + Repeat(RepeatValue(s, acc), r.n)
  {
    hide LsbBits, LsbVal, Pow2;
    RunBits();
    var n := RepeatExtra(s);
    FieldBits(bits, n);
    Split(bits, n);
    var r := ParseRun(s, bits, total, |acc|);
    t := if s == 16 then Again(r.n) else if s == 17 then Zeros(r.n) else ManyZeros(r.n);
  }

  lemma {:induction false} ClLensParsed(bits: seq<bool>, all: nat, n: nat)
    requires n <= all <= 19 && 3 * all <= |bits|
    ensures EncodeClLens(ClLens(bits, all), n) == bits[..3 * n]
    decreases n
  {
    hide LsbBits, LsbVal, ClLens, OrderAt, Sent;
    if n > 0 {
      SentInOrder(n - 1);
      ClLensParsed(bits, all, n - 1);
      ClLensField(bits, all, n - 1);
      var f := bits[3 * (n - 1)..];
      FieldBits(f, 3);
      assert f[..3] == bits[3 * (n - 1)..3 * (n - 1) + 3];
      assert bits[..3 * n] == bits[..3 * (n - 1)] + f[..3];
    }
  }

  lemma UntransmittedZero(bits: seq<bool>, n: nat)
    requires n <= 19 && 3 * n <= |bits|
    ensures ZeroFrom(ClLens(bits, n), n)
  {
    hide ClLens;
    forall i | 0 <= i < 19 && POSITION[i] >= n ensures ClLens(bits, n)[i] == 0 {
      OrderInverse(i);
      ClLensField(bits, n, POSITION[i]);
    }
  }

  /** An accepted dynamic header was in the stream as the encoding of one. */
  lemma HeaderParsed(bits: seq<bool>) returns (d: Dyn)
    requires DynamicHeader(bits).Header?
    ensures var h := DynamicHeader(bits);
            d.Valid() && d.LitLens() == h.ll && d.DistLens() == h.dl && bits == d.Encode() + h.rest
  {
    hide LsbBits, LsbVal, Slack, Accepted, Usable, Transmittable, Complete, ClLens, EncodeClLens, EncodeCl, ExpandCl,
        ValidClTokens, ReadLengths, ZeroFrom, Unused;
    assert Pow2(4) == 16 && Pow2(5) == 32;
    var nlen, ndist, ncode := LsbVal(bits[..5]) + 257, LsbVal(bits[5..10]) + 1, LsbVal(bits[10..14]) + 4;
    var cls := bits[14..];
    var cl := ClLens(cls, ncode);
    var codes := bits[14 + 3 * ncode..];
    var acc: seq<nat> := [];
    ClLensParsed(cls, ncode, ncode);
    UntransmittedZero(cls, ncode);
    ClLensValid(cls, ncode);
    var ts := LengthsParsed(cl, codes, nlen + ndist, acc);
    UsableIff(cl);
    SomeUsed(cl, ts);
    UsableIff(ExpandCl(ts, acc)[..nlen]);
    UsableIff(ExpandCl(ts, acc)[nlen..]);
    d := Dyn(nlen, ndist, ncode, cl, ts);
    HeaderFields(bits, ncode, EncodeCl(cl, ts), DynamicHeader(bits).rest);
  }

  /** Lengths that were sent had codes. */
  lemma SomeUsed(cl: seq<nat>, ts: seq<ClToken>)
    requires |cl| == 19 && ValidClTokens(ts, []) && ExpandCl(ts, []) != []
    requires forall i :: 0 <= i < |ts| ==> ts[i].Valid() && cl[ts[i].Symbol()] > 0
    ensures !Unused(cl)
  {
    assert ts[0].Valid() && cl[ts[0].Symbol()] > 0;
  }

  lemma ClLensValid(bits: seq<bool>, n: nat)
    requires n <= 19 && 3 * n <= |bits|
    ensures ValidLengths(ClLens(bits, n))
  {
    hide ClLens;
  }

  /** The header's fixed fields and what follows them, put together again. */
  lemma HeaderFields(bits: seq<bool>, ncode: nat, ts: seq<bool>, rest: seq<bool>)
    requires |bits| >= 14 + 3 * ncode && bits[14 + 3 * ncode..] == ts + rest
    ensures bits == LsbBits(LsbVal(bits[..5]), 5) + LsbBits(LsbVal(bits[5..10]), 5) + LsbBits(LsbVal(bits[10..14]), 4)
                    + bits[14..][..3 * ncode] + ts + rest
  {
    hide LsbBits, LsbVal;
    FieldBits(bits, 5);
    FieldBits(bits[5..], 5);
    FieldBits(bits[10..], 4);
    assert bits[5..][..5] == bits[5..10] && bits[10..][..4] == bits[10..14];
    assert bits == bits[..5] + bits[5..10] + bits[10..14] + bits[14..][..3 * ncode] + bits[14 + 3 * ncode..];
  }

  // ------------------------------------------------------------------- blocks

  lemma StoredParsed(bits: seq<bool>, out: seq<byte>, cap: nat, pos: nat) returns (b: EBlock)
    requires |out| <= cap && Stored(bits, out, cap).code == 0 && (pos + |bits|) % 8 == 0
    ensures var r := Stored(bits, out, cap);
            b.EStored? && b.Valid(|out|) && bits == b.Body(|out|, pos) + r.rest && b.Expanded(out) == r.out
  {
    hide LsbBits, LsbVal, BytesBits, BitsBytes, Pow2;
    var gap := Gap(pos);
    GapLeft(pos, |bits|);
    var a := bits[gap..];
    var len := LsbVal(a[..16]);
    FieldBits(a, 16);
    Pow2At16();
    var body := a[32..][..8 * len];
    BitsOfBitsBytes(body);
    var data := BitsBytes(body);
    b := EStored(data, bits[..gap] + seq(7 - gap, i => false), a[16..32]);
    CutPad(bits[..gap], 7 - gap);
    CutFields(bits, gap, 8 * len);
  }

  lemma GapLeft(pos: nat, n: nat)
    requires (pos + n) % 8 == 0
    ensures n % 8 == Gap(pos)
  {
  }

  lemma CutPad(bits: seq<bool>, n: nat)
    ensures (bits + seq(n, i => false))[..|bits|] == bits
  {
  }

  lemma CutFields<T>(bits: seq<T>, gap: nat, n: nat)
    requires gap + 32 + n <= |bits|
    ensures var a := bits[gap..];
            bits == bits[..gap] + a[..16] + a[16..32] + a[32..][..n] + a[32..][n..]
  {
  }

  lemma Pow2At16()
    ensures Pow2(16) == 65536
  {
    Pow2At8();
    Pow2Add(8, 8);
  }

  lemma BlockParsed(kind: nat, bits: seq<bool>, out: seq<byte>, cap: nat, pos: nat) returns (b: EBlock)
    requires |out| <= cap && Block(kind, bits, out, cap).code == 0 && (pos + |bits|) % 8 == 0
    ensures var r := Block(kind, bits, out, cap);
            b.Valid(|out|) && b.Kind() == kind && bits == b.Body(|out|, pos) + r.rest && b.Expanded(out) == r.out
  {
    hide Stored, Codes, DynamicHeader, EncodeTokens, ValidTokens, Expand, BytesBits, LsbBits, FixedLens, FixedDists,
        AllCodable, Dyn.Valid, Dyn.Encode, Dyn.LitLens, Dyn.DistLens;
    if kind == 0 {
      b := StoredParsed(bits, out, cap, pos);
    } else if kind == 1 {
      FixedAccepted();
      FixedDistsAccepted();
      var ts := TokensParsed(FixedLens(), FixedDists(), bits, out, cap);
      b := EFixed(ts);
    } else {
      var h := DynamicHeader(bits);
      var d := HeaderParsed(bits);
      var ts := TokensParsed(h.ll, h.dl, h.rest, out, cap);
      b := EDynamic(d, ts);
      Assoc(d.Encode(), EncodeTokens(h.ll, h.dl, ts, |out|), Block(kind, bits, out, cap).rest);
    }
  }

  lemma {:induction false} StreamParsed(bits: seq<bool>, out: seq<byte>, cap: nat, pos: nat) returns (bs: seq<EBlock>)
    requires |out| <= cap && Inflate(bits, out, cap).code == 0 && (pos + |bits|) % 8 == 0
    ensures var r := Inflate(bits, out, cap);
            ValidBlocks(bs, out) && bits == EncodeBlocks(bs, out, pos) + r.rest && ExpandBlocks(bs, out) == r.out
    decreases |bits|
  {
    hide Block, LsbVal, LsbBits, EBlock.Body, EBlock.Valid, EBlock.Expanded;
    var kind := LsbVal(bits[1..3]);
    var r := Block(kind, bits[3..], out, cap);
    var b := BlockParsed(kind, bits[3..], out, cap, pos + 3);
    FieldBits(bits[1..], 2);
    assert bits[1..][..2] == bits[1..3];
    var enc := EncodeBlock(b, bits[0], |out|, pos);
    HeaderBits(bits, LsbBits(kind, 2), b.Body(|out|, pos + 3), r.rest);
    if bits[0] {
      bs := [b];
    } else {
      LengthSum(bits, enc, r.rest, pos);
      var tail := StreamParsed(r.rest, r.out, cap, pos + |enc|);
      bs := [b] + tail;
      assert bs[1..] == tail;
      Assoc(enc, EncodeBlocks(tail, r.out, pos + |enc|), Inflate(bits, out, cap).rest);
    }
  }

  lemma HeaderBits(bits: seq<bool>, kind: seq<bool>, body: seq<bool>, rest: seq<bool>)
    requires |bits| >= 3 && bits[1..3] == kind && bits[3..] == body + rest
    ensures bits == [bits[0]] + kind + body + rest
  {
  }

  lemma LengthSum(bits: seq<bool>, enc: seq<bool>, rest: seq<bool>, pos: nat)
    requires bits == enc + rest && (pos + |bits|) % 8 == 0
    ensures (pos + |enc| + |rest|) % 8 == 0
  {
  }

  /** The bytes start with the encoding of bs. */
  ghost predicate Encodes(input: seq<byte>, bs: seq<EBlock>)
    requires ValidBlocks(bs, [])
  {
    EncodeBlocks(bs, [], 0) <= BytesBits(input)
  }

  /**
   * The decoder succeeds with an output exactly when the input starts with the
   * encoding of some block list that expands to it and it fits: nothing but
   * DEFLATE streams is accepted, up to NLEN and padding bits.
   */
  lemma DecodesIff(input: seq<byte>, cap: nat, out: seq<byte>)
    ensures Inflate(BytesBits(input), [], cap).code == 0 && Inflate(BytesBits(input), [], cap).out == out <==>
            |out| <= cap && exists bs :: ValidBlocks(bs, []) && Encodes(input, bs) && ExpandBlocks(bs, []) == out
  {
    hide Inflate, BytesBits, EncodeBlocks, ExpandBlocks, ValidBlocks;
    var bits, r := BytesBits(input), Inflate(BytesBits(input), [], cap);
    if r.code == 0 && r.out == out {
      var bs := StreamParsed(bits, [], cap, 0);
      assert Encodes(input, bs);
    }
    if |out| <= cap && exists bs :: ValidBlocks(bs, []) && Encodes(input, bs) && ExpandBlocks(bs, []) == out {
      var bs :| ValidBlocks(bs, []) && Encodes(input, bs) && ExpandBlocks(bs, []) == out;
      var enc := EncodeBlocks(bs, [], 0);
      assert bits[..|enc|] == enc;
      Split(bits, |enc|);
      assert enc + bits[|enc|..] == bits;
      DecodeBlocks(bs, 0, bits[|enc|..], [], cap);
    }
  }
}
