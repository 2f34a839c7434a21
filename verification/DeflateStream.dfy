/**
 * Streaming: further input matters only to a decoder that has run out of it, so
 * that a stream which arrives in part is reported as cut, and what has been written
 * of it is right.
 */
module DeflateStream {
  import opened Bits
  import opened Huffman
  import opened Deflate
  import opened DeflateEncoder

  /** The two codes for missing input. */
  predicate Starved(code: int)
  {
    code == 2 || code == -99
  }

  /** From r, the result on some input, to r', the result on that input with more behind it. */
  ghost predicate Goes(r: Result, r': Result, more: seq<bool>)
  {
    if Starved(r.code) then r.out <= r'.out else r' == Result(r.code, r.rest + more, r.out)
  }

  lemma {:induction false} DecodeFromMore(lens: seq<nat>, bits: seq<bool>, more: seq<bool>, k: nat)
    requires 1 <= k <= MAXBITS + 1 && PastLength(lens, bits, k - 1)
    ensures PastLength(lens, bits + more, k - 1)
    ensures !DecodeFrom(lens, bits, k).OutOfInput? ==> DecodeFrom(lens, bits + more, k) == DecodeFrom(lens, bits, k)
    decreases MAXBITS + 1 - k
  {
    hide NextCode, BlCount, MsbVal, Nth, CountIn;
    assert (bits + more)[..k - 1] == bits[..k - 1];
    if k <= MAXBITS && |bits| >= k {
      assert (bits + more)[..k] == bits[..k];
      if MsbVal(bits[..k]) >= NextCode(lens, k) + BlCount(lens, k) { DecodeFromMore(lens, bits, more, k + 1); }
    }
  }

  lemma DecodeMore(lens: seq<nat>, bits: seq<bool>, more: seq<bool>)
    ensures !Decode(lens, bits).OutOfInput? ==> Decode(lens, bits + more) == Decode(lens, bits)
  {
    DecodeFromMore(lens, bits, more, 1);
  }

  lemma Behind<T>(a: seq<T>, b: seq<T>, n: nat)
    requires n <= |a|
    ensures (a + b)[..n] == a[..n] && (a + b)[n..] == a[n..] + b
  {
  }

  /** A parsed token with more input behind it. */
  function With(p: Parsed, more: seq<bool>): Parsed
  {
    match p
    case Literal(b, rest) => Literal(b, rest + more)
    case Match(len, dist, rest) => Match(len, dist, rest + more)
    case EndOfBlock(rest) => EndOfBlock(rest + more)
    case Malformed(code) => Malformed(code)
  }

  lemma MatchMore(dl: seq<nat>, ls: nat, bits: seq<bool>, more: seq<bool>)
    requires ParseMatch(dl, ls, bits) != Malformed(-99)
    ensures ParseMatch(dl, ls, bits + more) == With(ParseMatch(dl, ls, bits), more)
  {
    hide Decode, LsbVal, LenBase, LenExtra, DistBase, DistExtra;
    if ls < 29 {
      Behind(bits, more, LenExtra(ls));
      var b1 := bits[LenExtra(ls)..];
      DecodeMore(dl, b1, more);
      var d := Decode(dl, b1);
      if d.Symbol? {
        Behind(b1, more, d.used);
        if d.sym < 30 { Behind(b1[d.used..], more, DistExtra(d.sym)); }
      }
    }
  }

  lemma TokenMore(ll: seq<nat>, dl: seq<nat>, bits: seq<bool>, more: seq<bool>)
    requires ParseToken(ll, dl, bits) != Malformed(-99)
    ensures ParseToken(ll, dl, bits + more) == With(ParseToken(ll, dl, bits), more)
  {
    hide Decode, ParseMatch;
    DecodeMore(ll, bits, more);
    var d := Decode(ll, bits);
    if d.Symbol? {
      Behind(bits, more, d.used);
      if d.sym > 256 { MatchMore(dl, d.sym - 257, bits[d.used..], more); }
    }
  }

  lemma {:induction false} CodesMore(ll: seq<nat>, dl: seq<nat>, bits: seq<bool>, more: seq<bool>, out: seq<byte>,
      cap: nat)
    requires |out| <= cap
    ensures Goes(Codes(ll, dl, bits, out, cap), Codes(ll, dl, bits + more, out, cap), more)
    decreases |bits|
  {
    hide ParseToken, Copy;
    var p := ParseToken(ll, dl, bits);
    if p != Malformed(-99) {
      TokenMore(ll, dl, bits, more);
      var s := Emit(p, bits, out, cap);
      if s.Next? { CodesMore(ll, dl, s.rest, more, s.out, cap); }
    }
  }

  lemma StoredMore(bits: seq<bool>, more: seq<bool>, out: seq<byte>, cap: nat)
    requires |out| <= cap && |more| % 8 == 0
    ensures Goes(Stored(bits, out, cap), Stored(bits + more, out, cap), more)
  {
    hide LsbVal, BitsBytes;
    var a := Aligned(bits);
    AlignedMore(bits, more);
    if |a| >= 32 {
      Behind(a, more, 16);
      Behind(a, more, 32);
      BodyMore(LsbVal(a[..16]), a[32..], more, out, cap);
    }
  }

  lemma AlignedMore(bits: seq<bool>, more: seq<bool>)
    requires |more| % 8 == 0
    ensures Aligned(bits + more) == Aligned(bits) + more
  {
    assert |bits + more| % 8 == |bits| % 8;
  }

  lemma BodyMore(len: nat, body: seq<bool>, more: seq<bool>, out: seq<byte>, cap: nat)
    requires |out| <= cap
    ensures Goes(StoredBody(len, body, out, cap), StoredBody(len, body + more, out, cap), more)
  {
    hide BitsBytes;
    if |body| >= 8 * len {
      Behind(body, more, 8 * len);
      if |out| + len > cap { Behind(body, more, 8 * (cap - |out|)); }
    }
  }

  // ------------------------------------------------------------------ headers

  lemma RunMore(s: nat, bits: seq<bool>, more: seq<bool>, total: nat, have: nat)
    requires s >= 16 && ParseRun(s, bits, total, have) != BadRun(-99)
    ensures var r := ParseRun(s, bits, total, have);
            ParseRun(s, bits + more, total, have) == if r.Run? then Run(r.n, r.rest + more) else r
  {
    hide LsbVal;
    if |bits| >= RepeatExtra(s) { Behind(bits, more, RepeatExtra(s)); }
  }

  lemma {:induction false} LengthsMore(cl: seq<nat>, bits: seq<bool>, more: seq<bool>, total: nat, acc: seq<nat>)
    requires |acc| <= total && ValidLengths(acc) && ReadLengths(cl, bits, total, acc) != NoLengths(-99)
    ensures var r := ReadLengths(cl, bits, total, acc);
            ReadLengths(cl, bits + more, total, acc) == if r.Lengths? then Lengths(r.lens, r.rest + more) else r
    decreases |bits|
  {
    hide Decode, ParseRun;
    if |acc| < total {
      DecodeMore(cl, bits, more);
      var d := Decode(cl, bits);
      if d.Symbol? {
        var rest := bits[d.used..];
        Behind(bits, more, d.used);
        if d.sym < 16 {
          LengthsMore(cl, rest, more, total, acc + [d.sym]);
        } else {
          RunMore(d.sym, rest, more, total, |acc|);
          var r := ParseRun(d.sym, rest, total, |acc|);
          if r.Run? { LengthsMore(cl, r.rest, more, total, acc + Repeat(RepeatValue(d.sym, acc), r.n)); }
        }
      }
    }
  }

  lemma {:induction false} ClLensMore(bits: seq<bool>, more: seq<bool>, n: nat)
    requires n <= 19 && 3 * n <= |bits|
    ensures ClLens(bits + more, n) == ClLens(bits, n)
    decreases n
  {
    hide LsbVal, OrderAt;
    if n > 0 {
      ClLensMore(bits, more, n - 1);
      assert (bits + more)[3 * (n - 1)..3 * n] == bits[3 * (n - 1)..3 * n];
    }
  }

  lemma HeaderMore(bits: seq<bool>, more: seq<bool>)
    requires DynamicHeader(bits) != BadHeader(-99)
    ensures var h := DynamicHeader(bits);
            DynamicHeader(bits + more) == if h.Header? then Header(h.ll, h.dl, h.rest + more) else h
  {
    hide LsbVal, ClLens, ReadLengths, Accepted, Slack, Usable;
    if |bits| >= 14 {
      FieldsMore(bits, more);
      assert Pow2(4) == 16;
      var nlen, ndist, ncode := LsbVal(bits[..5]) + 257, LsbVal(bits[5..10]) + 1, LsbVal(bits[10..14]) + 4;
      if |bits| >= 14 + 3 * ncode {
        Behind(bits, more, 14);
        ClLensMore(bits[14..], more, ncode);
        Behind(bits, more, 14 + 3 * ncode);
        var acc: seq<nat> := [];
        var codes := bits[14 + 3 * ncode..];
        if ReadLengths(ClLens(bits[14..], ncode), codes, nlen + ndist, acc) != NoLengths(-99) {
          LengthsMore(ClLens(bits[14..], ncode), codes, more, nlen + ndist, acc);
        }
      }
    }
  }

  lemma FieldsMore(bits: seq<bool>, more: seq<bool>)
    requires |bits| >= 14
    ensures (bits + more)[..5] == bits[..5] && (bits + more)[5..10] == bits[5..10]
            && (bits + more)[10..14] == bits[10..14]
  {
  }

  // ------------------------------------------------------------------ streams

  lemma BlockMore(kind: nat, bits: seq<bool>, more: seq<bool>, out: seq<byte>, cap: nat)
    requires |out| <= cap && |more| % 8 == 0
    ensures Goes(Block(kind, bits, out, cap), Block(kind, bits + more, out, cap), more)
  {
    hide Stored, Codes, DynamicHeader;
    if kind == 0 {
      StoredMore(bits, more, out, cap);
    } else if kind == 1 {
      CodesMore(FixedLens(), FixedDists(), bits, more, out, cap);
    } else if kind == 2 && DynamicHeader(bits) != BadHeader(-99) {
      HeaderMore(bits, more);
      var h := DynamicHeader(bits);
      if h.Header? { CodesMore(h.ll, h.dl, h.rest, more, out, cap); }
    }
  }

  /**
   * With whole bytes behind it the input gives the same result and the same output,
   * unless it was too short; then it gives at least the same output.
   */
  lemma {:induction false} MoreInput(bits: seq<bool>, more: seq<bool>, out: seq<byte>, cap: nat)
    requires |out| <= cap && |more| % 8 == 0
    ensures Goes(Inflate(bits, out, cap), Inflate(bits + more, out, cap), more)
    decreases |bits|
  {
    hide Block, LsbVal;
    if |bits| >= 3 {
      assert (bits + more)[1..3] == bits[1..3];
      Behind(bits, more, 3);
      var kind := LsbVal(bits[1..3]);
      BlockMore(kind, bits[3..], more, out, cap);
      var r := Block(kind, bits[3..], out, cap);
      if r.code == 0 && !bits[0] { MoreInput(r.rest, more, r.out, cap); }
    }
  }

  /** A compressed stream of which only the first bytes are there: either it is reported, or nothing is missing. */
  lemma CutStream(bs: seq<EBlock>, cut: nat, cap: nat)
    requires ValidBlocks(bs, []) && |ExpandBlocks(bs, [])| <= cap && cut <= |Compress(bs)|
    ensures var r := Inflate(BytesBits(Compress(bs)[..cut]), [], cap);
            && r.out <= ExpandBlocks(bs, [])
            && (Starved(r.code) || (r.code == 0 && r.out == ExpandBlocks(bs, [])))
  {
    hide EncodeBlocks, ExpandBlocks, ValidBlocks, Inflate, BytesBits, BitsBytes, Compress;
    var all := Compress(bs);
    RoundTrip(bs, [], cap);
    assert all + [] == all && all[..cut] + all[cut..] == all;
    BytesBitsConcat(all[..cut], all[cut..]);
    MoreInput(BytesBits(all[..cut]), BytesBits(all[cut..]), [], cap);
  }

  // ------------------------------------------------------------------- errors

  /** A match that reaches in front of the output is -12, and nothing of it is written. */
  lemma FarMatch(ll: seq<nat>, dl: seq<nat>, t: Token, rest: seq<bool>, out: seq<byte>, cap: nat)
    requires GoodCode(ll) && GoodCode(dl) && t.Ref? && t.Valid() && t.Codable(ll, dl)
    requires t.Distance() > |out| && |out| <= cap
    ensures Codes(ll, dl, EncodeToken(ll, dl, t) + rest, out, cap) == Result(-12, rest, out)
  {
    hide EncodeToken, ParseToken, Token.Valid, Token.Codable, Accepted;
    ParseEncodedToken(ll, dl, t, rest);
  }

  /** A length that repeats none before it is -5. */
  lemma FirstRepeat(cl: seq<nat>, n: nat, rest: seq<bool>, total: nat)
    requires |cl| == 19 && GoodCode(cl) && cl[16] > 0 && 3 <= n <= 6 && total > 0
    ensures ReadLengths(cl, Again(n).Encode(cl) + rest, total, []) == NoLengths(-5)
  {
    hide Decode, CodeBits, Accepted, LsbBits;
    Assoc(CodeBits(cl, 16), Again(n).Extra(), rest);
    DecodeCode(cl, 16, Again(n).Extra() + rest);
  }

  /** Repetitions beyond the announced number of lengths are -6. */
  lemma LongRun(cl: seq<nat>, t: ClToken, rest: seq<bool>, total: nat, acc: seq<nat>)
    requires |cl| == 19 && GoodCode(cl) && t.Valid() && !t.One? && cl[t.Symbol()] > 0 && ValidLengths(acc)
    requires (t.Again? ==> acc != []) && |acc| < total < |acc| + t.n
    ensures ReadLengths(cl, t.Encode(cl) + rest, total, acc) == NoLengths(-6)
  {
    hide Decode, CodeBits, Accepted, LsbBits, LsbVal, ClToken.Extra, ParseRun, Pow2;
    var extra := t.Extra();
    Assoc(CodeBits(cl, t.Symbol()), extra, rest);
    DecodeCode(cl, t.Symbol(), extra + rest);
    DropPrefix(CodeBits(cl, t.Symbol()), extra + rest);
    RunEncoded(t, rest, |acc| + t.n, acc);
    RunCut(t.Symbol(), extra + rest, |acc| + t.n, total, |acc|);
  }

  lemma RunCut(s: nat, bits: seq<bool>, total: nat, less: nat, have: nat)
    requires s >= 16 && ParseRun(s, bits, total, have).Run? && less < have + ParseRun(s, bits, total, have).n
    ensures ParseRun(s, bits, less, have) == BadRun(-6)
  {
    hide LsbVal;
  }
}
