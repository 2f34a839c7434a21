/**
 * rex_gunzip of user/inflate.c: finding the DEFLATE stream inside a gzip
 * member (RFC 1952), a zlib stream (RFC 1950) or raw input.
 */
module Gzip {
  import opened Basics
  import opened Bits
  import Deflate
  import opened DeflateEncoder
  import I = Inflate

  datatype Start = BadHeader | At(off: nat)

  const FHCRC := 2
  const FEXTRA := 4
  const FNAME := 8
  const FCOMMENT := 16

  /** Bit f (a power of two) of flag byte b. */
  predicate Flag(b: byte, f: nat)
    requires f > 0
  {
    b / f % 2 == 1
  }

  predicate LooksGzip(p: seq<byte>)
  {
    |p| >= 2 && p[0] == 0x1F && p[1] == 0x8B
  }

  predicate LooksZlib(p: seq<byte>)
  {
    |p| >= 2 && p[0] % 16 == 8 && (p[0] as nat * 256 + p[1] as nat) % 31 == 0
  }

  /** Behind the zero byte that ends the string at off, or behind the input. */
  function AfterZero(p: seq<byte>, off: nat): (r: nat)
    ensures r > off
    decreases |p| - off
  {
    if off < |p| && p[off] != 0 then AfterZero(p, off + 1) else off + 1
  }

  /** The first byte behind the header's optional fields, if the header is whole. */
  function GzipStart(p: seq<byte>): Start
  {
    if |p| < 10 || (Flag(p[3], FEXTRA) && 12 > |p|) then BadHeader
    else
      var extra := if Flag(p[3], FEXTRA) then 12 + p[10] as nat + 256 * p[11] as nat else 10;
      var name := if Flag(p[3], FNAME) then AfterZero(p, extra) else extra;
      var comment := if Flag(p[3], FCOMMENT) then AfterZero(p, name) else name;
      var off := if Flag(p[3], FHCRC) then comment + 2 else comment;
      if off >= |p| then BadHeader else At(off)
  }

  function StreamStart(p: seq<byte>): (r: Start)
    ensures r.At? ==> r.off <= |p|
  {
    if LooksGzip(p) then GzipStart(p) else if LooksZlib(p) then At(2) else At(0)
  }

  /** rex_gunzip: -20 for a broken gzip header, otherwise what inflating the located stream gives. */
  method RexGunzip(dest: array<byte>, source: seq<byte>) returns (ret: int, destlen: nat)
    modifies dest
    ensures StreamStart(source).BadHeader? ==> ret == -20 && destlen == dest.Length && dest[..] == old(dest[..])
    ensures StreamStart(source).At? ==>
              var r := Deflate.Inflate(BytesBits(source[StreamStart(source).off..]), [], dest.Length);
              ret == r.code && destlen == |r.out| && dest[..destlen] == r.out
  {
    hide Deflate.Inflate, BytesBits, AfterZero, Flag;
    var n := |source|;
    if n >= 2 && source[0] == 0x1F && source[1] == 0x8B {
      if n < 10 { return -20, dest.Length; }
      var flg, off: nat := source[3], 10;
      if Flag(flg, FEXTRA) {
        if off + 2 > n { return -20, dest.Length; }
        off := off + 2 + source[off] as nat + 256 * source[off + 1] as nat;
      }
      if Flag(flg, FNAME) { off := SkipString(source, off); }
      if Flag(flg, FCOMMENT) { off := SkipString(source, off); }
      if Flag(flg, FHCRC) { off := off + 2; }
      if off >= n { return -20, dest.Length; }
      ret, destlen := I.RexInflate(dest, source[off..]);
    } else if n >= 2 && source[0] % 16 == 8 && (source[0] as nat * 256 + source[1] as nat) % 31 == 0 {
      ret, destlen := I.RexInflate(dest, source[2..]);
    } else {
      assert source[0..] == source;
      ret, destlen := I.RexInflate(dest, source);
    }
  }

  method SkipString(p: seq<byte>, start: nat) returns (off: nat)
    ensures off == AfterZero(p, start)
  {
    off := start;
    while off < |p| && p[off] != 0
      invariant AfterZero(p, off) == AfterZero(p, start)
      decreases |p| - off
    {
      off := off + 1;
    }
    off := off + 1;
  }

  // ------------------------------------------------------------- gzip members

  /**
   * The header of RFC 1952 section 2.3: the compression method, which is 8 but not
   * looked at, fixed bytes, and four optional fields.
   */
  datatype Header = Header(cm: byte, text: bool, reserved: nat, fixed: seq<byte>, extra: Option<seq<byte>>,
      name: Option<seq<byte>>, comment: Option<seq<byte>>, crc: Option<seq<byte>>)
  {
    predicate Valid()
    {
      && |fixed| == 6 && reserved < 8
      && (extra.Some? ==> |extra.value| < 65536)
      && (name.Some? ==> 0 !in name.value) && (comment.Some? ==> 0 !in comment.value)
      && (crc.Some? ==> |crc.value| == 2)
    }

    /** FTEXT, FHCRC, FEXTRA, FNAME, FCOMMENT and the reserved bits. */
    function Flags(): (b: byte)
      requires Valid()
    {
      Bit(text) + 2 * Bit(crc.Some?) + 4 * Bit(extra.Some?) + 8 * Bit(name.Some?) + 16 * Bit(comment.Some?)
          + 32 * reserved
    }

    function Prefix(): (r: seq<byte>)
      requires Valid()
      ensures |r| == 10
    {
      [0x1F, 0x8B, cm, Flags()] + fixed
    }

    function Extra(): seq<byte>
      requires Valid()
    {
      if extra.Some? then [|extra.value| % 256, |extra.value| / 256] + extra.value else []
    }

    function Crc(): seq<byte>
    {
      if crc.Some? then crc.value else []
    }

    function Bytes(): seq<byte>
      requires Valid()
    {
      Prefix() + (Extra() + (Text(name) + (Text(comment) + Crc())))
    }
  }

  function Text(s: Option<seq<byte>>): seq<byte>
  {
    if s.Some? then s.value + [0] else []
  }

  /** The flag byte tells the four optional fields apart. */
  lemma FlagsTell(h: Header)
    requires h.Valid()
    ensures Flag(h.Flags(), FHCRC) <==> h.crc.Some?
    ensures Flag(h.Flags(), FEXTRA) <==> h.extra.Some?
    ensures Flag(h.Flags(), FNAME) <==> h.name.Some?
    ensures Flag(h.Flags(), FCOMMENT) <==> h.comment.Some?
  {
    var t, c, e, n, m := Bit(h.text), Bit(h.crc.Some?), Bit(h.extra.Some?), Bit(h.name.Some?), Bit(h.comment.Some?);
    var b: nat := h.Flags();
    assert b / 2 == c + 2 * (e + 2 * (n + 2 * (m + 2 * h.reserved)));
    assert b / 4 == e + 2 * (n + 2 * (m + 2 * h.reserved));
    assert b / 8 == n + 2 * (m + 2 * h.reserved);
    assert b / 16 == m + 2 * h.reserved;
  }

  /** A zero-terminated string in the middle of the input is skipped exactly. */
  lemma {:induction false} AfterString(front: seq<byte>, s: seq<byte>, back: seq<byte>)
    requires 0 !in s
    ensures AfterZero(front + (s + [0] + back), |front|) == |front| + |s| + 1
    decreases |s|
  {
    var p := front + (s + [0] + back);
    if s == [] {
      assert p[|front|] == 0;
    } else {
      assert p[|front|] == s[0] && s[0] in s;
      assert front + [s[0]] + (s[1..] + [0] + back) == p;
      AfterString(front + [s[0]], s[1..], back);
    }
  }

  lemma AfterText(front: seq<byte>, s: Option<seq<byte>>, back: seq<byte>)
    requires s.Some? ==> 0 !in s.value
    ensures (if s.Some? then AfterZero(front + (Text(s) + back), |front|) else |front|) == |front| + |Text(s)|
  {
    if s.Some? { AfterString(front, s.value, back); }
  }

  /** A header with any combination of optional fields is skipped exactly, so the decoder starts at the stream. */
  lemma HeaderSkipped(h: Header, body: seq<byte>)
    requires h.Valid() && |body| > 0
    ensures StreamStart(h.Bytes() + body) == At(|h.Bytes()|)
  {
    hide Header.Flags, Header.Valid, AfterZero, Text, Header.Crc, Flag, Header.Extra;
    FlagsTell(h);
    var p := h.Bytes() + body;
    var f0 := h.Prefix();
    var f1 := f0 + h.Extra();
    var f2 := f1 + Text(h.name);
    HeaderShape(f0, h.Extra(), Text(h.name), Text(h.comment), h.Crc(), body);
    PrefixBytes(h, p);
    ValidFacts(h);
    AfterText(f1, h.name, Text(h.comment) + (h.Crc() + body));
    AfterText(f2, h.comment, h.Crc() + body);
    ExtraLength(h, p, f1);
  }

  /** A string that ends inside the input. */
  lemma {:induction false} ZeroFound(p: seq<byte>, off: nat)
    requires off <= |p| && AfterZero(p, off) <= |p|
    ensures var z := AfterZero(p, off); off < z && p[z - 1] == 0 && 0 !in p[off..z - 1]
    decreases |p| - off
  {
    if off < |p| && p[off] != 0 {
      ZeroFound(p, off + 1);
      var z := AfterZero(p, off);
      assert p[off..z - 1] == [p[off]] + p[off + 1..z - 1];
    }
  }

  /** The text that the flag announces at off, where the next field starts behind it. */
  lemma TextParsed(p: seq<byte>, there: bool, off: nat, next: nat) returns (s: Option<seq<byte>>)
    requires off <= |p| && next == (if there then AfterZero(p, off) else off) && next <= |p|
    ensures (s.Some? <==> there) && (s.Some? ==> 0 !in s.value) && off <= next && Text(s) == p[off..next]
  {
    hide AfterZero;
    if there {
      ZeroFound(p, off);
      s := Some(p[off..next - 1]);
      assert p[off..next - 1] + [0] == p[off..next];
    } else {
      s := None;
    }
  }

  lemma ByteFlags(b: byte)
    ensures b == b % 2 + 2 * (b / 2 % 2) + 4 * (b / 4 % 2) + 8 * (b / 8 % 2) + 16 * (b / 16 % 2) + 32 * (b / 32)
  {
    assert b / 4 == b / 2 / 2 && b / 8 == b / 4 / 2 && b / 16 == b / 8 / 2 && b / 32 == b / 16 / 2;
  }

  /** What is skipped is a header. */
  lemma HeaderFound(p: seq<byte>) returns (h: Header)
    requires LooksGzip(p) && GzipStart(p).At?
    ensures h.Valid() && h.Bytes() == p[..GzipStart(p).off] && GzipStart(p).off < |p|
  {
    hide AfterZero, Flag, Header.Flags, Header.Bytes, Header.Prefix, Header.Extra, Header.Crc, Text;
    var b := p[3];
    var e := if Flag(b, FEXTRA) then 12 + p[10] as nat + 256 * p[11] as nat else 10;
    var n := if Flag(b, FNAME) then AfterZero(p, e) else e;
    var c := if Flag(b, FCOMMENT) then AfterZero(p, n) else n;
    var name := TextParsed(p, Flag(b, FNAME), e, n);
    var comment := TextParsed(p, Flag(b, FCOMMENT), n, c);
    var extra := if Flag(b, FEXTRA) then Some(p[12..e]) else None;
    var crc := if Flag(b, FHCRC) then Some(p[c..c + 2]) else None;
    h := Header(p[2], b % 2 == 1, b / 32, p[4..10], extra, name, comment, crc);
    FlagsJoined(h, b);
    FirstField(h, p, e);
    LastField(h, p, c, GzipStart(p).off);
    FieldsJoined(h, p, e, n, c, GzipStart(p).off);
  }

  lemma FlagsJoined(h: Header, b: byte)
    requires |h.fixed| == 6 && h.text == (b % 2 == 1) && h.reserved == b / 32
    requires (h.crc.Some? <==> Flag(b, FHCRC)) && (h.extra.Some? <==> Flag(b, FEXTRA))
    requires (h.name.Some? <==> Flag(b, FNAME)) && (h.comment.Some? <==> Flag(b, FCOMMENT))
    ensures h.reserved < 8 && (h.Valid() ==> h.Flags() == b)
  {
    ByteFlags(b);
  }

  lemma FirstField(h: Header, p: seq<byte>, e: nat)
    requires h.Valid() && LooksGzip(p) && |p| >= 10 && h.cm == p[2] && h.Flags() == p[3] && h.fixed == p[4..10]
    requires e <= |p|
    requires if h.extra.Some? then 12 <= e && e == 12 + p[10] as nat + 256 * p[11] as nat && h.extra.value == p[12..e]
             else e == 10
    ensures h.Prefix() == p[..10] && h.Extra() == p[10..e]
  {
    hide Header.Flags;
    assert p[..10] == [p[0], p[1], p[2], p[3]] + p[4..10];
    if h.extra.Some? { assert p[10..e] == [p[10], p[11]] + p[12..e]; }
  }

  lemma LastField(h: Header, p: seq<byte>, c: nat, off: nat)
    requires c <= off <= |p| && if h.crc.Some? then off == c + 2 && h.crc.value == p[c..c + 2] else off == c
    ensures h.Crc() == p[c..off]
  {
  }

  lemma FieldsJoined(h: Header, p: seq<byte>, e: nat, n: nat, c: nat, off: nat)
    requires h.Valid() && 10 <= e <= n <= c <= off <= |p|
    requires h.Prefix() == p[..10] && h.Extra() == p[10..e]
    requires Text(h.name) == p[e..n] && Text(h.comment) == p[n..c] && h.Crc() == p[c..off]
    ensures h.Bytes() == p[..off]
  {
    hide Header.Prefix, Header.Extra, Header.Crc, Text;
    assert p[..10] + (p[10..e] + (p[e..n] + (p[n..c] + p[c..off]))) == p[..off];
  }

  /**
   * Input with the gzip magic is taken for a member exactly when it is a whole
   * header with something behind it; otherwise -20.
   */
  lemma MemberIff(p: seq<byte>)
    requires LooksGzip(p)
    ensures StreamStart(p).At? <==>
            exists h: Header, body: seq<byte> :: h.Valid() && body != [] && p == h.Bytes() + body
  {
    hide Header.Valid, Header.Bytes, GzipStart;
    if StreamStart(p).At? {
      var h := HeaderFound(p);
      var off := GzipStart(p).off;
      assert p == h.Bytes() + p[off..];
    }
    if h: Header, body: seq<byte> :| h.Valid() && body != [] && p == h.Bytes() + body { HeaderSkipped(h, body); }
  }

  /** The input seen from behind each field. */
  lemma HeaderShape<T>(f0: seq<T>, extra: seq<T>, name: seq<T>, comment: seq<T>, crc: seq<T>, body: seq<T>)
    ensures var p := f0 + (extra + (name + (comment + crc))) + body;
            && f0 + extra <= p
            && p == f0 + extra + (name + (comment + (crc + body)))
            && p == f0 + extra + name + (comment + (crc + body))
            && |p| == |f0 + extra + name| + |comment| + |crc| + |body|
  {
    assert f0 + (extra + (name + (comment + crc))) + body == f0 + extra + (name + (comment + (crc + body)));
  }

  lemma PrefixBytes(h: Header, p: seq<byte>)
    requires h.Valid() && h.Prefix() <= p
    ensures p[0] == 0x1F && p[1] == 0x8B && p[3] == h.Flags()
  {
    hide Header.Flags;
  }

  /** XLEN says how long the extra field is. */
  lemma ExtraLength(h: Header, p: seq<byte>, f1: seq<byte>)
    requires h.Valid() && f1 == h.Prefix() + h.Extra() && f1 <= p
    ensures |f1| == if h.extra.Some? then 12 + |h.extra.value| else 10
    ensures h.extra.Some? ==> |p| >= 12 && p[10] as nat + 256 * p[11] as nat == |h.extra.value|
  {
    hide Header.Flags;
    if h.extra.Some? { assert p[10] == f1[10] && p[11] == f1[11]; }
  }

  lemma ValidFacts(h: Header)
    requires h.Valid()
    ensures h.extra.Some? ==> |h.extra.value| < 65536
    ensures h.name.Some? ==> 0 !in h.name.value
    ensures h.comment.Some? ==> 0 !in h.comment.value
    ensures |h.Crc()| == if h.crc.Some? then 2 else 0
  {
  }

  /** Gunzipping a member gives back the data, whatever follows the stream (its CRC and length, further members). */
  lemma GzipRoundTrip(h: Header, bs: seq<EBlock>, trailer: seq<byte>, cap: nat)
    requires h.Valid() && ValidBlocks(bs, []) && |ExpandBlocks(bs, [])| <= cap
    ensures var p := h.Bytes() + (Compress(bs) + trailer);
            var r := Deflate.Inflate(BytesBits(p[|h.Bytes()|..]), [], cap);
            StreamStart(p) == At(|h.Bytes()|) && r.code == 0 && r.out == ExpandBlocks(bs, [])
  {
    hide Deflate.Inflate, BytesBits, ExpandBlocks, EncodeBlocks, ValidBlocks, Header.Bytes, StreamStart, Header.Valid;
    var body := Compress(bs) + trailer;
    CompressStart(bs);
    HeaderSkipped(h, body);
    DropPrefix(h.Bytes(), body);
    RoundTrip(bs, trailer, cap);
  }

  /** A stored block with more to come whose first padding bit is set. */
  ghost predicate ZlibLike(bs: seq<EBlock>)
    requires ValidBlocks(bs, [])
  {
    |bs| > 1 && bs[0].EStored? && bs[0].pad[0]
  }

  /** The first bits of the stream are never 1, 1, 1, and 0, 0, 0, 1 exactly for such a block. */
  lemma CompressStart(bs: seq<EBlock>)
    requires ValidBlocks(bs, [])
    ensures |Compress(bs)| > 0
    ensures var b := Compress(bs)[0]; b % 8 != 7 && (b % 16 == 8 <==> ZlibLike(bs))
  {
    hide BytesBits, BitsBytes, LsbBits, EncodeBlocks, ValidBlocks, LsbVal;
    var bits := Padded(EncodeBlocks(bs, [], 0));
    EncodedStart(bs);
    BitsOfBitsBytes(bits);
    FirstByte(Compress(bs));
  }

  lemma EncodedStart(bs: seq<EBlock>)
    requires ValidBlocks(bs, [])
    ensures var bits := EncodeBlocks(bs, [], 0);
            && |bits| >= 3 && !(bits[0] && bits[1] && bits[2])
            && (!bits[0] && !bits[1] && !bits[2] ==> |bits| >= 4 && (bits[3] <==> ZlibLike(bs)))
            && (ZlibLike(bs) ==> !bits[0] && !bits[1] && !bits[2])
  {
    hide EBlock.Expanded, EBlock.Kind, BytesBits;
    var b := bs[0];
    var e := EncodeBlock(b, |bs| == 1, 0, 0);
    KindBits(b);
    assert e[1..3] == LsbBits(b.Kind(), 2);
    assert e[1] == LsbBits(b.Kind(), 2)[0] && e[2] == LsbBits(b.Kind(), 2)[1];
    if b.EStored? { assert e[3] == b.pad[0]; }
  }

  lemma KindBits(b: EBlock)
    ensures LsbBits(b.Kind(), 2) == if b.EStored? then [false, false] else if b.EFixed? then [true, false]
            else [false, true]
  {
  }

  lemma FirstByte(p: seq<byte>)
    requires |p| > 0
    ensures var bits := BytesBits(p);
            && (p[0] % 8 == 7 <==> bits[0] && bits[1] && bits[2])
            && (p[0] % 16 == 8 <==> !bits[0] && !bits[1] && !bits[2] && bits[3])
  {
    ByteBits(p[0]);
    assert BytesBits(p)[..8] == LsbBits(p[0], 8);
    assert forall k :: 0 <= k < 8 ==> BytesBits(p)[k] == LsbBits(p[0], 8)[k];
  }

  lemma ByteBits(b: byte)
    ensures var l := LsbBits(b, 8);
            && (b % 8 == 7 <==> l[0] && l[1] && l[2])
            && (b % 16 == 8 <==> !l[0] && !l[1] && !l[2] && l[3])
  {
    hide LsbBits;
    FourBits(b, 8);
    assert b / 2 / 2 == b / 4 && b / 4 / 2 == b / 8;
    Nibble(b, b / 2, b / 4, b / 8);
  }

  lemma Nibble(b: nat, b2: nat, b4: nat, b8: nat)
    requires b2 == b / 2 && b4 == b2 / 2 && b8 == b4 / 2
    ensures b % 8 == 7 <==> b % 2 == 1 && b2 % 2 == 1 && b4 % 2 == 1
    ensures b % 16 == 8 <==> b % 2 == 0 && b2 % 2 == 0 && b4 % 2 == 0 && b8 % 2 == 1
  {
    var r0, r1, r2, r3 := b % 2, b2 % 2, b4 % 2, b8 % 2;
    assert b == 8 * b8 + (r0 + 2 * r1 + 4 * r2);
    assert b8 == 2 * (b8 / 2) + r3;
    Remainder(b, 8, b8, r0 + 2 * r1 + 4 * r2);
    Remainder(b, 16, b8 / 2, r0 + 2 * r1 + 4 * r2 + 8 * r3);
  }

  lemma Remainder(n: nat, m: nat, q: nat, r: nat)
    requires m > 0 && n == m * q + r && r < m
    ensures n % m == r
  {
    DivModUnique(n, m, q, r);
  }

  lemma FourBits(b: nat, n: nat)
    requires n >= 4
    ensures var l := LsbBits(b, n);
            && (l[0] <==> b % 2 == 1) && (l[1] <==> b / 2 % 2 == 1) && (l[2] <==> b / 4 % 2 == 1)
            && (l[3] <==> b / 8 % 2 == 1)
  {
    assert b / 2 / 2 == b / 4 && b / 4 / 2 == b / 8;
    assert LsbBits(b, n)[1..] == LsbBits(b / 2, n - 1);
    assert LsbBits(b / 2, n - 1)[1..] == LsbBits(b / 4, n - 2);
    assert LsbBits(b / 4, n - 2)[1..] == LsbBits(b / 8, n - 3);
  }

  /** A zlib header in front of a stream is skipped. */
  lemma ZlibRoundTrip(cmf: byte, flg: byte, bs: seq<EBlock>, trailer: seq<byte>, cap: nat)
    requires cmf % 16 == 8 && (cmf as nat * 256 + flg as nat) % 31 == 0 && ValidBlocks(bs, [])
             && |ExpandBlocks(bs, [])| <= cap
    ensures var p := [cmf, flg] + (Compress(bs) + trailer);
            var r := Deflate.Inflate(BytesBits(p[2..]), [], cap);
            StreamStart(p) == At(2) && r.code == 0 && r.out == ExpandBlocks(bs, [])
  {
    hide Deflate.Inflate, BytesBits, ExpandBlocks, EncodeBlocks, ValidBlocks;
    DropPrefix([cmf, flg], Compress(bs) + trailer);
    RoundTrip(bs, trailer, cap);
  }

  /**
   * A raw stream never looks like gzip, and like zlib only when it starts with a
   * stored block whose padding is not zero; otherwise it is decoded from its start.
   */
  lemma RawRoundTrip(bs: seq<EBlock>, trailer: seq<byte>, cap: nat)
    requires ValidBlocks(bs, []) && |ExpandBlocks(bs, [])| <= cap
    ensures var p := Compress(bs) + trailer;
            var r := Deflate.Inflate(BytesBits(p), [], cap);
            && (StreamStart(p) == At(0) <==> !(ZlibLike(bs) && |p| >= 2 && (p[0] as nat * 256 + p[1] as nat) % 31 == 0))
            && r.code == 0 && r.out == ExpandBlocks(bs, [])
  {
    hide Deflate.Inflate, BytesBits, ExpandBlocks, EncodeBlocks, ValidBlocks, Compress, ZlibLike;
    CompressStart(bs);
    RoundTrip(bs, trailer, cap);
  }

  /**
   * Input with the gzip magic is no raw stream: its first block has the reserved
   * type. So only zlib's header can be confused with raw data.
   */
  lemma GzipMagicIsNotRaw(p: seq<byte>, cap: nat)
    requires LooksGzip(p)
    ensures Deflate.Inflate(BytesBits(p), [], cap).code == -1
  {
    hide Deflate.Stored, Deflate.Codes, Deflate.Dynamic, BytesBits, LsbVal;
    var bits := BytesBits(p);
    FirstByte(p);
    assert bits[1..3] == [true, true];
    BothSet();
  }

  lemma BothSet()
    ensures LsbVal([true, true]) == 3
  {
    assert [true, true][1..] == [true];
    assert LsbVal([true]) == 1;
  }
}
