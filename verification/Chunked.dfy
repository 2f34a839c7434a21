/**
 * The chunked-body decoder of user/http.c against the chunked coding of
 * section 7.1 of RFC 9112.
 */
module Chunked {
  import opened Basics

  const CR := '\r'
  const LF := '\n'

  /** h_hex_value, -1 for anything that is no hexadecimal digit. */
  function HexValue(c: char): (v: int)
    ensures -1 <= v < 16
  {
    if '0' <= c <= '9' then c as int - '0' as int
    else if 'a' <= c <= 'f' then c as int - 'a' as int + 10
    else if 'A' <= c <= 'F' then c as int - 'A' as int + 10
    else -1
  }

  predicate IsHex(c: char)
  {
    HexValue(c) >= 0
  }

  // ---------------------------------------------------------------- the decoder

  /** The number of leading hexadecimal digits. */
  function Digits(s: string): (n: nat)
    ensures n <= |s|
  {
    if s != "" && IsHex(s[0]) then 1 + Digits(s[1..]) else 0
  }

  function HexNumber(s: string): (v: nat)
    requires forall c :: c in s ==> IsHex(c)
  {
    if s == "" then 0 else assert IsHex(s[|s| - 1]); HexNumber(s[..|s| - 1]) * 16 + HexValue(s[|s| - 1])
  }

  lemma {:induction false} DigitsAreHex(s: string)
    ensures forall k :: 0 <= k < Digits(s) ==> IsHex(s[k])
    ensures Digits(s) < |s| ==> !IsHex(s[Digits(s)])
  {
    if s != "" && IsHex(s[0]) { DigitsAreHex(s[1..]); }
  }

  /** What follows the first line feed. */
  function AfterLine(s: string): (r: string)
    ensures |r| <= |s|
  {
    if s == "" then "" else if s[0] == LF then s[1..] else AfterLine(s[1..])
  }

  function SkipEnd(s: string): (r: string)
    ensures |r| <= |s|
  {
    var t := if s != "" && s[0] == CR then s[1..] else s;
    if t != "" && t[0] == LF then t[1..] else t
  }

  datatype Out = Out(data: string, truncated: bool)

  function SizeOf(s: string): nat
  {
    DigitsAreHex(s);
    HexNumber(s[..Digits(s)])
  }

  /** What the decoder writes into room characters. */
  function Decode(s: string, room: nat): (r: Out)
    ensures |r.data| <= room
    decreases |s|
  {
    if s == "" || Digits(s) == 0 || SizeOf(s) == 0 then Out("", false)
    else
      var rest := AfterLine(s[Digits(s)..]);
      var len := Min(SizeOf(s), |rest|);
      var copied := Min(len, room);
      var next := Decode(SkipEnd(rest[len..]), room - copied);
      Out(rest[..copied] + next.data, SizeOf(s) > |rest| || copied < len || next.truncated)
  }

  // ------------------------------------------------------- the decoder in 32 bits

  /**
   * h_decode_chunked between two rounds of its loop. Positions and sizes are 32-bit
   * ints; overflow says that an addition or multiplication has left their range.
   * Stray is an access in front of the body or behind it.
   */
  datatype Machine =
    | Running(pos: nat, written: string, truncated: bool, overflow: bool)
    | Finished(written: string, truncated: bool, overflow: bool)
    | Stray(overflow: bool)

  const START := Running(0, "", false, false)

  /** Where the line of the size at pos ends. */
  function LineEnd(body: string, pos: nat): (line: nat)
    requires pos <= |body|
    ensures pos + Digits(body[pos..]) <= line <= |body|
  {
    |body| - |AfterLine(body[pos + Digits(body[pos..])..])|
  }

  /** One round of the loop: a chunk, or the end. */
  function Round(body: string, outMax: nat, m: Machine): (r: Machine)
    requires |body| <= INT_MAX && (m.Running? ==> m.pos <= |body|)
    ensures r.Running? ==> r.pos <= |body|
  {
    if !m.Running? then m
    else if m.pos == |body| then Finished(m.written, m.truncated, m.overflow)
    else
      var size, line := SizeOf(body[m.pos..]), LineEnd(body, m.pos);
      if Digits(body[m.pos..]) == 0 || Wrap(size) == 0 then
        Finished(m.written, m.truncated, m.overflow || size > INT_MAX)
      else
        var overflow := m.overflow || size > INT_MAX || line + Wrap(size) > INT_MAX;
        var cut := Wrap(line + Wrap(size)) > |body|;
        var len := if cut then |body| - line else Wrap(size);
        var copied := Copied(len, |m.written|, outMax);
        var next := Wrap(line + len);
        if copied > |body| - line || next < 0 then Stray(overflow)
        else
          Running(Ended(body, next), m.written + body[line..line + copied],
                  m.truncated || cut || copied < len, overflow)
  }

  /** How many characters the copying loop writes: as long as there is room for the NUL behind them. */
  function Copied(len: int, have: nat, outMax: nat): nat
  {
    if len <= 0 || have + 1 >= outMax then 0 else Min(len, outMax - 1 - have)
  }

  /** The first n rounds. */
  function RunFor(body: string, outMax: nat, n: nat, m: Machine): (r: Machine)
    requires |body| <= INT_MAX && (m.Running? ==> m.pos <= |body|)
    ensures r.Running? ==> r.pos <= |body|
  {
    if n == 0 then m else RunFor(body, outMax, n - 1, Round(body, outMax, m))
  }

  /** The loop of h_decode_chunked, which need not end, for a number of rounds; without a buffer nothing is done. */
  method DecodeChunked(body: string, outMax: nat, rounds: nat) returns (m: Machine)
    requires |body| <= INT_MAX
    ensures m == if outMax == 0 then Finished("", false, false) else RunFor(body, outMax, rounds, START)
  {
    hide Round;
    if outMax == 0 { return Finished("", false, false); }
    m := START;
    for k := 0 to rounds
      invariant m.Running? ==> m.pos <= |body|
      invariant RunFor(body, outMax, rounds, START) == RunFor(body, outMax, rounds - k, m)
    {
      m := DecodeRound(body, outMax, m);
    }
  }

  method DecodeRound(body: string, outMax: nat, m: Machine) returns (r: Machine)
    requires |body| <= INT_MAX && (m.Running? ==> m.pos <= |body|)
    ensures r == Round(body, outMax, m)
  {
    hide Digits, AfterLine, SizeOf, Ended, Wrap, Copied;
    if !m.Running? { return m; }
    var pos, written, truncated, overflow := m.pos, m.written, m.truncated, m.overflow;
    if pos == |body| { return Finished(written, truncated, overflow); }
    var digits, len, over := ReadSize(body, pos);
    overflow := overflow || over;
    pos := SkipLine(body, pos + digits);
    LineEndIs(body, m.pos, pos);
    if digits == 0 || len == 0 { return Finished(written, truncated, overflow); }
    overflow := overflow || pos + len > INT_MAX;
    if Wrap(pos + len) > |body| {
      truncated := true;
      len := |body| - pos;
    }
    var copied, inside;
    written, copied, inside := CopyChunk(body, pos, len, written, outMax);
    if !inside { return Stray(overflow); }
    if copied < len { truncated := true; }
    WrapSmall(|body|);
    var next := Wrap(pos + len);
    if next < 0 { return Stray(overflow); }
    var skipped := SkipBreak(body, next);
    r := Running(skipped, written, truncated, overflow);
  }

  lemma LineEndIs(body: string, pos: nat, line: nat)
    requires pos <= |body| && line <= |body| && body[line..] == AfterLine(body[pos + Digits(body[pos..])..])
    ensures line == LineEnd(body, pos)
  {
  }

  ghost function Prepend(data: string, truncated: bool, r: Out): Out
  {
    Out(data + r.data, truncated || r.truncated)
  }

  lemma EmptyPrefix(r: Out)
    ensures Prepend("", false, r) == r
  {
  }

  lemma EmptySuffix(data: string, truncated: bool)
    ensures Prepend(data, truncated, Out("", false)) == Out(data, truncated)
  {
  }

  lemma PrependTwice(a: string, p: bool, b: string, q: bool, r: Out)
    ensures Prepend(a, p, Prepend(b, q, r)) == Prepend(a + b, p || q, r)
  {
  }

  /** Where the line break at pos, if there is one, ends. */
  function Ended(body: string, pos: nat): (q: nat)
    requires pos <= |body|
    ensures pos <= q <= |body|
  {
    var p := if pos < |body| && body[pos] == CR then pos + 1 else pos;
    if p < |body| && body[p] == LF then p + 1 else p
  }

  method SkipBreak(body: string, start: nat) returns (pos: nat)
    requires start <= |body|
    ensures pos == Ended(body, start)
  {
    pos := start;
    if pos < |body| && body[pos] == CR { pos := pos + 1; }
    if pos < |body| && body[pos] == LF { pos := pos + 1; }
  }

  /** One round of the decoder in terms of positions. */
  lemma StepAt(body: string, pos: nat, digits: nat, line: nat, room: nat)
    requires pos < |body| && digits == Digits(body[pos..]) && pos + digits <= line <= |body|
             && body[line..] == AfterLine(body[pos + digits..])
    ensures digits == 0 || SizeOf(body[pos..]) == 0 ==> Decode(body[pos..], room) == Out("", false)
    ensures digits > 0 && SizeOf(body[pos..]) > 0 ==>
              var size := SizeOf(body[pos..]);
              var len := Min(size, |body| - line);
              var copied := Min(len, room);
              && line + len <= |body| && copied <= len && len == (if line + size > |body| then |body| - line else size)
              && copied == (if len < room then len else room)
              && Decode(body[pos..], room)
                 == Prepend(body[line..line + copied], line + size > |body| || copied < len,
                            Decode(body[Ended(body, line + len)..], room - copied))
              && Ended(body, line + len) > pos
  {
    hide Decode, Digits, AfterLine, SkipEnd, SizeOf, Ended;
    var s := body[pos..];
    DecodeUnfold(s, room);
    DropTwice(body, pos, digits);
    if digits > 0 && SizeOf(s) > 0 {
      var len := Min(SizeOf(s), |body| - line);
      DropTwice(body, line, len);
      SkipEndAt(body, line + len);
      SliceAt(body, line, Min(len, room));
    }
  }

  lemma DropTwice(s: string, m: nat, n: nat)
    requires m + n <= |s|
    ensures s[m..][n..] == s[m + n..]
  {
  }

  lemma SliceAt(s: string, m: nat, n: nat)
    requires m + n <= |s|
    ensures s[m..][..n] == s[m..m + n]
  {
  }

  lemma DecodeUnfold(s: string, room: nat)
    ensures Digits(s) <= |s| && |AfterLine(s[Digits(s)..])| <= |s|
    ensures s == "" || Digits(s) == 0 || SizeOf(s) == 0 ==> Decode(s, room) == Out("", false)
    ensures !(s == "" || Digits(s) == 0 || SizeOf(s) == 0) ==>
              var rest := AfterLine(s[Digits(s)..]);
              var len := Min(SizeOf(s), |rest|);
              var copied := Min(len, room);
              var next := Decode(SkipEnd(rest[len..]), room - copied);
              Decode(s, room) == Out(rest[..copied] + next.data, SizeOf(s) > |rest| || copied < len || next.truncated)
  {
    hide Digits, SizeOf, AfterLine, SkipEnd;
  }

  lemma SkipEndAt(body: string, pos: nat)
    requires pos <= |body|
    ensures SkipEnd(body[pos..]) == body[Ended(body, pos)..]
  {
  }

  /** The copying loop; inside says that it did not leave the body. */
  method CopyChunk(body: string, pos: nat, len: int, start: string, outMax: nat)
      returns (written: string, copied: nat, inside: bool)
    requires pos <= |body|
    ensures inside <==> Copied(len, |start|, outMax) <= |body| - pos
    ensures inside ==> copied == Copied(len, |start|, outMax) && written == start + body[pos..pos + copied]
  {
    written, copied, inside := start, 0, true;
    while copied < len && |written| + 1 < outMax
      invariant 0 <= copied <= Copied(len, |start|, outMax) && copied <= |body| - pos
      invariant written == start + body[pos..pos + copied]
    {
      if pos + copied == |body| { return written, copied, false; }
      written := written + [body[pos + copied]];
      copied := copied + 1;
    }
  }

  /** The digit loop: the size mod 2^32 as an int, and whether the accumulation left its range. */
  method ReadSize(body: string, pos: nat) returns (digits: nat, size: int, over: bool)
    requires pos <= |body|
    ensures digits == Digits(body[pos..]) && pos + digits <= |body|
    ensures size == Wrap(SizeOf(body[pos..])) && (over <==> SizeOf(body[pos..]) > INT_MAX)
  {
    hide Wrap;
    var s := body[pos..];
    digits, size, over := 0, 0, false;
    ghost var value: nat := 0;
    WrapSmall(0);
    while digits < |s| && s[digits] != CR && s[digits] != LF && s[digits] != ';' && HexValue(s[digits]) >= 0
      invariant 0 <= digits <= |s| && forall k :: 0 <= k < digits ==> IsHex(s[k])
      invariant forall c :: c in s[..digits] ==> IsHex(c)
      invariant value == HexNumber(s[..digits]) && size == Wrap(value) && (over <==> value > INT_MAX)
    {
      assert s[..digits + 1][..digits] == s[..digits];
      if !over { WrapSmall(value); }
      WrapAgain(value, 16, HexValue(s[digits]));
      over := over || size * 16 + HexValue(s[digits]) > INT_MAX;
      size := Wrap(size * 16 + HexValue(s[digits]));
      value := value * 16 + HexValue(s[digits]);
      digits := digits + 1;
    }
    DigitsAt(s, digits);
  }

  lemma WrapSmall(n: int)
    ensures 0 <= n <= INT_MAX ==> Wrap(n) == n
  {
  }

  lemma {:induction false} DigitsAt(s: string, n: nat)
    requires n <= |s| && (forall k :: 0 <= k < n ==> IsHex(s[k])) && (n < |s| ==> !IsHex(s[n]))
    ensures Digits(s) == n
    decreases n
  {
    if n > 0 { DigitsAt(s[1..], n - 1); }
  }

  method SkipLine(body: string, start: nat) returns (pos: nat)
    requires start <= |body|
    ensures start <= pos <= |body| && body[pos..] == AfterLine(body[start..])
  {
    pos := start;
    while pos < |body| && body[pos] != LF
      invariant start <= pos <= |body| && AfterLine(body[pos..]) == AfterLine(body[start..])
    {
      assert body[pos..][1..] == body[pos + 1..];
      pos := pos + 1;
    }
    if pos < |body| {
      assert body[pos..][1..] == body[pos + 1..];
      pos := pos + 1;
    }
  }

  // ------------------------------------------------------------ the wire format

  /**
   * A chunk: its size in hexadecimal, what stands between it and the line feed (an
   * extension and a CR), its data, and a line break, which is CR LF in the standard;
   * a bare line feed is accepted at both places.
   */
  datatype Chunk = Chunk(size: string, extension: string, data: string, end: string)
  {
    ghost predicate Valid()
    {
      && IsSize(size, |data|) && |data| > 0 && IsExtension(extension) && IsBreak(end)
    }

    function Encoded(): string
    {
      Line(size, extension) + (data + end)
    }
  }

  ghost predicate IsSize(size: string, n: nat)
  {
    size != "" && (forall c :: c in size ==> IsHex(c)) && HexNumber(size) == n
  }

  const LOWER := "0123456789abcdef"
  const UPPER := "0123456789ABCDEF"

  /** s is n in base 16, in letters of either case, with leading zeros or without. */
  ghost predicate Printed(s: string, n: nat)
  {
    && s != "" && (s[|s| - 1] == LOWER[n % 16] || s[|s| - 1] == UPPER[n % 16])
    && if |s| == 1 then n < 16 else Printed(s[..|s| - 1], n / 16)
  }

  lemma DigitPrinted(c: char, d: nat)
    requires d < 16
    ensures HexValue(c) == d <==> c == LOWER[d] || c == UPPER[d]
  {
    if d < 4 {} else if d < 8 {} else if d < 12 {} else {}
  }

  /** The sizes are the numbers in base 16. */
  lemma {:induction false} SizePrinted(s: string, n: nat)
    ensures IsSize(s, n) <==> Printed(s, n)
    decreases |s|
  {
    if s != "" {
      var k := |s| - 1;
      DigitPrinted(s[k], n % 16);
      assert s == s[..k] + [s[k]];
      if k > 0 {
        SizePrinted(s[..k], n / 16);
        SizeSplit(s, n);
      } else {
        assert s[..0] == "";
        SizeOne(s, n);
      }
    }
  }

  lemma SizeOne(s: string, n: nat)
    requires |s| == 1
    ensures IsSize(s, n) <==> HexValue(s[0]) == n
  {
    assert s[..0] == "" && s == [s[0]];
    assert HexNumber("") == 0;
  }

  lemma SizeSplit(s: string, n: nat)
    requires |s| > 1
    ensures IsSize(s, n) <==> IsSize(s[..|s| - 1], n / 16) && HexValue(s[|s| - 1]) == n % 16
  {
    var k := |s| - 1;
    assert s == s[..k] + [s[k]];
    assert (forall c :: c in s ==> IsHex(c)) <==> (forall c :: c in s[..k] ==> IsHex(c)) && IsHex(s[k]);
  }

  predicate IsBreak(s: string)
  {
    s == [CR, LF] || s == [LF]
  }

  ghost predicate IsExtension(s: string)
  {
    LF !in s && (s != "" ==> !IsHex(s[0]))
  }

  function Line(size: string, extension: string): string
  {
    size + (extension + [LF])
  }

  function EncodeAll(cs: seq<Chunk>): string
  {
    if cs == [] then "" else cs[0].Encoded() + EncodeAll(cs[1..])
  }

  function Payload(cs: seq<Chunk>): string
  {
    if cs == [] then "" else cs[0].data + Payload(cs[1..])
  }

  ghost predicate AllValid(cs: seq<Chunk>)
  {
    forall k :: 0 <= k < |cs| ==> cs[k].Valid()
  }

  lemma {:induction false} AfterLineIs(s: string, rest: string)
    requires LF !in s
    ensures AfterLine(s + [LF] + rest) == rest
    decreases |s|
  {
    var t := s + [LF] + rest;
    if s != "" {
      assert s[0] in s && t[1..] == s[1..] + [LF] + rest;
      AfterLineIs(s[1..], rest);
    }
  }

  /** Reading a size line and what follows it. */
  lemma LineRead(size: string, extension: string, n: nat, rest: string)
    requires IsSize(size, n) && IsExtension(extension)
    ensures var s := Line(size, extension) + rest;
            s != "" && Digits(s) == |size| && SizeOf(s) == n && AfterLine(s[|size|..]) == rest
  {
    var s := Line(size, extension) + rest;
    forall k | 0 <= k < |size| ensures IsHex(s[k]) { assert s[k] == size[k] && size[k] in size; }
    assert s[|size|] == if extension != "" then extension[0] else LF;
    DigitsAt(s, |size|);
    assert s[..|size|] == size;
    assert s[|size|..] == extension + [LF] + rest;
    AfterLineIs(extension, rest);
  }

  /** One chunk decoded in front of anything. */
  lemma DecodeChunk(c: Chunk, rest: string, room: nat)
    requires c.Valid()
    ensures var n := Min(|c.data|, room);
            var next := Decode(rest, room - n);
            Decode(c.Encoded() + rest, room) == Out(c.data[..n] + next.data, n < |c.data| || next.truncated)
  {
    hide Digits, SizeOf, AfterLine, Line, Decode, SkipEnd, IsSize, IsExtension;
    var s := c.Encoded() + rest;
    var l, body := Line(c.size, c.extension), c.data + (c.end + rest);
    EncodedParts(l, c.data, c.end, rest);
    LineRead(c.size, c.extension, |c.data|, body);
    DecodeUnfold(s, room);
    BreakSkipped(c.end, rest);
    CutData(c.data, c.end + rest, room);
    NotEmpty(c.size, |c.data|);
  }

  lemma NotEmpty(size: string, n: nat)
    requires IsSize(size, n)
    ensures size != ""
  {
  }

  lemma EncodedParts(l: string, data: string, end: string, rest: string)
    ensures l + (data + end) + rest == l + (data + (end + rest))
  {
  }

  lemma BreakSkipped(end: string, rest: string)
    requires IsBreak(end)
    ensures SkipEnd(end + rest) == rest
  {
    assert ([CR, LF] + rest)[1..] == [LF] + rest && ([LF] + rest)[1..] == rest;
  }

  lemma CutData(data: string, tail: string, room: nat)
    ensures (data + tail)[..Min(|data|, room)] == data[..Min(|data|, room)] && (data + tail)[|data|..] == tail
  {
  }

  /** Without regard to integer width, any body decodes to its payload, cut to the room there is. */
  lemma {:induction false} DecodeEncoded(cs: seq<Chunk>, zero: string, extension: string, trailer: string, room: nat)
    requires AllValid(cs) && IsSize(zero, 0) && IsExtension(extension)
    ensures Decode(EncodeAll(cs) + (Line(zero, extension) + trailer), room)
         == Out(Payload(cs)[..Min(|Payload(cs)|, room)], |Payload(cs)| > room)
    decreases |cs|
  {
    hide Digits, SizeOf, AfterLine, Line, IsSize, IsExtension, Decode, Chunk.Encoded, Chunk.Valid;
    var end := Line(zero, extension) + trailer;
    if cs == [] {
      LineRead(zero, extension, 0, trailer);
      DecodeUnfold(end, room);
      assert EncodeAll(cs) + end == end;
    } else {
      var c, n := cs[0], Min(|cs[0].data|, room);
      assert EncodeAll(cs) + end == c.Encoded() + (EncodeAll(cs[1..]) + end);
      assert cs[0].Valid();
      DecodeChunk(c, EncodeAll(cs[1..]) + end, room);
      DecodeEncoded(cs[1..], zero, extension, trailer, room - n);
      CutConcat(c.data, Payload(cs[1..]), room);
    }
  }

  lemma CutConcat(a: string, b: string, room: nat)
    ensures var n := Min(|a|, room);
            (a + b)[..Min(|a + b|, room)] == a[..n] + b[..Min(|b|, room - n)]
  {
  }

  /** Without regard to integer width, any part of a body decodes to a prefix of the payload. */
  lemma {:induction false} DecodeCut(cs: seq<Chunk>, zero: string, extension: string, trailer: string, room: nat,
      cut: nat)
    requires AllValid(cs) && IsSize(zero, 0) && IsExtension(extension)
    requires cut <= |EncodeAll(cs) + (Line(zero, extension) + trailer)|
    ensures Decode((EncodeAll(cs) + (Line(zero, extension) + trailer))[..cut], room).data <= Payload(cs)
    decreases |cs|
  {
    hide Digits, SizeOf, AfterLine, Line, IsSize, IsExtension, Decode, Chunk.Encoded, Chunk.Valid, EncodeAll, Payload;
    var end := Line(zero, extension) + trailer;
    FirstChunk(cs, end);
    if cs == [] {
      CutEnd(zero, extension, trailer, room, cut);
    } else {
      var c := cs[0];
      var tail := EncodeAll(cs[1..]) + end;
      assert cs[0].Valid();
      CutIn(c.Encoded(), tail, cut);
      if cut < |c.Encoded()| {
        CutChunk(c, room, cut);
        LongerPrefix(Decode(c.Encoded()[..cut], room).data, c.data, Payload(cs[1..]));
      } else {
        var rest := tail[..cut - |c.Encoded()|];
        DecodeChunk(c, rest, room);
        var n := Min(|c.data|, room);
        DecodeCut(cs[1..], zero, extension, trailer, room - n, cut - |c.Encoded()|);
        PrefixConcat(c.data, Payload(cs[1..]), Decode(rest, room - n).data, n, room);
      }
    }
  }

  lemma FirstChunk(cs: seq<Chunk>, end: string)
    ensures cs == [] ==> EncodeAll(cs) + end == end && Payload(cs) == ""
    ensures cs != [] ==>
            EncodeAll(cs) + end == cs[0].Encoded() + (EncodeAll(cs[1..]) + end)
            && Payload(cs) == cs[0].data + Payload(cs[1..])
  {
    hide Chunk.Encoded;
  }

  lemma CutIn(a: string, b: string, cut: nat)
    requires cut <= |a + b|
    ensures (a + b)[..cut] == if cut < |a| then a[..cut] else a + b[..cut - |a|]
  {
  }

  lemma LongerPrefix(d: string, a: string, b: string)
    requires d <= a
    ensures d <= a + b
  {
  }

  lemma PrefixConcat(a: string, b: string, d: string, n: nat, room: nat)
    requires n == Min(|a|, room) && d <= b && |d| <= room - n
    ensures a[..n] + d <= a + b
  {
    if n < |a| { assert d == ""; }
  }

  /** A size line that is not complete yields nothing; nor does the last one. */
  lemma CutEnd(zero: string, extension: string, trailer: string, room: nat, cut: nat)
    requires IsSize(zero, 0) && IsExtension(extension) && cut <= |Line(zero, extension) + trailer|
    ensures Decode((Line(zero, extension) + trailer)[..cut], room).data == ""
  {
    hide Digits, SizeOf, AfterLine, IsSize, IsExtension, Decode;
    var s := Line(zero, extension) + trailer;
    if cut < |Line(zero, extension)| {
      assert s[..cut] == Line(zero, extension)[..cut];
      CutLine(zero, extension, 0, room, cut);
    } else {
      var rest := trailer[..cut - |Line(zero, extension)|];
      assert s[..cut] == Line(zero, extension) + rest;
      LineRead(zero, extension, 0, rest);
      DecodeUnfold(s[..cut], room);
    }
  }

  lemma {:induction false} NoLine(s: string)
    requires LF !in s
    ensures AfterLine(s) == ""
  {
    if s != "" { assert s[0] in s; NoLine(s[1..]); }
  }

  lemma CutLine(size: string, extension: string, n: nat, room: nat, cut: nat)
    requires IsSize(size, n) && IsExtension(extension) && cut < |Line(size, extension)|
    ensures Decode(Line(size, extension)[..cut], room).data == ""
  {
    hide Decode, Digits, SizeOf, HexValue, HexNumber, AfterLine;
    var s := Line(size, extension)[..cut];
    HexIsNoBreak(size);
    assert s == (size + extension)[..cut];
    assert LF !in s;
    DecodeUnfold(s, room);
    NoLine(s[Digits(s)..]);
    DecodeUnfold("", room);
    if s != "" && Digits(s) != 0 && SizeOf(s) != 0 {
      assert SkipEnd("") == "";
      assert ""[..0] == "";
      EmptyDecodes(room);
    }
  }

  lemma EmptyDecodes(room: nat)
    ensures Decode(SkipEnd(""[0..]), room - 0) == Out("", false)
  {
  }

  lemma HexIsNoBreak(size: string)
    requires forall c :: c in size ==> IsHex(c)
    ensures LF !in size
  {
  }

  lemma CutChunk(c: Chunk, room: nat, cut: nat)
    requires c.Valid() && cut < |c.Encoded()|
    ensures Decode(c.Encoded()[..cut], room).data <= c.data
  {
    hide Decode, Digits, SizeOf, AfterLine, IsSize, IsExtension, Line, SkipEnd;
    var l := Line(c.size, c.extension);
    if cut < |l| {
      assert c.Encoded()[..cut] == l[..cut];
      CutLine(c.size, c.extension, |c.data|, room, cut);
    } else {
      var rest := (c.data + c.end)[..cut - |l|];
      assert c.Encoded()[..cut] == l + rest;
      LineRead(c.size, c.extension, |c.data|, rest);
      DecodeUnfold(l + rest, room);
      var len := Min(|c.data|, |rest|);
      CutTail(c.data, c.end, cut - |l|);
      ShortTail(rest[len..]);
      EndDecodes(room - Min(len, room));
    }
  }

  /** What is left of a cut chunk behind its data. */
  lemma CutTail(data: string, end: string, cut: nat)
    requires IsBreak(end) && cut < |data| + |end|
    ensures var rest := (data + end)[..cut];
            var len := Min(|data|, |rest|);
            rest[..len] == data[..len] && (rest[len..] == "" || rest[len..] == [CR])
  {
    if cut > |data| { assert (data + end)[..cut] == data + [CR]; }
  }

  lemma ShortTail(tail: string)
    requires tail == "" || tail == [CR]
    ensures SkipEnd(tail) == ""
  {
  }

  lemma EndDecodes(room: nat)
    ensures Decode("", room) == Out("", false)
  {
  }

  // ------------------------------------------------------ when 32 bits are enough

  /**
   * Every size line that is reached announces a chunk that ends before position
   * 2^31; s is what is left of a body of end characters.
   */
  predicate Fits(s: string, end: nat)
    requires |s| <= end
    decreases |s|
  {
    s == "" || Digits(s) == 0 || SizeOf(s) == 0
    || var rest := AfterLine(s[Digits(s)..]);
       end - |rest| + SizeOf(s) <= INT_MAX && Fits(SkipEnd(rest[Min(SizeOf(s), |rest|)..]), end)
  }

  /** What the decoder without integer width makes of the rest, added to what is there. */
  ghost function Outcome(body: string, outMax: nat, m: Machine): Out
    requires m.Running? && m.pos <= |body| && |m.written| < outMax
  {
    Prepend(m.written, m.truncated, Decode(body[m.pos..], outMax - 1 - |m.written|))
  }

  /** The machine is at a size line and has kept within 32 bits. */
  ghost predicate Sound(body: string, outMax: nat, m: Machine)
  {
    |body| <= INT_MAX && m.Running? && m.pos <= |body| && |m.written| < outMax && !m.overflow
  }

  /** A round whose size line fits, without wraps. */
  lemma FittingRound(body: string, outMax: nat, m: Machine)
    requires Sound(body, outMax, m) && m.pos < |body|
    requires LineEnd(body, m.pos) + SizeOf(body[m.pos..]) <= INT_MAX
    ensures var size, line := SizeOf(body[m.pos..]), LineEnd(body, m.pos);
            var len := Min(size, |body| - line);
            var copied := Min(len, outMax - 1 - |m.written|);
            Round(body, outMax, m) ==
            if Digits(body[m.pos..]) == 0 || size == 0 then Finished(m.written, m.truncated, false)
            else Running(Ended(body, line + len), m.written + body[line..line + copied],
                         m.truncated || line + size > |body| || copied < len, false)
  {
    hide Digits, AfterLine, SizeOf, Ended, Wrap, LineEnd;
    var size, line := SizeOf(body[m.pos..]), LineEnd(body, m.pos);
    WrapSmall(size);
    WrapSmall(line + size);
    WrapSmall(|body|);
  }

  /** Such a round does what the decoder without integer width does. */
  lemma SoundRound(body: string, outMax: nat, m: Machine)
    requires Sound(body, outMax, m)
    requires m.pos < |body| ==> LineEnd(body, m.pos) + SizeOf(body[m.pos..]) <= INT_MAX
    ensures var r := Round(body, outMax, m);
            && (r.Finished? ==> !r.overflow && Outcome(body, outMax, m) == Out(r.written, r.truncated))
            && (r.Finished? <==> m.pos == |body| || Digits(body[m.pos..]) == 0 || SizeOf(body[m.pos..]) == 0)
            && (!r.Finished? ==>
                Sound(body, outMax, r) && r.pos > m.pos && Outcome(body, outMax, r) == Outcome(body, outMax, m))
            && (!r.Finished? ==> Fits(body[m.pos..], |body|) == Fits(body[r.pos..], |body|))
  {
    var room := outMax - 1 - |m.written|;
    if m.pos == |body| {
      assert body[m.pos..] == "";
      EndDecodes(room);
      EmptySuffix(m.written, m.truncated);
    } else {
      SoundChunk(body, outMax, m, Round(body, outMax, m));
      FitsChunk(body, outMax, m, Round(body, outMax, m));
    }
  }

  lemma SoundChunk(body: string, outMax: nat, m: Machine, r: Machine)
    requires Sound(body, outMax, m) && m.pos < |body| && r == Round(body, outMax, m)
    requires LineEnd(body, m.pos) + SizeOf(body[m.pos..]) <= INT_MAX
    ensures if Digits(body[m.pos..]) == 0 || SizeOf(body[m.pos..]) == 0
            then r.Finished? && !r.overflow && Outcome(body, outMax, m) == Out(r.written, r.truncated)
            else Sound(body, outMax, r) && r.pos > m.pos && Outcome(body, outMax, r) == Outcome(body, outMax, m)
  {
    hide Decode, Digits, AfterLine, SkipEnd, SizeOf, Ended, Prepend, Round, LineEnd, Outcome;
    var room := outMax - 1 - |m.written|;
    var s, line := body[m.pos..], LineEnd(body, m.pos);
    var size := SizeOf(s);
    LineRest(body, m.pos);
    FittingRound(body, outMax, m);
    StepAt(body, m.pos, Digits(s), line, room);
    if Digits(s) == 0 || size == 0 {
      LastOutcome(body, outMax, m);
    } else {
      NextOutcome(body, outMax, m, line, Min(size, |body| - line), size, r);
    }
  }

  lemma FitsChunk(body: string, outMax: nat, m: Machine, r: Machine)
    requires Sound(body, outMax, m) && m.pos < |body| && r == Round(body, outMax, m)
    requires LineEnd(body, m.pos) + SizeOf(body[m.pos..]) <= INT_MAX
    ensures Digits(body[m.pos..]) > 0 && SizeOf(body[m.pos..]) > 0 ==>
              r.Running? && Fits(body[m.pos..], |body|) == Fits(body[r.pos..], |body|)
  {
    hide Digits, AfterLine, SkipEnd, SizeOf, Ended, Fits, Round, LineEnd;
    FittingRound(body, outMax, m);
    if Digits(body[m.pos..]) > 0 && SizeOf(body[m.pos..]) > 0 { FitsAt(body, m.pos, LineEnd(body, m.pos), r.pos); }
  }

  lemma LastOutcome(body: string, outMax: nat, m: Machine)
    requires Sound(body, outMax, m) && Decode(body[m.pos..], outMax - 1 - |m.written|) == Out("", false)
    ensures Outcome(body, outMax, m) == Out(m.written, m.truncated)
  {
    hide Decode;
    EmptySuffix(m.written, m.truncated);
  }

  lemma NextOutcome(body: string, outMax: nat, m: Machine, line: nat, len: nat, size: nat, r: Machine)
    requires Sound(body, outMax, m) && line + len <= |body|
    requires var room := outMax - 1 - |m.written|;
             var copied := Min(len, room);
             Decode(body[m.pos..], room)
             == Prepend(body[line..line + copied], line + size > |body| || copied < len,
                        Decode(body[Ended(body, line + len)..], room - copied))
    requires var copied := Min(len, outMax - 1 - |m.written|);
             r == Running(Ended(body, line + len), m.written + body[line..line + copied],
                          m.truncated || line + size > |body| || copied < len, false)
    ensures Sound(body, outMax, r) && Outcome(body, outMax, r) == Outcome(body, outMax, m)
  {
    hide Decode, Ended, Prepend;
    var room := outMax - 1 - |m.written|;
    var copied := Min(len, room);
    PrependTwice(m.written, m.truncated, body[line..line + copied], line + size > |body| || copied < len,
                 Decode(body[Ended(body, line + len)..], room - copied));
  }

  lemma LineRest(body: string, pos: nat)
    requires pos <= |body|
    ensures body[LineEnd(body, pos)..] == AfterLine(body[pos + Digits(body[pos..])..])
  {
    hide Digits, AfterLine;
    var at := pos + Digits(body[pos..]);
    var s := body[at..];
    AfterLineIsSuffix(s);
    DropTwice(body, at, |s| - |AfterLine(s)|);
  }

  lemma {:induction false} AfterLineIsSuffix(s: string)
    ensures AfterLine(s) == s[|s| - |AfterLine(s)|..]
  {
    if s != "" && s[0] != LF { AfterLineIsSuffix(s[1..]); }
  }

  lemma FitsAt(body: string, pos: nat, line: nat, next: nat)
    requires pos < |body| && line == LineEnd(body, pos) && Digits(body[pos..]) > 0 && SizeOf(body[pos..]) > 0
    requires line + SizeOf(body[pos..]) <= INT_MAX
    requires next == Ended(body, line + Min(SizeOf(body[pos..]), |body| - line))
    ensures Fits(body[pos..], |body|) == Fits(body[next..], |body|)
  {
    hide Digits, AfterLine, SkipEnd, SizeOf, Ended, Fits, LineEnd;
    var rest, size := body[line..], SizeOf(body[pos..]);
    var len := Min(size, |body| - line);
    RestAt(body, pos, line);
    SkipBehind(body, line, len);
    FitsNext(body[pos..], rest, body[next..], size, |body|);
  }

  lemma SkipBehind(body: string, line: nat, len: nat)
    requires line + len <= |body|
    ensures SkipEnd(body[line..][len..]) == body[Ended(body, line + len)..]
  {
    hide SkipEnd, Ended;
    DropTwice(body, line, len);
    SkipEndAt(body, line + len);
  }

  lemma FitsNext(s: string, rest: string, next: string, size: nat, end: nat)
    requires s != "" && |s| <= end && Digits(s) > 0 && size == SizeOf(s) > 0 && AfterLine(s[Digits(s)..]) == rest
    requires SkipEnd(rest[Min(size, |rest|)..]) == next && |next| <= end && end - |rest| + size <= INT_MAX
    ensures Fits(s, end) == Fits(next, end)
  {
    hide Digits, AfterLine, SkipEnd, SizeOf;
  }

  lemma RestAt(body: string, pos: nat, line: nat)
    requires pos <= |body| && line == LineEnd(body, pos)
    ensures AfterLine(body[pos..][Digits(body[pos..])..]) == body[line..]
  {
    hide Digits, AfterLine;
    LineRest(body, pos);
    DropTwice(body, pos, Digits(body[pos..]));
  }

  /** A body that fits is decoded within 32 bits, and as without integer width. */
  lemma {:induction false} RunFits(body: string, outMax: nat, n: nat, m: Machine)
    requires Sound(body, outMax, m) && Fits(body[m.pos..], |body|)
    ensures var r := RunFor(body, outMax, n, m);
            && !r.overflow && !r.Stray?
            && (r.Running? ==> r.pos >= m.pos + n)
            && (r.Finished? ==> Outcome(body, outMax, m) == Out(r.written, r.truncated))
    decreases n
  {
    hide Round, Fits, Outcome;
    if n > 0 {
      FitsLine(body, m.pos);
      SoundRound(body, outMax, m);
      var r := Round(body, outMax, m);
      if r.Running? { RunFits(body, outMax, n - 1, r); } else { FinishedStays(body, outMax, n - 1, r); }
    }
  }

  /** The first size line of a body that fits, unless it ends the body anyway. */
  lemma FitsLine(body: string, pos: nat)
    requires pos <= |body| <= INT_MAX && Fits(body[pos..], |body|)
    ensures pos < |body| ==> LineEnd(body, pos) + SizeOf(body[pos..]) <= INT_MAX
  {
    hide AfterLine, SkipEnd;
    if pos < |body| {
      var s := body[pos..];
      assert s[Digits(s)..] == body[pos + Digits(s)..];
      if Digits(s) == 0 { NoDigitsNoSize(s); }
    }
  }

  lemma NoDigitsNoSize(s: string)
    requires Digits(s) == 0
    ensures SizeOf(s) == 0
  {
    assert s[..0] == "";
  }

  lemma {:induction false} FinishedStays(body: string, outMax: nat, n: nat, m: Machine)
    requires |body| <= INT_MAX && !m.Running?
    ensures RunFor(body, outMax, n, m) == m
  {
    if n > 0 { FinishedStays(body, outMax, n - 1, m); }
  }

  /** A body that does not fit reaches an overflow. */
  lemma {:induction false} RunOverflows(body: string, outMax: nat, m: Machine) returns (n: nat)
    requires Sound(body, outMax, m) && !Fits(body[m.pos..], |body|)
    ensures RunFor(body, outMax, n, m).overflow
    decreases |body| - m.pos
  {
    hide Fits, Digits, AfterLine, SizeOf, SkipEnd, Ended, Outcome;
    var s, line := body[m.pos..], LineEnd(body, m.pos);
    UnfitLine(s, |body|);
    if line + SizeOf(s) <= INT_MAX {
      SoundRound(body, outMax, m);
      var rest := RunOverflows(body, outMax, Round(body, outMax, m));
      n := rest + 1;
    } else {
      n := 1;
      OverflowingRound(body, outMax, m);
      assert RunFor(body, outMax, 0, Round(body, outMax, m)) == Round(body, outMax, m);
    }
  }

  lemma UnfitLine(s: string, end: nat)
    requires |s| <= end && !Fits(s, end)
    ensures s != "" && Digits(s) > 0 && SizeOf(s) > 0
  {
  }

  lemma OverflowingRound(body: string, outMax: nat, m: Machine)
    requires Sound(body, outMax, m) && m.pos < |body| && LineEnd(body, m.pos) + SizeOf(body[m.pos..]) > INT_MAX
    requires Digits(body[m.pos..]) > 0
    ensures Round(body, outMax, m).overflow
  {
    hide Digits, AfterLine, SizeOf, SkipEnd, Ended, Wrap, Copied;
    var size := SizeOf(body[m.pos..]);
    if size <= INT_MAX { WrapSmall(size); }
  }

  /** No run leaves 32 bits exactly for the bodies that fit. */
  lemma OverflowFreeIff(body: string, outMax: nat)
    requires |body| <= INT_MAX && outMax > 0
    ensures (forall n :: !RunFor(body, outMax, n, START).overflow) <==> Fits(body, |body|)
  {
    hide Fits, RunFor;
    assert body[0..] == body;
    if Fits(body, |body|) {
      forall n ensures !RunFor(body, outMax, n, START).overflow { RunFits(body, outMax, n, START); }
    } else {
      var n := RunOverflows(body, outMax, START);
    }
  }

  /** And for these the loop ends, with the output and the flag of the decoder without integer width. */
  lemma FitsDecodes(body: string, outMax: nat, n: nat)
    requires |body| <= INT_MAX && outMax > 0 && Fits(body, |body|) && n > |body|
    ensures var d := Decode(body, outMax - 1);
            RunFor(body, outMax, n, START) == Finished(d.data, d.truncated, false)
  {
    hide Fits, RunFor, Decode;
    assert body[0..] == body;
    RunFits(body, outMax, n, START);
    EmptyPrefix(Decode(body, outMax - 1));
  }

  // ------------------------------------------------------------- whole and cut bodies

  /** A smaller part of the digits is a smaller number. */
  lemma {:induction false} HexPrefix(s: string, n: nat)
    requires n <= |s| && forall c :: c in s ==> IsHex(c)
    ensures (forall c :: c in s[..n] ==> IsHex(c)) && HexNumber(s[..n]) <= HexNumber(s)
    decreases |s|
  {
    forall c | c in s[..n] ensures IsHex(c) {}
    if n == |s| {
      assert s[..n] == s;
    } else {
      var k := |s| - 1;
      forall c | c in s[..k] ensures IsHex(c) {}
      HexPrefix(s[..k], n);
      assert s[..k][..n] == s[..n];
      assert IsHex(s[k]);
    }
  }

  /** A size line that has not arrived as a whole fits if the chunk it starts would. */
  lemma CutLineFits(size: string, extension: string, n: nat, cut: nat, end: nat)
    requires IsSize(size, n) && IsExtension(extension) && cut < |Line(size, extension)| && cut <= end
    requires end + n <= INT_MAX
    ensures Fits(Line(size, extension)[..cut], end)
  {
    hide AfterLine, HexValue, HexNumber;
    var s := Line(size, extension)[..cut];
    HexIsNoBreak(size);
    assert s == (size + extension)[..cut];
    assert LF !in s;
    NoLine(s[Digits(s)..]);
    LineDigits(size, extension, n, cut);
    assert ""[0..] == "";
    assert Fits("", end);
  }

  lemma LineDigits(size: string, extension: string, n: nat, cut: nat)
    requires IsSize(size, n) && IsExtension(extension) && cut < |Line(size, extension)|
    ensures SizeOf(Line(size, extension)[..cut]) <= n
  {
    hide HexValue, HexNumber;
    var s := Line(size, extension)[..cut];
    var k := Min(cut, |size|);
    forall i | 0 <= i < k ensures IsHex(s[i]) { assert s[i] == size[i] && size[i] in size; }
    if cut > |size| { assert s[|size|] == extension[0]; }
    NoHexBreaks();
    DigitsAt(s, k);
    assert s[..k] == size[..k];
    HexPrefix(size, k);
  }

  lemma NoHexBreaks()
    ensures !IsHex(CR) && !IsHex(LF)
  {
  }

  /** A body that has fewer than 2^31 characters as a whole fits however it is cut. */
  lemma {:induction false} PartFits(cs: seq<Chunk>, zero: string, extension: string, trailer: string, cut: nat,
      end: nat)
    requires AllValid(cs) && IsSize(zero, 0) && IsExtension(extension)
    requires cut <= |EncodeAll(cs) + (Line(zero, extension) + trailer)| && cut <= end
    requires end - cut + |EncodeAll(cs) + (Line(zero, extension) + trailer)| <= INT_MAX
    ensures Fits((EncodeAll(cs) + (Line(zero, extension) + trailer))[..cut], end)
    decreases |cs|
  {
    hide Digits, SizeOf, AfterLine, Line, IsSize, IsExtension, Fits, Chunk.Encoded, Chunk.Valid;
    var tail := Line(zero, extension) + trailer;
    if cs == [] {
      assert EncodeAll(cs) + tail == tail;
      LastFits(zero, extension, trailer, cut, end);
    } else {
      var c := cs[0];
      var more := EncodeAll(cs[1..]) + tail;
      assert EncodeAll(cs) + tail == c.Encoded() + more;
      assert cs[0].Valid();
      if cut < |c.Encoded()| {
        assert (c.Encoded() + more)[..cut] == c.Encoded()[..cut];
        ChunkPartFits(c, cut, end);
      } else {
        var rest := more[..cut - |c.Encoded()|];
        assert (c.Encoded() + more)[..cut] == c.Encoded() + rest;
        PartFits(cs[1..], zero, extension, trailer, cut - |c.Encoded()|, end);
        ChunkFits(c, rest, end);
      }
    }
  }

  lemma LastFits(zero: string, extension: string, trailer: string, cut: nat, end: nat)
    requires IsSize(zero, 0) && IsExtension(extension) && cut <= |Line(zero, extension) + trailer|
             && cut <= end <= INT_MAX
    ensures Fits((Line(zero, extension) + trailer)[..cut], end)
  {
    hide Digits, SizeOf, AfterLine, IsSize, IsExtension, Line;
    var s := Line(zero, extension) + trailer;
    if cut < |Line(zero, extension)| {
      assert s[..cut] == Line(zero, extension)[..cut];
      CutLineFits(zero, extension, 0, cut, end);
    } else {
      var rest := trailer[..cut - |Line(zero, extension)|];
      assert s[..cut] == Line(zero, extension) + rest;
      LineRead(zero, extension, 0, rest);
    }
  }

  lemma ChunkFits(c: Chunk, rest: string, end: nat)
    requires c.Valid() && |c.Encoded() + rest| <= end <= INT_MAX && Fits(rest, end)
    ensures Fits(c.Encoded() + rest, end)
  {
    hide Digits, SizeOf, AfterLine, Line, SkipEnd, IsSize, IsExtension;
    var l, body := Line(c.size, c.extension), c.data + (c.end + rest);
    EncodedParts(l, c.data, c.end, rest);
    LineRead(c.size, c.extension, |c.data|, body);
    BreakSkipped(c.end, rest);
    DropData(c.data, c.end + rest);
  }

  lemma DropData(data: string, tail: string)
    ensures (data + tail)[|data|..] == tail
  {
  }

  lemma ChunkPartFits(c: Chunk, cut: nat, end: nat)
    requires c.Valid() && cut < |c.Encoded()| && cut <= end && end - cut + |c.Encoded()| <= INT_MAX
    ensures Fits(c.Encoded()[..cut], end)
  {
    hide Digits, SizeOf, AfterLine, IsSize, IsExtension, Line, SkipEnd;
    var l := Line(c.size, c.extension);
    if cut < |l| {
      assert c.Encoded()[..cut] == l[..cut];
      CutLineFits(c.size, c.extension, |c.data|, cut, end);
    } else {
      var rest := (c.data + c.end)[..cut - |l|];
      assert c.Encoded()[..cut] == l + rest;
      LineRead(c.size, c.extension, |c.data|, rest);
      CutTail(c.data, c.end, cut - |l|);
      ShortTail(rest[Min(|c.data|, |rest|)..]);
    }
  }

  /**
   * The loop decodes any chunked body of fewer than 2^31 characters to its payload,
   * cut to the buffer; truncation is reported exactly when something was cut.
   */
  lemma RoundTrip(cs: seq<Chunk>, zero: string, extension: string, trailer: string, outMax: nat, n: nat)
    requires AllValid(cs) && IsSize(zero, 0) && IsExtension(extension) && outMax > 0
    requires |EncodeAll(cs) + (Line(zero, extension) + trailer)| <= INT_MAX
    requires n > |EncodeAll(cs) + (Line(zero, extension) + trailer)|
    ensures RunFor(EncodeAll(cs) + (Line(zero, extension) + trailer), outMax, n, START)
         == Finished(Payload(cs)[..Min(|Payload(cs)|, outMax - 1)], |Payload(cs)| >= outMax, false)
  {
    hide Fits, RunFor, Decode, Line, EncodeAll, Payload, AllValid, IsSize, IsExtension;
    var body := EncodeAll(cs) + (Line(zero, extension) + trailer);
    assert body[..|body|] == body;
    PartFits(cs, zero, extension, trailer, |body|, |body|);
    FitsDecodes(body, outMax, n);
    DecodeEncoded(cs, zero, extension, trailer, outMax - 1);
  }

  /**
   * A body cut anywhere never gives wrong bytes as long as the part that has arrived
   * fits, which it does whenever the whole body has fewer than 2^31 characters.
   */
  lemma CutBodyIsPrefix(cs: seq<Chunk>, zero: string, extension: string, trailer: string, outMax: nat, cut: nat, n: nat)
    requires AllValid(cs) && IsSize(zero, 0) && IsExtension(extension) && outMax > 0
    requires cut <= |EncodeAll(cs) + (Line(zero, extension) + trailer)| && cut <= INT_MAX && n > cut
    ensures var whole := EncodeAll(cs) + (Line(zero, extension) + trailer);
            && (|whole| <= INT_MAX ==> Fits(whole[..cut], cut))
            && (Fits(whole[..cut], cut) ==>
                  var r := RunFor(whole[..cut], outMax, n, START); r.Finished? && r.written <= Payload(cs))
  {
    hide Fits, RunFor, Decode, Line, EncodeAll, Payload, AllValid, IsSize, IsExtension;
    var whole := EncodeAll(cs) + (Line(zero, extension) + trailer);
    if |whole| <= INT_MAX { PartFits(cs, zero, extension, trailer, cut, cut); }
    if Fits(whole[..cut], cut) {
      FitsDecodes(whole[..cut], outMax, n);
      DecodeCut(cs, zero, extension, trailer, outMax - 1, cut);
    }
  }

  // ----------------------------------------------------- two bodies that do not fit

  /** A size that wraps to -16, in 18 characters. */
  const BACKWARD := "00000000fffffff0\r\n"

  /** The first two bytes of a chunk that would end behind position 2^31. */
  const BEHIND := "7ffffffc\r\nab"

  lemma HexSnoc(s: string, c: char, t: string)
    requires t == s + [c] && (forall d :: d in s ==> IsHex(d)) && IsHex(c)
    ensures (forall d :: d in t ==> IsHex(d)) && HexNumber(t) == HexNumber(s) * 16 + HexValue(c)
  {
    assert t[..|s|] == s;
  }

  lemma {:induction false} HexZero(s: string, t: string)
    requires t == "0" + s && forall d :: d in s ==> IsHex(d)
    ensures (forall d :: d in t ==> IsHex(d)) && HexNumber(t) == HexNumber(s)
    decreases |s|
  {
    if s == "" {
      HexSnoc("", '0', t);
    } else {
      var k := |s| - 1;
      assert IsHex(s[k]);
      HexZero(s[..k], "0" + s[..k]);
      HexSnoc("0" + s[..k], s[k], t);
    }
  }

  lemma BackwardDigits()
    ensures IsSize("fffffff0", 0xFFFF_FFF0)
  {
    hide HexNumber;
    HexNone();
    HexSnoc("", 'f', "f");
    HexSnoc("f", 'f', "ff");
    HexSnoc("ff", 'f', "fff");
    HexSnoc("fff", 'f', "ffff");
    HexSnoc("ffff", 'f', "fffff");
    HexSnoc("fffff", 'f', "ffffff");
    HexSnoc("ffffff", 'f', "fffffff");
    HexSnoc("fffffff", '0', "fffffff0");
  }

  lemma BackwardSize()
    ensures IsSize("000000fffffff0", 0xFFFF_FFF0) && IsSize("00000000fffffff0", 0xFFFF_FFF0)
  {
    hide HexNumber, IsHex;
    BackwardDigits();
    HexZero("fffffff0", "0fffffff0");
    HexZero("0fffffff0", "00fffffff0");
    HexZero("00fffffff0", "000fffffff0");
    HexZero("000fffffff0", "0000fffffff0");
    HexZero("0000fffffff0", "00000fffffff0");
    HexZero("00000fffffff0", "000000fffffff0");
    HexZero("000000fffffff0", "0000000fffffff0");
    HexZero("0000000fffffff0", "00000000fffffff0");
  }

  lemma BehindSize()
    ensures IsSize("7ffffffc", 0x7FFF_FFFC)
  {
    hide HexNumber;
    HexNone();
    HexSnoc("", '7', "7");
    HexSnoc("7", 'f', "7f");
    HexSnoc("7f", 'f', "7ff");
    HexSnoc("7ff", 'f', "7fff");
    HexSnoc("7fff", 'f', "7ffff");
    HexSnoc("7ffff", 'f', "7fffff");
    HexSnoc("7fffff", 'f', "7ffffff");
    HexSnoc("7ffffff", 'c', "7ffffffc");
  }

  lemma HexNone()
    ensures HexNumber("") == 0
  {
  }

  /** A size line at pos. */
  lemma LineAt(body: string, pos: nat, size: string, n: nat, rest: string)
    requires pos <= |body| && body[pos..] == Line(size, [CR]) + rest && IsSize(size, n)
    ensures Digits(body[pos..]) == |size| && SizeOf(body[pos..]) == n && LineEnd(body, pos) == |body| - |rest|
  {
    hide Digits, SizeOf, AfterLine, IsSize, Line;
    NoHexBreaks();
    LineRead(size, [CR], n, rest);
    assert body[pos..][|size|..] == body[pos + |size|..];
  }

  /**
   * The first body takes the decoder back to position 2, and from there to the same
   * place again: its loop does not end.
   */
  lemma {:induction false} BackwardNeverEnds(outMax: nat, n: nat)
    requires outMax > 0 && n >= 1
    ensures RunFor(BACKWARD, outMax, n, START) == Running(2, "", false, true)
  {
    hide Round;
    BackwardRound(outMax, START, "00000000fffffff0");
    BackwardStays(outMax, n - 1);
  }

  lemma {:induction false} BackwardStays(outMax: nat, n: nat)
    requires outMax > 0
    ensures RunFor(BACKWARD, outMax, n, Running(2, "", false, true)) == Running(2, "", false, true)
  {
    hide Round;
    if n > 0 {
      BackwardRound(outMax, Running(2, "", false, true), "000000fffffff0");
      BackwardStays(outMax, n - 1);
    }
  }

  lemma BackwardText(pos: nat, size: string)
    requires (pos == 0 && size == "00000000fffffff0") || (pos == 2 && size == "000000fffffff0")
    ensures BACKWARD[pos..] == Line(size, [CR]) + "" && |BACKWARD| == 18
  {
  }

  lemma BackwardRound(outMax: nat, m: Machine, size: string)
    requires outMax > 0 && m.Running? && m.written == "" && !m.truncated
    requires (m.pos == 0 && size == "00000000fffffff0") || (m.pos == 2 && size == "000000fffffff0")
    ensures Round(BACKWARD, outMax, m) == Running(2, "", false, true)
  {
    hide Digits, SizeOf, AfterLine, LineEnd, IsSize, Line;
    BackwardSize();
    BackwardText(m.pos, size);
    LineAt(BACKWARD, m.pos, size, 0xFFFF_FFF0, "");
    SixteenBack(BACKWARD, outMax, m);
  }

  /** A chunk size of -16 at the end of 18 bytes leads to position 2. */
  lemma SixteenBack(body: string, outMax: nat, m: Machine)
    requires |body| == 18 && body[2] == '0' && outMax > 0
    requires m.Running? && m.pos < 18 && m.written == "" && !m.truncated
    requires Digits(body[m.pos..]) > 0 && SizeOf(body[m.pos..]) == 0xFFFF_FFF0 && LineEnd(body, m.pos) == 18
    ensures Round(body, outMax, m) == Running(2, "", false, true)
  {
    hide Digits, SizeOf, LineEnd;
    assert Wrap(0xFFFF_FFF0) == -16;
    assert Ended(body, 2) == 2;
  }

  /** The second body makes the decoder read behind it, or in front of it if the buffer is small. */
  lemma BehindStrays(outMax: nat)
    requires outMax > 0
    ensures Round(BEHIND, outMax, START) == Stray(true)
  {
    hide Digits, SizeOf, AfterLine, LineEnd, IsSize;
    BehindSize();
    assert BEHIND[0..] == Line("7ffffffc", [CR]) + "ab";
    LineAt(BEHIND, 0, "7ffffffc", 0x7FFF_FFFC, "ab");
    assert Wrap(0x7FFF_FFFC) == 0x7FFF_FFFC && Wrap(10 + 0x7FFF_FFFC) < 0;
  }
}
