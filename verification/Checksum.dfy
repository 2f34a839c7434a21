/**
 * The Internet checksum (RFC 1071) as net_checksum of kernel/net/net.c and
 * tcp_checksum of kernel/net/tcp.c compute it: 16-bit words in the processor's
 * little-endian order, a 32-bit accumulator, and a carry-folding loop.
 */
module Checksum {

  import opened Bits

  const WORD := 0x1_0000
  const WRAP := 0x1_0000_0000

  /** The sum of the 16-bit words; an odd last byte counts as a word of its own. */
  function WordSum(data: seq<byte>): (r: nat)
    ensures r <= 0xFFFF * ((|data| + 1) / 2)
  {
    if data == [] then 0
    else if |data| == 1 then data[0]
    else data[0] as nat + 256 * data[1] as nat + WordSum(data[2..])
  }

  /** The carry-folding loop. */
  function Fold(sum: nat): (r: nat)
    ensures r < WORD
  {
    if sum < WORD then sum else Fold(sum % WORD + sum / WORD)
  }

  /** Folding is reduction modulo 65535 with 65535, not 0, for non-zero multiples. */
  lemma {:induction false} FoldMod(sum: nat)
    ensures Fold(sum) == if sum == 0 then 0 else (sum - 1) % 0xFFFF + 1
  {
    if sum >= WORD {
      var q, r := sum / WORD, sum % WORD;
      FoldMod(r + q);
      assert sum - 1 == (r + q - 1) + q * 0xFFFF;
      AddMultiple(r + q - 1, q);
    }
  }

  lemma {:induction false} AddMultiple(n: nat, q: nat)
    ensures (n + q * 0xFFFF) % 0xFFFF == n % 0xFFFF
  {
    if q > 0 { AddMultiple(n, q - 1); }
  }

  function Complement(sum: nat): (r: nat)
    requires sum < WORD
    ensures r < WORD
  {
    0xFFFF - sum
  }

  /** What a 16-bit one's-complement checksum of the data is, without any accumulator width. */
  function Checksum(data: seq<byte>): (r: nat)
    ensures r < WORD
  {
    Complement(Fold(WordSum(data)))
  }

  /** A receiver's recomputation yields 0 exactly for a non-zero sum that is a multiple of 65535. */
  lemma ZeroIff(data: seq<byte>)
    ensures Checksum(data) == 0 <==> WordSum(data) > 0 && WordSum(data) % 0xFFFF == 0
  {
    hide Fold, WordSum;
    var s := WordSum(data);
    FoldMod(s);
    if s > 0 { LastResidue(s); }
  }

  lemma LastResidue(s: nat)
    requires s > 0
    ensures (s - 1) % 0xFFFF + 1 == 0xFFFF <==> s % 0xFFFF == 0
    ensures (s - 1) % 0xFFFF + 1 == if s % 0xFFFF == 0 then 0xFFFF else s % 0xFFFF
  {
  }

  lemma {:induction false} WordSumConcat(a: seq<byte>, b: seq<byte>)
    requires |a| % 2 == 0
    ensures WordSum(a + b) == WordSum(a) + WordSum(b)
  {
    if a == [] {
      assert a + b == b;
    } else {
      assert (a + b)[2..] == a[2..] + b;
      WordSumConcat(a[2..], b);
    }
  }

  /** The data with word w stored in the two bytes at k. */
  function Store(data: seq<byte>, k: nat, w: nat): (r: seq<byte>)
    requires k + 2 <= |data| && w < WORD
    ensures |r| == |data|
  {
    data[..k] + [w % 256, w / 256] + data[k + 2..]
  }

  function Word(data: seq<byte>, k: nat): (r: nat)
    requires k + 2 <= |data|
    ensures r < WORD
  {
    data[k] as nat + 256 * data[k + 1] as nat
  }

  lemma WordSumStore(data: seq<byte>, k: nat, w: nat)
    requires k + 2 <= |data| && k % 2 == 0 && w < WORD
    ensures WordSum(Store(data, k, w)) + Word(data, k) == WordSum(data) + w
  {
    hide WordSum, Store;
    var pair: seq<byte>, pair': seq<byte> := [data[k], data[k + 1]], [w % 256, w / 256];
    var front, back := data[..k], data[k + 2..];
    StoreParts(data, k, w);
    WordSumConcat(front, pair + back);
    WordSumConcat(front, pair' + back);
    WordSumConcat(pair, back);
    WordSumConcat(pair', back);
    PairSum(pair);
    PairSum(pair');
  }

  lemma StoreParts(data: seq<byte>, k: nat, w: nat)
    requires k + 2 <= |data| && w < WORD
    ensures data == data[..k] + ([data[k], data[k + 1]] + data[k + 2..])
    ensures var pair: seq<byte> := [w % 256, w / 256]; Store(data, k, w) == data[..k] + (pair + data[k + 2..])
  {
  }

  lemma PairSum(pair: seq<byte>)
    requires |pair| == 2
    ensures WordSum(pair) == Word(pair, 0)
  {
    assert pair[2..] == [];
  }

  /**
   * Storing the checksum of data whose checksum field is zero makes recomputation
   * return 0, for even and odd lengths.
   */
  lemma FilledIsZero(data: seq<byte>, k: nat)
    requires k + 2 <= |data| && k % 2 == 0 && Word(data, k) == 0
    ensures Checksum(Store(data, k, Checksum(data))) == 0
  {
    hide Fold, WordSum;
    var s, c := WordSum(data), Checksum(data);
    WordSumStore(data, k, c);
    ZeroIff(Store(data, k, c));
    FoldMod(s);
    if s > 0 { assert s + c == ((s - 1) / 0xFFFF + 1) * 0xFFFF; }
  }

  /** A field value passes exactly when it is the computed one, or all ones where 0 was computed. */
  lemma FieldPassesIff(data: seq<byte>, k: nat, w: nat)
    requires k + 2 <= |data| && k % 2 == 0 && Word(data, k) == 0 && w < WORD
    ensures Checksum(Store(data, k, w)) == 0 <==> w == Checksum(data) || (w == 0xFFFF && Checksum(data) == 0)
  {
    hide WordSum, Word, Store, Fold;
    FilledIsZero(data, k);
    var s, c := WordSum(data), Checksum(data);
    WordSumStore(data, k, c);
    WordSumStore(data, k, w);
    ZeroIff(Store(data, k, c));
    ZeroIff(Store(data, k, w));
    FoldMod(s);
    if Checksum(Store(data, k, w)) == 0 {
      NearMultiples(s + c, s + w, w - c);
    } else if w == 0xFFFF && c == 0 {
      NextMultiple(s);
    }
  }

  lemma NextMultiple(s: nat)
    ensures (s + 0xFFFF) % 0xFFFF == s % 0xFFFF
  {
    AddMultiple(s, 1);
  }

  /** A change to one word is noticed unless it exchanges 0x0000 and 0xFFFF. */
  lemma WordChangeDetected(data: seq<byte>, k: nat, w: nat)
    requires k + 2 <= |data| && k % 2 == 0 && w < WORD && Checksum(data) == 0
    requires w != Word(data, k) && {w, Word(data, k)} != {0, 0xFFFF}
    ensures Checksum(Store(data, k, w)) != 0
  {
    hide Fold, WordSum, Word, Store, Checksum;
    WordSumStore(data, k, w);
    ZeroIff(data);
    ZeroIff(Store(data, k, w));
    if Checksum(Store(data, k, w)) == 0 { NearMultiples(WordSum(data), WordSum(Store(data, k, w)), w - Word(data, k)); }
  }

  lemma NearMultiples(s: nat, t: nat, d: int)
    requires s % 0xFFFF == 0 && t % 0xFFFF == 0 && t == s + d && -0xFFFF <= d <= 0xFFFF
    ensures d == 0 || d == 0xFFFF || d == -0xFFFF
  {
    var p, q := s / 0xFFFF, t / 0xFFFF;
    assert d == 0xFFFF * (q - p);
  }

  // ----------------------------------------------------------- the two routines

  /** The longest data whose word sum always fits the 32-bit accumulator. */
  const SAFE_LENGTH := 131074

  lemma FitsWithin(data: seq<byte>)
    requires |data| <= SAFE_LENGTH
    ensures WordSum(data) < WRAP && WordSum(data) % WRAP == WordSum(data)
  {
    hide WordSum;
    assert (|data| + 1) / 2 <= 65537;
  }

  /** One word more and all-ones data overflows. */
  lemma {:induction false} OnesSum(n: nat)
    ensures WordSum(seq(2 * n, i => 0xFF as byte)) == 0xFFFF * n
  {
    var ones := seq(2 * n, i => 0xFF as byte);
    if n > 0 {
      assert ones[2..] == seq(2 * (n - 1), i => 0xFF as byte);
      OnesSum(n - 1);
    }
  }

  lemma SafeLengthIsSharp()
    ensures exists data: seq<byte> :: |data| == SAFE_LENGTH + 2 && WordSum(data) >= WRAP
  {
    var data := seq(2 * 65538, i => 0xFF as byte);
    OnesSum(65538);
    assert |data| == SAFE_LENGTH + 2;
  }

  /** The accumulator: 32 bits, carries out of them are lost. */
  function Accumulate(sum: nat, w: nat): (r: nat)
    ensures r < WRAP
  {
    (sum + w) % WRAP
  }

  lemma AccumulateWrapped(sum: nat, w: nat)
    ensures Accumulate(sum % WRAP, w) == (sum + w) % WRAP
  {
    AddWraps(sum % WRAP + w, sum / WRAP);
  }

  lemma {:induction false} AddWraps(n: nat, q: nat)
    ensures (n + q * WRAP) % WRAP == n % WRAP
  {
    if q > 0 { AddWraps(n, q - 1); }
  }

  /** net_checksum, with its 32-bit accumulator. */
  method NetChecksum(data: seq<byte>) returns (r: nat)
    ensures r == Complement(Fold(WordSum(data) % WRAP))
    ensures |data| <= SAFE_LENGTH ==> r == Checksum(data)
  {
    hide Fold, WordSum, Accumulate, Word, Complement;
    var sum: nat, k: nat := 0, 0;
    EmptySum();
    while |data| - k > 1
      invariant 0 <= k <= |data| && k % 2 == 0 && sum == WordSum(data[..k]) % WRAP
    {
      SumPair(data, k);
      AccumulateWrapped(WordSum(data[..k]), Word(data, k));
      sum := Accumulate(sum, Word(data, k));
      k := k + 2;
    }
    SumLast(data, k);
    if |data| - k == 1 {
      AccumulateWrapped(WordSum(data[..k]), data[k]);
      sum := Accumulate(sum, data[k]);
    }
    r := FoldAndComplement(sum);
    if |data| <= SAFE_LENGTH { FitsWithin(data); }
  }

  /** The common end: fold the carries, then complement. */
  method FoldAndComplement(start: nat) returns (r: nat)
    ensures r == Complement(Fold(start))
  {
    var sum: nat := start;
    while sum / WORD != 0
      decreases sum
      invariant Fold(sum) == Fold(start)
    {
      sum := sum % WORD + sum / WORD;
    }
    r := 0xFFFF - sum;
  }

  lemma EmptySum()
    ensures WordSum([]) == 0
  {
  }

  lemma SumPair(data: seq<byte>, k: nat)
    requires k % 2 == 0 && k + 2 <= |data|
    ensures WordSum(data[..k + 2]) == WordSum(data[..k]) + Word(data, k)
  {
    PairSum([data[k], data[k + 1]]);
    assert data[..k + 2] == data[..k] + [data[k], data[k + 1]];
    WordSumConcat(data[..k], [data[k], data[k + 1]]);
  }

  lemma SumLast(data: seq<byte>, k: nat)
    requires k % 2 == 0 && k <= |data| <= k + 1
    ensures WordSum(data) == WordSum(data[..k]) + if |data| == k then 0 else data[k]
  {
    if |data| == k { assert data[..k] == data; } else {
      assert data == data[..k] + [data[k]];
      WordSumConcat(data[..k], [data[k]]);
    }
  }

  const PROTO_TCP := 6

  /** The pseudo-header of RFC 793 section 3.1; only the low 16 bits of the length go in. */
  function Pseudo(src: seq<byte>, dst: seq<byte>, len: nat): (r: seq<byte>)
    requires |src| == 4 && |dst| == 4
    ensures |r| == 12
  {
    src + dst + [0, PROTO_TCP, len / 256 % 256, len % 256]
  }

  /** tcp_checksum: the pseudo-header's six words, the segment's words, an odd last byte. */
  method TcpChecksum(src: seq<byte>, dst: seq<byte>, segment: seq<byte>) returns (r: nat)
    requires |src| == 4 && |dst| == 4
    ensures r == Complement(Fold(WordSum(Pseudo(src, dst, |segment|) + segment) % WRAP))
    ensures |segment| <= SAFE_LENGTH - 12 ==> r == Checksum(Pseudo(src, dst, |segment|) + segment)
  {
    hide Fold, WordSum, Pseudo, Accumulate, Word, Complement;
    var pseudo := Pseudo(src, dst, |segment|);
    var sum: nat := 0;
    EmptySum();
    for i := 0 to 6
      invariant sum == WordSum(pseudo[..2 * i]) % WRAP
    {
      SumPair(pseudo, 2 * i);
      AccumulateWrapped(WordSum(pseudo[..2 * i]), Word(pseudo, 2 * i));
      sum := Accumulate(sum, Word(pseudo, 2 * i));
    }
    assert pseudo[..12] == pseudo;
    assert segment[..0] == [];
    var words := |segment| / 2;
    for i := 0 to words
      invariant sum == (WordSum(pseudo) + WordSum(segment[..2 * i])) % WRAP
    {
      SumPair(segment, 2 * i);
      AccumulateWrapped(WordSum(pseudo) + WordSum(segment[..2 * i]), Word(segment, 2 * i));
      sum := Accumulate(sum, Word(segment, 2 * i));
    }
    SumLast(segment, 2 * words);
    if |segment| % 2 == 1 {
      AccumulateWrapped(WordSum(pseudo) + WordSum(segment[..2 * words]), segment[|segment| - 1]);
      sum := Accumulate(sum, segment[|segment| - 1]);
    }
    WordSumConcat(pseudo, segment);
    r := FoldAndComplement(sum);
    if |segment| <= SAFE_LENGTH - 12 { FitsWithin(pseudo + segment); }
  }

  /** The pseudo-header adds the two addresses, the protocol and the length, in network order. */
  lemma PseudoSum(src: seq<byte>, dst: seq<byte>, len: nat)
    requires |src| == 4 && |dst| == 4
    ensures NetworkSum(Pseudo(src, dst, len)) ==
            256 * (src[0] as nat + src[2] + dst[0] + dst[2]) + src[1] + src[3] + dst[1] + dst[3] + 6 + len % 0x1_0000
  {
    var p := Pseudo(src, dst, len);
    hide Pseudo;
    PseudoBytes(src, dst, len);
    NetworkWords(p, 6);
  }

  lemma PseudoBytes(src: seq<byte>, dst: seq<byte>, len: nat)
    requires |src| == 4 && |dst| == 4
    ensures var p := Pseudo(src, dst, len);
            && p[0] == src[0] && p[1] == src[1] && p[2] == src[2] && p[3] == src[3]
            && p[4] == dst[0] && p[5] == dst[1] && p[6] == dst[2] && p[7] == dst[3]
            && p[8] == 0 && p[9] == 6 && 256 * p[10] as nat + p[11] == len % 0x1_0000
  {
  }

  /** Twelve bytes are six words. */
  lemma NetworkWords(p: seq<byte>, n: nat)
    requires |p| == 12 && n == 6
    ensures NetworkSum(p) ==
            256 * (p[0] as nat + p[2] + p[4] + p[6] + p[8] + p[10]) + p[1] + p[3] + p[5] + p[7] + p[9] + p[11]
  {
    NetworkPair(p);
    NetworkPair(p[2..]);
    NetworkPair(p[4..]);
    NetworkPair(p[6..]);
    NetworkPair(p[8..]);
    NetworkPair(p[10..]);
    assert p[2..][2..] == p[4..] && p[4..][2..] == p[6..] && p[6..][2..] == p[8..] && p[8..][2..] == p[10..];
    assert p[10..][2..] == [];
  }

  lemma NetworkPair(p: seq<byte>)
    requires |p| >= 2
    ensures NetworkSum(p) == 256 * p[0] as nat + p[1] + NetworkSum(p[2..]) && NetworkSum([]) == 0
  {
  }

  /** A segment that was sent to, or came from, an address that differs in one word is not accepted. */
  lemma MisdeliveryDetected(src: seq<byte>, dst: seq<byte>, k: nat, w: nat, segment: seq<byte>)
    requires |src| == 4 && |dst| == 4 && k in {0, 2, 4, 6} && w < WORD
    requires Checksum(Pseudo(src, dst, |segment|) + segment) == 0
    requires w != Word(src + dst, k) && {w, Word(src + dst, k)} != {0, 0xFFFF}
    ensures var both := Store(src + dst, k, w);
            Checksum(Pseudo(both[..4], both[4..], |segment|) + segment) != 0
  {
    hide Checksum;
    var whole := Pseudo(src, dst, |segment|) + segment;
    var both := Store(src + dst, k, w);
    assert Word(whole, k) == Word(src + dst, k);
    assert both == both[..4] + both[4..];
    assert Store(whole, k, w) == Pseudo(both[..4], both[4..], |segment|) + segment;
    WordChangeDetected(whole, k, w);
  }

  /** tcp_output's checksum field. */
  const FIELD := 16

  /** What tcp_output sends, tcp_receive accepts: the filled segment's checksum is 0. */
  lemma SentIsAccepted(src: seq<byte>, dst: seq<byte>, segment: seq<byte>)
    requires |src| == 4 && |dst| == 4 && |segment| >= FIELD + 2 && Word(segment, FIELD) == 0
    ensures var c := Checksum(Pseudo(src, dst, |segment|) + segment);
            Checksum(Pseudo(src, dst, |segment|) + Store(segment, FIELD, c)) == 0
  {
    var pseudo := Pseudo(src, dst, |segment|);
    var whole := pseudo + segment;
    var c := Checksum(whole);
    assert Store(whole, 12 + FIELD, c) == pseudo + Store(segment, FIELD, c);
    FilledIsZero(whole, 12 + FIELD);
  }

  // ------------------------------------------------------------------ byte order

  /** The sum in network byte order, an odd last byte padded on the right. */
  function NetworkSum(data: seq<byte>): nat
  {
    if data == [] then 0
    else if |data| == 1 then 256 * data[0]
    else 256 * data[0] + data[1] + NetworkSum(data[2..])
  }

  function Swap(w: nat): (r: nat)
    requires w < WORD
    ensures r < WORD
  {
    w % 256 * 256 + w / 256
  }

  /** The high bytes of the little-endian words. */
  function HighSum(data: seq<byte>): nat
  {
    if |data| <= 1 then 0 else data[1] + HighSum(data[2..])
  }

  lemma {:induction false} NetworkSumIs(data: seq<byte>)
    ensures 256 * WordSum(data) == NetworkSum(data) + 0xFFFF * HighSum(data)
  {
    if |data| > 1 { NetworkSumIs(data[2..]); }
  }

  lemma {:induction false} ZeroTogether(data: seq<byte>)
    ensures WordSum(data) == 0 <==> NetworkSum(data) == 0
  {
    if |data| > 1 { ZeroTogether(data[2..]); }
  }

  /**
   * Summing in the processor's order gives the byte-swapped network-order checksum
   * (RFC 1071 section 2), so the stored bytes are the standard's.
   */
  lemma ByteOrder(data: seq<byte>)
    ensures Swap(Checksum(data)) == Complement(Fold(NetworkSum(data)))
  {
    hide WordSum, NetworkSum, HighSum, Fold;
    var s, t := WordSum(data), NetworkSum(data);
    NetworkSumIs(data);
    ZeroTogether(data);
    FoldMod(s);
    FoldMod(t);
    var f := Fold(s);
    if s > 0 {
      var q := (s - 1) / 0xFFFF;
      assert s == f + q * 0xFFFF;
      assert 256 * f == Swap(f) + 0xFFFF * (f / 256);
      SwapPositive(f);
      SameResidue(t, Swap(f), HighSum(data), 256 * q + f / 256);
    }
  }

  lemma SwapPositive(f: nat)
    requires 0 < f < WORD
    ensures 0 < Swap(f) < WORD && Swap(0xFFFF - f) == 0xFFFF - Swap(f)
  {
  }

  lemma SameResidue(t: nat, w: nat, m: nat, k: nat)
    requires 0 < w < WORD && t > 0 && t + 0xFFFF * m == w + 0xFFFF * k
    ensures (t - 1) % 0xFFFF + 1 == w
  {
    assert t == w + 0xFFFF * (k - m);
    if k >= m { AddMultiple(w - 1, k - m); }
  }
}
