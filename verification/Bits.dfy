/** Powers of two and bit sequences, least or most significant bit first. */
module Bits {

  type byte = b: nat | b < 256

  function Pow2(n: nat): (r: nat)
    ensures r >= 1
  {
    if n == 0 then 1 else 2 * Pow2(n - 1)
  }

  lemma {:induction false} Pow2Add(a: nat, b: nat)
    ensures Pow2(a + b) == Pow2(a) * Pow2(b)
  {
    if a > 0 {
      Pow2Add(a - 1, b);
      assert Pow2(a + b) == 2 * Pow2(a - 1 + b);
      DoubleFirst(Pow2(a - 1), Pow2(b));
    }
  }

  lemma DoubleFirst(p: nat, q: nat)
    ensures (2 * p) * q == 2 * (p * q)
  {
  }

  function Bit(b: bool): nat { if b then 1 else 0 }

  /** Value of a bit sequence whose first element is the least significant bit. */
  function LsbVal(bs: seq<bool>): (v: nat)
    ensures v < Pow2(|bs|)
  {
    if bs == [] then 0 else Bit(bs[0]) + 2 * LsbVal(bs[1..])
  }

  /** Value of a bit sequence whose first element is the most significant bit. */
  function MsbVal(bs: seq<bool>): (v: nat)
    ensures v < Pow2(|bs|)
  {
    if bs == [] then 0 else 2 * MsbVal(bs[..|bs| - 1]) + Bit(bs[|bs| - 1])
  }

  /** The low n bits of v, least significant first. */
  function LsbBits(v: nat, n: nat): (bs: seq<bool>)
    ensures |bs| == n
  {
    if n == 0 then [] else [v % 2 == 1] + LsbBits(v / 2, n - 1)
  }

  /** The low n bits of v, most significant first. */
  function MsbBits(v: nat, n: nat): (bs: seq<bool>)
    ensures |bs| == n
  {
    if n == 0 then [] else MsbBits(v / 2, n - 1) + [v % 2 == 1]
  }

  lemma {:induction false} LsbRoundTrip(v: nat, n: nat)
    requires v < Pow2(n)
    ensures LsbVal(LsbBits(v, n)) == v
  {
    if n > 0 {
      LsbRoundTrip(v / 2, n - 1);
      assert LsbBits(v, n)[1..] == LsbBits(v / 2, n - 1);
    }
  }

  lemma {:induction false} MsbRoundTrip(v: nat, n: nat)
    requires v < Pow2(n)
    ensures MsbVal(MsbBits(v, n)) == v
  {
    hide MsbVal;
    if n == 0 {
      MsbEmpty();
    } else {
      MsbRoundTrip(v / 2, n - 1);
      MsbSnoc(MsbBits(v / 2, n - 1), v % 2 == 1);
    }
  }

  /** Bit i of the low n bits of v has the weight 2^i. */
  lemma {:induction false} BitOfLsb(v: nat, n: nat, i: nat)
    requires i < n
    ensures LsbBits(v, n)[i] <==> v / Pow2(i) % 2 == 1
  {
    if i > 0 {
      BitOfLsb(v / 2, n - 1, i - 1);
      HalveDiv(v, Pow2(i - 1));
    } else {
      assert Pow2(0) == 1;
    }
  }

  lemma MsbEmpty()
    ensures MsbVal([]) == 0
  {
  }

  lemma MsbSnoc(a: seq<bool>, x: bool)
    ensures MsbVal(a + [x]) == 2 * MsbVal(a) + Bit(x)
  {
    assert (a + [x])[..|a|] == a;
  }

  lemma LsbCons(x: bool, a: seq<bool>)
    ensures LsbVal([x] + a) == Bit(x) + 2 * LsbVal(a)
  {
    assert ([x] + a)[1..] == a;
  }

  /** A bit sequence is determined by its length and its value. */
  lemma {:induction false} MsbInjective(a: seq<bool>, b: seq<bool>)
    requires |a| == |b| && MsbVal(a) == MsbVal(b)
    ensures a == b
  {
    if a != [] {
      var n := |a| - 1;
      MsbInjective(a[..n], b[..n]);
      assert a == a[..n] + [a[n]] && b == b[..n] + [b[n]];
    }
  }

  /** Dropping the last d bits divides the value by 2^d. */
  lemma {:induction false} MsbPrefix(bs: seq<bool>, j: nat)
    requires j <= |bs|
    ensures MsbVal(bs[..j]) * Pow2(|bs| - j) <= MsbVal(bs)
    ensures MsbVal(bs) < (MsbVal(bs[..j]) + 1) * Pow2(|bs| - j)
    decreases |bs|
  {
    if j == |bs| {
      assert bs[..j] == bs;
    } else {
      var n := |bs| - 1;
      MsbPrefix(bs[..n], j);
      assert bs[..n][..j] == bs[..j];
      DoubleBound(MsbVal(bs[..j]), Pow2(n - j), MsbVal(bs[..n]), Bit(bs[n]));
    }
  }

  lemma DoubleBound(q: nat, p: nat, v: nat, b: nat)
    requires q * p <= v < (q + 1) * p && b <= 1
    ensures q * (2 * p) <= 2 * v + b < (q + 1) * (2 * p)
  {
    assert q * (2 * p) == 2 * (q * p);
    assert (q + 1) * (2 * p) == 2 * ((q + 1) * p);
  }

  /** Bit k of a byte string is bit k % 8 of byte k / 8, counted from the least significant one. */
  lemma {:induction false} BitOfBytes(bs: seq<byte>, k: nat)
    requires k < 8 * |bs|
    ensures BytesBits(bs)[k] <==> bs[k / 8] / Pow2(k % 8) % 2 == 1
  {
    hide LsbBits, Pow2;
    if k < 8 {
      BitOfLsb(bs[0], 8, k);
    } else {
      BitOfBytes(bs[1..], k - 8);
      assert (k - 8) / 8 == k / 8 - 1 && (k - 8) % 8 == k % 8;
    }
  }

  /** The bits of a byte string, each byte least significant bit first (RFC 1951, section 3.1.1). */
  function BytesBits(bs: seq<byte>): (r: seq<bool>)
    ensures |r| == 8 * |bs|
  {
    if bs == [] then [] else LsbBits(bs[0], 8) + BytesBits(bs[1..])
  }

  /** The bytes spelled by a bit sequence whose length is a multiple of eight. */
  function BitsBytes(bits: seq<bool>): (r: seq<byte>)
    requires |bits| % 8 == 0
    ensures 8 * |r| == |bits|
    decreases |bits|
  {
    if bits == [] then []
    else
      assert Pow2(8) == 256 by { assert Pow2(4) == 16; assert Pow2(6) == 4 * Pow2(4); assert Pow2(8) == 4 * Pow2(6); }
      [LsbVal(bits[..8])] + BitsBytes(bits[8..])
  }

  lemma {:induction false} LsbBitsOfVal(bits: seq<bool>)
    ensures LsbBits(LsbVal(bits), |bits|) == bits
  {
    if bits != [] {
      LsbBitsOfVal(bits[1..]);
      assert LsbVal(bits) / 2 == LsbVal(bits[1..]);
      assert bits == [bits[0]] + bits[1..];
    }
  }

  lemma {:induction false} BytesOfBytesBits(bs: seq<byte>)
    ensures BitsBytes(BytesBits(bs)) == bs
  {
    if bs != [] {
      BytesOfBytesBits(bs[1..]);
      assert BytesBits(bs)[..8] == LsbBits(bs[0], 8);
      assert BytesBits(bs)[8..] == BytesBits(bs[1..]);
      Pow2At8();
      LsbRoundTrip(bs[0], 8);
    }
  }

  lemma {:induction false} BitsOfBitsBytes(bits: seq<bool>)
    requires |bits| % 8 == 0
    ensures BytesBits(BitsBytes(bits)) == bits
    decreases |bits|
  {
    if bits != [] {
      BitsOfBitsBytes(bits[8..]);
      LsbBitsOfVal(bits[..8]);
      assert BitsBytes(bits)[1..] == BitsBytes(bits[8..]);
      assert bits == bits[..8] + bits[8..];
    }
  }

  lemma Pow2At8()
    ensures Pow2(8) == 256
  {
    assert Pow2(4) == 16;
    assert Pow2(6) == 4 * Pow2(4);
    assert Pow2(8) == 4 * Pow2(6);
  }

  lemma {:induction false} BytesBitsConcat(a: seq<byte>, b: seq<byte>)
    ensures BytesBits(a + b) == BytesBits(a) + BytesBits(b)
  {
    hide LsbBits;
    if a == [] {
      assert a + b == b;
    } else {
      BytesBitsConcat(a[1..], b);
      assert (a + b)[1..] == a[1..] + b;
    }
  }

  /** Dropping whole bytes drops eight bits each. */
  lemma BytesBitsDrop(bs: seq<byte>, n: nat)
    requires n <= |bs|
    ensures BytesBits(bs[n..]) == BytesBits(bs)[8 * n..]
    ensures BytesBits(bs[..n]) == BytesBits(bs)[..8 * n]
  {
    hide LsbBits, BytesBits;
    BytesBitsConcat(bs[..n], bs[n..]);
    assert bs == bs[..n] + bs[n..];
  }

  /** Appending a byte above n bits appends its bits. */
  lemma {:induction false} LsbBitsAppend(v: nat, n: nat, b: nat, m: nat)
    requires v < Pow2(n)
    ensures LsbBits(v + b * Pow2(n), n + m) == LsbBits(v, n) + LsbBits(b, m)
  {
    if n > 0 {
      LsbBitsAppend(v / 2, n - 1, b, m);
      var p := b * Pow2(n - 1);
      DoubleSecond(b, Pow2(n - 1));
      HalfOfSum(v, p);
    }
  }

  lemma DoubleSecond(p: nat, q: nat)
    ensures p * (2 * q) == 2 * (p * q)
  {
  }

  lemma HalfOfSum(v: nat, p: nat)
    ensures (v + 2 * p) / 2 == v / 2 + p && (v + 2 * p) % 2 == v % 2
  {
  }

  /** v shifted right by k, and its low k bits. */
  function Shr(v: nat, k: nat): nat { Quotient(v, Pow2(k)) }
  function Low(v: nat, k: nat): nat { v % Pow2(k) }

  function Quotient(v: nat, p: nat): nat
    requires p >= 1
  {
    v / p
  }

  /** Shifting right by k drops the first k bits; the remainder is their value. */
  lemma {:induction false} LsbBitsSplit(v: nat, n: nat, k: nat)
    requires k <= n
    ensures LsbBits(v, n)[k..] == LsbBits(Shr(v, k), n - k)
    ensures LsbVal(LsbBits(v, n)[..k]) == Low(v, k)
  {
    if k > 0 {
      LsbBitsSplit(v / 2, n - 1, k - 1);
      var p, tail := Pow2(k - 1), LsbBits(v / 2, n - 1);
      HalveDiv(v, p);
      assert LsbBits(v, n)[k..] == tail[k - 1..];
      assert LsbBits(v, n)[..k] == [v % 2 == 1] + tail[..k - 1];
      LsbCons(v % 2 == 1, tail[..k - 1]);
    }
  }

  lemma ShrBound(v: nat, n: nat, k: nat)
    requires k <= n && v < Pow2(n)
    ensures Shr(v, k) < Pow2(n - k) && Low(v, k) < Pow2(k)
  {
    Pow2Add(k, n - k);
    QuotientBelow(v, Pow2(k), Pow2(n - k));
  }

  lemma QuotientBelow(v: nat, p: nat, q: nat)
    requires p > 0 && v < p * q
    ensures v / p < q
  {
    if v / p >= q { MulMono(q, v / p, p); }
  }

  lemma HalveDiv(v: nat, p: nat)
    requires p >= 1
    ensures v / 2 / p == v / (2 * p)
    ensures v % (2 * p) == v % 2 + 2 * (v / 2 % p)
  {
    var q, r := v / 2 / p, v / 2 % p;
    assert v / 2 == q * p + r;
    assert v == (2 * p) * q + (2 * r + v % 2);
    DivModUnique(v, 2 * p, q, 2 * r + v % 2);
  }

  lemma DivModUnique(v: int, d: int, q: int, r: int)
    requires d > 0 && v == d * q + r && 0 <= r < d
    ensures v / d == q && v % d == r
  {
    var q' := v / d;
    assert v == d * q' + v % d;
    if q' >= q + 1 { MulMono(q + 1, q', d); }
    if q' + 1 <= q { MulMono(q' + 1, q, d); }
  }

  lemma MulMono(a: int, b: int, d: int)
    requires a <= b && d >= 0
    ensures d * a <= d * b && a * d <= b * d
  {
  }
}
