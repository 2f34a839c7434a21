/**
 * Canonical Huffman codes: the code assignment of RFC 1951, section 3.2.2, the
 * count/first/index walk that decodes it, and the theorem that the two agree.
 * A code is given by its vector of code lengths; length 0 means "symbol unused".
 */
module Huffman {
  import opened Bits

  const MAXBITS := 15

  ghost predicate ValidLengths(lens: seq<nat>)
  {
    forall i :: 0 <= i < |lens| ==> lens[i] <= MAXBITS
  }

  /** How many of the first n symbols have code length l. */
  function CountIn(lens: seq<nat>, l: nat, n: nat): (c: nat)
    requires n <= |lens|
    ensures c <= n
  {
    if n == 0 then 0 else CountIn(lens, l, n - 1) + if lens[n - 1] == l then 1 else 0
  }

  /** bl_count of section 3.2.2: the number of codes of length l, with bl_count[0] = 0. */
  function BlCount(lens: seq<nat>, l: nat): nat
  {
    if l == 0 then 0 else CountIn(lens, l, |lens|)
  }

  /** next_code of section 3.2.2: the numerically smallest code of length l. */
  function NextCode(lens: seq<nat>, l: nat): nat
  {
    if l == 0 then 0 else 2 * (NextCode(lens, l - 1) + BlCount(lens, l - 1))
  }

  /** The position of symbol s among the symbols with its code length. */
  function Rank(lens: seq<nat>, s: nat): nat
    requires s < |lens|
  {
    CountIn(lens, lens[s], s)
  }

  /** The code of symbol s as a number: consecutive values within each length, in symbol order. */
  function Code(lens: seq<nat>, s: nat): nat
    requires s < |lens|
  {
    NextCode(lens, lens[s]) + Rank(lens, s)
  }

  /** The code of symbol s as it appears in the stream, most significant bit first. */
  function CodeBits(lens: seq<nat>, s: nat): (bs: seq<bool>)
    requires s < |lens|
    ensures |bs| == lens[s]
  {
    MsbBits(Code(lens, s), lens[s])
  }

  /** Unused code space at length k, scaled by 2^k; inf_construct's "left". */
  function Left(lens: seq<nat>, k: nat): int
  {
    if k == 0 then 1 else 2 * Left(lens, k - 1) - BlCount(lens, k)
  }

  /** Sum of 2^(15 - length) over the first n symbols. */
  function KraftSum(lens: seq<nat>, n: nat): nat
    requires n <= |lens| && ValidLengths(lens)
  {
    if n == 0 then 0
    else KraftSum(lens, n - 1) + if lens[n - 1] == 0 then 0 else Pow2(MAXBITS - lens[n - 1])
  }

  /** No prefix of the lengths over-subscribes the code space: what inf_construct accepts. */
  ghost predicate Accepted(lens: seq<nat>)
  {
    forall k :: 1 <= k <= MAXBITS ==> Left(lens, k) >= 0
  }

  ghost predicate Unused(lens: seq<nat>)
  {
    forall i :: 0 <= i < |lens| ==> lens[i] == 0
  }

  // ---------------------------------------------------------------- counting

  lemma {:induction false} CountInMono(lens: seq<nat>, l: nat, m: nat, n: nat)
    requires m <= n <= |lens|
    ensures CountIn(lens, l, m) <= CountIn(lens, l, n)
  {
    if m < n { CountInMono(lens, l, m, n - 1); }
  }

  lemma RankBelowCount(lens: seq<nat>, s: nat)
    requires s < |lens|
    ensures Rank(lens, s) < CountIn(lens, lens[s], |lens|)
  {
    CountInMono(lens, lens[s], s + 1, |lens|);
  }

  lemma RankIncreases(lens: seq<nat>, s: nat, t: nat)
    requires s < t < |lens| && lens[s] == lens[t]
    ensures Rank(lens, s) < Rank(lens, t)
  {
    CountInMono(lens, lens[s], s + 1, t);
  }

  /** The symbol of length l and rank r among the first n symbols. */
  function Nth(lens: seq<nat>, l: nat, r: nat, n: nat): (s: nat)
    requires n <= |lens| && r < CountIn(lens, l, n)
    ensures s < n && lens[s] == l && Rank(lens, s) == r
  {
    if lens[n - 1] == l && CountIn(lens, l, n - 1) == r then n - 1 else Nth(lens, l, r, n - 1)
  }

  lemma NthOfRank(lens: seq<nat>, s: nat)
    requires s < |lens|
    ensures Rank(lens, s) < CountIn(lens, lens[s], |lens|)
    ensures Nth(lens, lens[s], Rank(lens, s), |lens|) == s
  {
    RankBelowCount(lens, s);
    var t := Nth(lens, lens[s], Rank(lens, s), |lens|);
    if t < s { RankIncreases(lens, t, s); }
    if s < t { RankIncreases(lens, s, t); }
  }

  // ------------------------------------------------------------ Kraft's sum

  lemma {:induction false} LeftIsSpace(lens: seq<nat>, k: nat)
    ensures Left(lens, k) == Pow2(k) - NextCode(lens, k) - BlCount(lens, k)
  {
    if k > 0 { LeftIsSpace(lens, k - 1); }
  }

  /** Left for the first n symbols only. */
  function LeftIn(lens: seq<nat>, n: nat, k: nat): int
    requires n <= |lens|
  {
    if k == 0 then 1 else 2 * LeftIn(lens, n, k - 1) - CountIn(lens, k, n)
  }

  lemma {:induction false} LeftInAll(lens: seq<nat>, k: nat)
    ensures LeftIn(lens, |lens|, k) == Left(lens, k)
  {
    if k > 0 { LeftInAll(lens, k - 1); }
  }

  /** One more symbol of length l takes 2^(k-l) of the space at length k. */
  lemma {:induction false} LeftInStep(lens: seq<nat>, n: nat, k: nat)
    requires n < |lens|
    ensures LeftIn(lens, n + 1, k) ==
            LeftIn(lens, n, k) - if 1 <= lens[n] <= k then Pow2(k - lens[n]) else 0
  {
    if k > 0 { LeftInStep(lens, n, k - 1); }
  }

  lemma {:induction false} LeftInKraft(lens: seq<nat>, n: nat)
    requires n <= |lens| && ValidLengths(lens)
    ensures LeftIn(lens, n, MAXBITS) == Pow2(MAXBITS) - KraftSum(lens, n)
  {
    hide LeftIn, Pow2;
    if n == 0 {
      EmptyLeft(lens, MAXBITS);
    } else {
      LeftInKraft(lens, n - 1);
      LeftInStep(lens, n - 1, MAXBITS);
    }
  }

  lemma {:induction false} EmptyLeft(lens: seq<nat>, k: nat)
    ensures LeftIn(lens, 0, k) == Pow2(k)
  {
    if k > 0 { EmptyLeft(lens, k - 1); }
  }

  /** Over-subscription at some length is never recovered at a longer one. */
  lemma {:induction false} LeftNegative(lens: seq<nat>, j: nat, k: nat)
    requires j <= k && Left(lens, j) < 0
    ensures Left(lens, k) < 0
  {
    if j < k { LeftNegative(lens, j, k - 1); }
  }

  /** Code space that is still open at length k was open at every shorter length. */
  lemma {:induction false} LeftPositive(lens: seq<nat>, j: nat, k: nat)
    requires j <= k && Left(lens, k) > 0
    ensures Left(lens, j) > 0
  {
    if j < k { LeftPositive(lens, j, k - 1); }
  }

  /** The final "left" is the scaled Kraft slack, and acceptance is Kraft's inequality. */
  lemma KraftSlack(lens: seq<nat>)
    requires ValidLengths(lens)
    ensures Left(lens, MAXBITS) == Pow2(MAXBITS) - KraftSum(lens, |lens|)
    ensures Accepted(lens) <==> KraftSum(lens, |lens|) <= Pow2(MAXBITS)
  {
    LeftInAll(lens, MAXBITS);
    LeftInKraft(lens, |lens|);
    if Left(lens, MAXBITS) >= 0 {
      forall k | 1 <= k <= MAXBITS ensures Left(lens, k) >= 0 {
        if Left(lens, k) < 0 { LeftNegative(lens, k, MAXBITS); }
      }
    }
  }

  // ------------------------------------------------------------- code order

  /** The codes of a longer length start beyond every shorter code's extensions. */
  lemma {:induction false} NextCodeGrows(lens: seq<nat>, j: nat, k: nat)
    requires j < k
    ensures (NextCode(lens, j) + BlCount(lens, j)) * Pow2(k - j) <= NextCode(lens, k)
  {
    hide BlCount;
    var e := NextCode(lens, j) + BlCount(lens, j);
    if j + 1 == k {
      assert Pow2(k - j) == 2;
    } else {
      NextCodeGrows(lens, j, k - 1);
      assert Pow2(k - j) == 2 * Pow2(k - 1 - j);
      assert e * (2 * Pow2(k - 1 - j)) == 2 * (e * Pow2(k - 1 - j));
    }
  }

  /** Every code of an accepted vector fits its length. */
  lemma CodeFits(lens: seq<nat>, s: nat)
    requires ValidLengths(lens) && Accepted(lens) && s < |lens| && lens[s] > 0
    ensures Code(lens, s) < NextCode(lens, lens[s]) + BlCount(lens, lens[s]) <= Pow2(lens[s])
  {
    RankBelowCount(lens, s);
    LeftIsSpace(lens, lens[s]);
    assert Left(lens, lens[s]) >= 0;
  }

  /**
   * The two rules of section 3.2.2: codes of one length are consecutive in symbol
   * order, and a shorter code lies before every longer one, as do its extensions.
   */
  lemma CanonicalOrder(lens: seq<nat>, s: nat, t: nat)
    requires s < |lens| && t < |lens| && lens[s] > 0 && lens[t] > 0
    ensures lens[s] == lens[t] && s < t ==> Code(lens, s) < Code(lens, t)
    ensures lens[s] == lens[t] && s < t && (forall i :: s < i < t ==> lens[i] != lens[s]) ==>
              Code(lens, t) == Code(lens, s) + 1
    ensures lens[s] < lens[t] ==> (Code(lens, s) + 1) * Pow2(lens[t] - lens[s]) <= Code(lens, t)
  {
    hide NextCode, CountIn, Pow2;
    if lens[s] == lens[t] && s < t {
      RankIncreases(lens, s, t);
      if forall i :: s < i < t ==> lens[i] != lens[s] { RankNext(lens, s, t); }
    }
    if lens[s] < lens[t] {
      RankBelowCount(lens, s);
      NextCodeGrows(lens, lens[s], lens[t]);
      MulMono(Code(lens, s) + 1, NextCode(lens, lens[s]) + BlCount(lens, lens[s]), Pow2(lens[t] - lens[s]));
    }
  }

  lemma {:induction false} RankNext(lens: seq<nat>, s: nat, n: nat)
    requires s < n <= |lens| && forall i :: s < i < n ==> lens[i] != lens[s]
    ensures CountIn(lens, lens[s], n) == Rank(lens, s) + 1
    decreases n
  {
    if s < n - 1 { RankNext(lens, s, n - 1); }
  }

  // --------------------------------------------------------------- decoding

  datatype Decoded = Symbol(sym: nat, used: nat) | OutOfInput | BadCode

  /** All codes of length at most k have been ruled out for this input. */
  ghost predicate PastLength(lens: seq<nat>, bits: seq<bool>, k: nat)
  {
    k <= |bits| && MsbVal(bits[..k]) >= NextCode(lens, k) + BlCount(lens, k)
  }

  /** The walk of inf_decode from length k on. */
  ghost function DecodeFrom(lens: seq<nat>, bits: seq<bool>, k: nat): (d: Decoded)
    requires 1 <= k <= MAXBITS + 1 && PastLength(lens, bits, k - 1)
    ensures d.Symbol? ==>
              && k <= d.used <= MAXBITS && d.used <= |bits| && d.sym < |lens|
              && lens[d.sym] == d.used && Code(lens, d.sym) == MsbVal(bits[..d.used])
    ensures d.BadCode? ==> |bits| >= MAXBITS
    ensures d.OutOfInput? ==> |bits| < MAXBITS
    decreases MAXBITS + 1 - k
  {
    if k == MAXBITS + 1 then BadCode
    else if |bits| < k then OutOfInput
    else
      assert bits[..k][..k - 1] == bits[..k - 1];
      var code := MsbVal(bits[..k]);
      if code < NextCode(lens, k) + BlCount(lens, k)
      then Symbol(Nth(lens, k, code - NextCode(lens, k), |lens|), k)
      else DecodeFrom(lens, bits, k + 1)
  }

  ghost function Decode(lens: seq<nat>, bits: seq<bool>): (d: Decoded)
    ensures d.Symbol? ==>
              && 1 <= d.used <= MAXBITS && d.used <= |bits| && d.sym < |lens| && lens[d.sym] == d.used
  {
    DecodeFrom(lens, bits, 1)
  }

  /** Decoding stops at the first length that is not ruled out. */
  lemma {:induction false} DecodeStops(lens: seq<nat>, bits: seq<bool>, k: nat, n: nat)
    requires 1 <= k <= n <= MAXBITS && n <= |bits|
    requires forall j :: k - 1 <= j < n ==> PastLength(lens, bits, j)
    requires !PastLength(lens, bits, n)
    ensures DecodeFrom(lens, bits, k).Symbol? && DecodeFrom(lens, bits, k).used == n
    decreases n - k
  {
    if k < n {
      assert PastLength(lens, bits, k);
      DecodeStops(lens, bits, k + 1, n);
    }
  }

  /** A canonical code in front of any input decodes to its symbol, using exactly its own bits. */
  lemma DecodeCode(lens: seq<nat>, s: nat, rest: seq<bool>)
    requires ValidLengths(lens) && Accepted(lens) && s < |lens| && lens[s] > 0
    ensures Decode(lens, CodeBits(lens, s) + rest) == Symbol(s, lens[s])
  {
    hide NextCode, CountIn, BlCount, Pow2, MsbVal, Nth;
    var n := lens[s];
    var bits := CodeBits(lens, s) + rest;
    CodeFits(lens, s);
    MsbRoundTrip(Code(lens, s), n);
    assert bits[..n] == CodeBits(lens, s);
    forall j | 0 <= j < n ensures PastLength(lens, bits, j) {
      NextCodeGrows(lens, j, n);
      MsbPrefix(bits[..n], j);
      assert bits[..n][..j] == bits[..j];
      CrossMul(NextCode(lens, j) + BlCount(lens, j), MsbVal(bits[..j]), Pow2(n - j), NextCode(lens, n),
          MsbVal(bits[..n]));
    }
    DecodeStops(lens, bits, 1, n);
    var t := Decode(lens, bits).sym;
    NthOfRank(lens, t);
    NthOfRank(lens, s);
  }

  lemma CrossMul(e: nat, q: nat, p: nat, nc: nat, v: nat)
    requires p >= 1 && e * p <= nc <= v < (q + 1) * p
    ensures q >= e
  {
    if q + 1 <= e { MulMono(q + 1, e, p); }
  }

  /**
   * The walk equals the standard's code assignment: it returns s after k bits
   * exactly when those k bits are the canonical code of s.
   */
  lemma DecodeIffCode(lens: seq<nat>, bits: seq<bool>, s: nat, k: nat)
    requires ValidLengths(lens) && Accepted(lens)
    ensures Decode(lens, bits) == Symbol(s, k) <==>
            && s < |lens| && 0 < lens[s] == k <= |bits|
            && bits[..k] == CodeBits(lens, s)
  {
    hide NextCode, CountIn, BlCount, MsbVal, Pow2, Left, Accepted, Nth;
    if Decode(lens, bits) == Symbol(s, k) {
      CodeFits(lens, s);
      MsbRoundTrip(Code(lens, s), k);
      MsbInjective(bits[..k], CodeBits(lens, s));
    }
    if s < |lens| && 0 < lens[s] == k <= |bits| && bits[..k] == CodeBits(lens, s) {
      DecodeCode(lens, s, bits[k..]);
      assert bits == CodeBits(lens, s) + bits[k..];
    }
  }

  /** No code is a prefix of another symbol's code. */
  lemma PrefixFree(lens: seq<nat>, s: nat, t: nat)
    requires ValidLengths(lens) && Accepted(lens)
    requires s < |lens| && t < |lens| && lens[s] > 0 && lens[t] > 0 && s != t
    ensures !(CodeBits(lens, s) <= CodeBits(lens, t))
  {
    if CodeBits(lens, s) <= CodeBits(lens, t) {
      var tail := CodeBits(lens, t)[lens[s]..];
      assert CodeBits(lens, s) + tail == CodeBits(lens, t) + [];
      DecodeCode(lens, s, tail);
      DecodeCode(lens, t, []);
    }
  }

  // ----------------------------------------------------------- completeness

  /** A non-empty code with no slack decodes every input of at least 15 bits. */
  lemma CompleteNeverBad(lens: seq<nat>, bits: seq<bool>)
    requires ValidLengths(lens) && Left(lens, MAXBITS) == 0
    ensures !Decode(lens, bits).BadCode?
  {
    LeftIsSpace(lens, MAXBITS);
    NoBadFrom(lens, bits, 1);
  }

  lemma {:induction false} NoBadFrom(lens: seq<nat>, bits: seq<bool>, k: nat)
    requires 1 <= k <= MAXBITS && PastLength(lens, bits, k - 1)
    requires NextCode(lens, MAXBITS) + BlCount(lens, MAXBITS) == Pow2(MAXBITS)
    ensures !DecodeFrom(lens, bits, k).BadCode?
    decreases MAXBITS - k
  {
    hide NextCode, BlCount, Pow2, MsbVal;
    if k < MAXBITS && PastLength(lens, bits, k) { NoBadFrom(lens, bits, k + 1); }
  }

  /** With slack left, fifteen one-bits match no code. */
  lemma SlackHasBadInput(lens: seq<nat>, bits: seq<bool>)
    requires ValidLengths(lens) && Left(lens, MAXBITS) > 0
    requires |bits| >= MAXBITS && forall i :: 0 <= i < MAXBITS ==> bits[i]
    ensures Decode(lens, bits).BadCode?
  {
    OnesBadFrom(lens, bits, 1);
  }

  lemma {:induction false} AllOnes(bits: seq<bool>, k: nat)
    requires k <= |bits| && forall i :: 0 <= i < k ==> bits[i]
    ensures MsbVal(bits[..k]) == Pow2(k) - 1
  {
    if k > 0 {
      AllOnes(bits, k - 1);
      assert bits[..k][..k - 1] == bits[..k - 1];
    }
  }

  lemma {:induction false} OnesBadFrom(lens: seq<nat>, bits: seq<bool>, k: nat)
    requires Left(lens, MAXBITS) > 0
    requires |bits| >= MAXBITS && forall i :: 0 <= i < MAXBITS ==> bits[i]
    requires 1 <= k <= MAXBITS + 1 && PastLength(lens, bits, k - 1)
    ensures DecodeFrom(lens, bits, k).BadCode?
    decreases MAXBITS + 1 - k
  {
    if k <= MAXBITS {
      AllOnes(bits, k);
      LeftPositive(lens, k, MAXBITS);
      LeftIsSpace(lens, k);
      OnesBadFrom(lens, bits, k + 1);
    }
  }

  /** An all-zero vector leaves all of the space open, although inf_construct returns 0 for it. */
  lemma {:induction false} UnusedLeft(lens: seq<nat>, k: nat)
    requires Unused(lens)
    ensures Left(lens, k) == Pow2(k)
  {
    if k > 0 {
      UnusedLeft(lens, k - 1);
      UnusedCount(lens, k, |lens|);
    }
  }

  lemma {:induction false} UnusedCount(lens: seq<nat>, l: nat, n: nat)
    requires Unused(lens) && l > 0 && n <= |lens|
    ensures CountIn(lens, l, n) == 0
  {
    if n > 0 { UnusedCount(lens, l, n - 1); }
  }

  /** inf_construct's return value for an accepted vector. */
  ghost function Slack(lens: seq<nat>): int
  {
    if Unused(lens) then 0 else Left(lens, MAXBITS)
  }

  /** An accepted code can be driven to -9 exactly when it is empty or has slack. */
  lemma BadInputIffIncomplete(lens: seq<nat>)
    requires ValidLengths(lens) && Accepted(lens)
    ensures (exists bits :: Decode(lens, bits).BadCode?) <==> Unused(lens) || Slack(lens) > 0
  {
    if Unused(lens) || Slack(lens) > 0 {
      if Unused(lens) { UnusedLeft(lens, MAXBITS); }
      var ones := seq(MAXBITS, i => true);
      SlackHasBadInput(lens, ones);
    } else {
      assert Left(lens, MAXBITS) == 0;
      forall bits ensures !Decode(lens, bits).BadCode? { CompleteNeverBad(lens, bits); }
    }
  }
}
