/** Definitions that several components share. */
module Basics {

  datatype Option<T> = None | Some(value: T)

  function Min(a: nat, b: nat): nat
  {
    if a < b then a else b
  }

  predicate Distinct<T(==)>(s: seq<T>)
  {
    forall i, j :: 0 <= i < j < |s| ==> s[i] != s[j]
  }

  const INT_MAX := 0x7FFF_FFFF

  /** 32-bit two's complement. */
  function Wrap(n: int): (r: int)
    ensures -0x8000_0000 <= r <= INT_MAX
  {
    (n + 0x8000_0000) % 0x1_0000_0000 - 0x8000_0000
  }

  lemma {:induction false} WrapMultiple(n: int, k: nat)
    ensures Wrap(n + k * 0x1_0000_0000) == Wrap(n) == Wrap(n - k * 0x1_0000_0000)
  {
    if k > 0 { WrapMultiple(n, k - 1); }
  }

  /** Arithmetic on a wrapped operand wraps to the same value. */
  lemma WrapAgain(a: int, m: nat, h: int)
    ensures Wrap(Wrap(a) * m + h) == Wrap(a * m + h)
  {
    var k := (a + 0x8000_0000) / 0x1_0000_0000;
    assert Wrap(a) == a - k * 0x1_0000_0000;
    ProductShift(a, k, m);
    if k >= 0 { WrapMultiple(a * m + h, k * m); } else { WrapMultiple(a * m + h, -k * m); }
  }

  lemma ProductShift(a: int, k: int, m: int)
    ensures (a - k * 0x1_0000_0000) * m == a * m - k * m * 0x1_0000_0000
  {
  }
}
