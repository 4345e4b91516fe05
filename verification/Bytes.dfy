/** Byte-addressed memory and the little-endian words stored in it. */
module Bytes {
  import Bits

  type Byte = x: int | 0 <= x < 256

  function Limit(n: nat): nat {
    if n == 0 then 1 else 256 * Limit(n - 1)
  }

  /** The `n`-byte little-endian word at offset `a`. */
  function Word(m: seq<Byte>, a: nat, n: nat): nat
    requires a + n <= |m|
    decreases n
  {
    if n == 0 then 0 else m[a] + 256 * Word(m, a + 1, n - 1)
  }

  /** Byte `k` of a word is its digit of weight 256 to the `k`. */
  lemma {:induction false} WordDigit(m: seq<Byte>, a: nat, n: nat, k: nat)
    requires a + n <= |m| && k < n
    ensures Limit(k) > 0 && Word(m, a, n) / Limit(k) % 256 == m[a + k]
    decreases n
  {
    if k > 0 {
      WordDigit(m, a + 1, n - 1, k - 1);
      var rest := Word(m, a + 1, n - 1);
      ShiftedDigit(m[a], rest, Limit(k - 1));
    }
  }

  lemma ShiftedDigit(low: Byte, rest: nat, limit: nat)
    requires limit > 0
    ensures (low + 256 * rest) / (256 * limit) == rest / limit
  {
    var q, r := rest / limit, rest % limit;
    assert low + 256 * rest == q * (256 * limit) + (low + 256 * r);
    assert 256 * r + 256 <= 256 * limit;
    Bits.DivModUnique(low + 256 * rest, 256 * limit, q, low + 256 * r);
  }

  /** Only bytes in `[lo, hi)` may differ. */
  ghost predicate OnlyChanged(m: seq<Byte>, m': seq<Byte>, lo: int, hi: int) {
    |m'| == |m| && forall k: nat :: k < |m| && !(lo <= k < hi) ==> m'[k] == m[k]
  }

  lemma {:induction false} WordFrame(m: seq<Byte>, m': seq<Byte>, a: nat, n: nat)
    requires |m| == |m'| && a + n <= |m|
    requires forall k: nat :: a <= k < a + n ==> m'[k] == m[k]
    ensures Word(m', a, n) == Word(m, a, n)
    decreases n
  {
    if n > 0 { WordFrame(m, m', a + 1, n - 1); }
  }

  /** A store of an `n`-byte word writes those bytes and no others. */
  method Store(mem: array<Byte>, a: nat, n: nat, v: nat)
    requires a + n <= mem.Length && v < Limit(n)
    modifies mem
    ensures Word(mem[..], a, n) == v
    ensures OnlyChanged(old(mem[..]), mem[..], a, a + n)
    decreases n
  {
    if n > 0 {
      mem[a] := v % 256;
      Store(mem, a + 1, n - 1, v / 256);
    }
  }
}
