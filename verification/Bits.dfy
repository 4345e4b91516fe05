/** Bitwise operators of C on unsigned integers, defined bit by bit, and the
    arithmetic they stand for when one operand is a mask or a set of flag bits. */
module Bits {

  /** The number of 64-bit and of 32-bit values. */
  const WORD: nat := 0x1_0000_0000_0000_0000
  const DWORD: nat := 0x1_0000_0000

  /** Unsigned 64-bit addition, with its wrap-around. */
  function Add64(x: nat, y: nat): nat {
    (x + y) % WORD
  }

  lemma NoWrap(x: nat, y: nat)
    requires x + y < WORD
    ensures Add64(x, y) == x + y
  {
  }

  function Pow2(k: nat): (r: nat)
    ensures r >= 1
  {
    if k == 0 then 1 else 2 * Pow2(k - 1)
  }

  /** `x & y` */
  function And(x: nat, y: nat): nat {
    if x == 0 || y == 0 then 0 else 2 * And(x / 2, y / 2) + (if x % 2 == 1 && y % 2 == 1 then 1 else 0)
  }

  /** `x & ~y` */
  function AndNot(x: nat, y: nat): nat {
    if x == 0 then 0 else 2 * AndNot(x / 2, y / 2) + (if x % 2 == 1 && y % 2 == 0 then 1 else 0)
  }

  /** `x | y` */
  function Or(x: nat, y: nat): nat
    decreases x + y
  {
    if x == 0 then y
    else if y == 0 then x
    else 2 * Or(x / 2, y / 2) + (if x % 2 == 1 || y % 2 == 1 then 1 else 0)
  }

  ghost predicate IsPow2(a: nat) {
    exists k: nat :: a == Pow2(k)
  }

  lemma MulGap(q: nat, q': nat, d: nat)
    requires q < q'
    ensures q * d + d <= q' * d
  {
    assert q' * d == q * d + (q' - q) * d;
    assert (q' - q) * d == (q' - q - 1) * d + d;
  }

  lemma DivModUnique(x: nat, d: nat, q: nat, r: nat)
    requires r < d && x == q * d + r
    ensures x / d == q && x % d == r
  {
    if x / d < q {
      MulGap(x / d, q, d);
    } else if q < x / d {
      MulGap(q, x / d, d);
    }
  }

  /** Splitting the lowest bit off a remainder by an even divisor. */
  lemma ModDouble(x: nat, m: nat)
    requires m > 0
    ensures x % (2 * m) == 2 * ((x / 2) % m) + x % 2
  {
    var q, r := (x / 2) / m, (x / 2) % m;
    assert x / 2 == q * m + r;
    assert x == q * (2 * m) + (2 * r + x % 2);
    DivModUnique(x, 2 * m, q, 2 * r + x % 2);
  }

  lemma OddHalf(m: nat)
    requires m > 0
    ensures (2 * m - 1) / 2 == m - 1 && (2 * m - 1) % 2 == 1
  {
  }

  lemma {:induction false} AndMask(x: nat, k: nat)
    ensures And(x, Pow2(k) - 1) == x % Pow2(k)
  {
    if k == 0 {
    } else if x == 0 {
    } else {
      var m := Pow2(k - 1);
      OddHalf(m);
      AndMask(x / 2, k - 1);
      ModDouble(x, m);
    }
  }

  lemma {:induction false} AndNotZero(x: nat)
    ensures AndNot(x, 0) == x
  {
    if x != 0 { AndNotZero(x / 2); }
  }

  lemma {:induction false} AndNotMask(x: nat, k: nat)
    ensures AndNot(x, Pow2(k) - 1) == x - x % Pow2(k)
  {
    if k == 0 {
      AndNotZero(x);
    } else if x == 0 {
    } else {
      var m := Pow2(k - 1);
      OddHalf(m);
      AndNotMask(x / 2, k - 1);
      ModDouble(x, m);
    }
  }

  lemma {:induction false} OrDisjoint(x: nat, f: nat, k: nat)
    requires x % Pow2(k) == 0 && f < Pow2(k)
    ensures Or(x, f) == x + f
  {
    if k == 0 || x == 0 || f == 0 {
    } else {
      ModDouble(x, Pow2(k - 1));
      OrDisjoint(x / 2, f / 2, k - 1);
    }
  }

  /** Flags added to an aligned value stay in its low bits. */
  lemma {:induction false} OrLow(x: nat, f: nat, g: nat, k: nat)
    requires x % Pow2(k) == 0 && f < Pow2(k) && g < Pow2(k)
    ensures Or(x + f, g) == x + Or(f, g) && Or(f, g) < Pow2(k)
  {
    if k == 0 || f == 0 || g == 0 {
      OrDisjoint(x, g, k);
    } else {
      ModDouble(x, Pow2(k - 1));
      OrLow(x / 2, f / 2, g / 2, k - 1);
    }
  }

  /** Rounding up to a power of two, the way C code writes it: `(x + a - 1) & ~(a - 1)`. */
  lemma RoundUp(x: nat, a: nat)
    requires IsPow2(a)
    ensures var r := AndNot(x + a - 1, a - 1);
            r % a == 0 && x <= r < x + a
  {
    var k: nat :| a == Pow2(k);
    hide *;
    var y := x + a - 1;
    AndNotMask(y, k);
    MultipleBelow(y, a, AndNot(y, a - 1));
  }

  lemma MultipleBelow(y: nat, a: nat, r: nat)
    requires a > 0 && r == y - y % a
    ensures r % a == 0 && y - a < r <= y
  {
    assert y == (y / a) * a + y % a;
    DivModUnique(r, a, y / a, 0);
  }
}
