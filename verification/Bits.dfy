/** Binary numbers: shifts, and bit sequences with the least significant bit first. */
module Bits {
  function Pow2(n: nat): (r: nat)
    ensures r > 0
  {
    if n == 0 then 1 else 2 * Pow2(n - 1)
  }

  /** Shifting right, and the bits that it drops. */
  function Shift(x: nat, n: nat): nat {
    if n == 0 then x else Shift(x / 2, n - 1)
  }

  function Low(x: nat, n: nat): (r: nat)
    ensures r < Pow2(n)
  {
    if n == 0 then 0 else x % 2 + 2 * Low(x / 2, n - 1)
  }

  /** The low `n` bits of one number, below all bits of another. */
  function Glue(x: nat, n: nat, high: nat): nat {
    if n == 0 then high else x % 2 + 2 * Glue(x / 2, n - 1, high)
  }

  lemma {:induction false} GlueIs(x: nat, n: nat, high: nat)
    ensures Glue(x, n, high) == Low(x, n) + Pow2(n) * high
  {
    if n > 0 {
      GlueIs(x / 2, n - 1, high);
      assert 2 * (Pow2(n - 1) * high) == Pow2(n) * high;
    } else {
      assert Pow2(0) * high == high;
    }
  }

  /** The two parts can be read off. */
  lemma {:induction false} GlueParts(x: nat, n: nat, high: nat)
    ensures Shift(Glue(x, n, high), n) == high && Low(Glue(x, n, high), n) == Low(x, n)
  {
    if n > 0 {
      GlueParts(x / 2, n - 1, high);
      assert Glue(x, n, high) / 2 == Glue(x / 2, n - 1, high) && Glue(x, n, high) % 2 == x % 2;
    }
  }

  lemma {:induction false} GlueSelf(x: nat, n: nat)
    ensures Glue(x, n, Shift(x, n)) == x
  {
    if n > 0 {
      GlueSelf(x / 2, n - 1);
    }
  }

  lemma {:induction false} GlueLow(x: nat, n: nat, high: nat)
    ensures Glue(Low(x, n), n, high) == Glue(x, n, high)
  {
    if n > 0 {
      GlueLow(x / 2, n - 1, high);
      assert Low(x, n) / 2 == Low(x / 2, n - 1) && Low(x, n) % 2 == x % 2;
    }
  }

  lemma {:induction false} LowSmall(x: nat, n: nat)
    requires x < Pow2(n)
    ensures Low(x, n) == x
  {
    if n > 0 {
      LowSmall(x / 2, n - 1);
    }
  }

  /** Shifting is dividing, and the bits dropped are the remainder. */
  lemma {:induction false} ShiftIs(x: nat, n: nat)
    ensures Shift(x, n) == x / Pow2(n) && Low(x, n) == x % Pow2(n)
  {
    GlueSelf(x, n);
    GlueIs(x, n, Shift(x, n));
    Quotient(x, Pow2(n), Shift(x, n), Low(x, n));
  }

  lemma Quotient(x: nat, d: nat, q: nat, r: nat)
    requires r < d && x == r + d * q
    ensures x / d == q && x % d == r
  {
    var q' := x / d;
    assert d * (q' - q) == r - x % d;
    assert q' - q >= 1 ==> d * (q' - q) >= d;
    assert q' - q <= -1 ==> d * (q' - q) <= 0 - d;
  }

  lemma {:induction false} ShiftAdd(x: nat, a: nat, b: nat)
    ensures Shift(x, a + b) == Shift(Shift(x, a), b)
  {
    if a > 0 {
      ShiftAdd(x / 2, a - 1, b);
    }
  }

  function Value(bits: seq<bool>): (v: nat) {
    if bits == [] then 0 else (if bits[0] then 1 else 0) + 2 * Value(bits[1..])
  }

  /** The low `w` bits of `n`. */
  function BitsOf(n: nat, w: nat): (r: seq<bool>)
    ensures |r| == w
  {
    if w == 0 then [] else [n % 2 == 1] + BitsOf(n / 2, w - 1)
  }

  predicate BitAt(n: nat, i: nat) {
    Shift(n, i) % 2 == 1
  }

  lemma {:induction false} BitsOfAt(n: nat, w: nat, i: nat)
    requires i < w
    ensures BitsOf(n, w)[i] == BitAt(n, i)
  {
    if i > 0 {
      BitsOfAt(n / 2, w - 1, i - 1);
    }
  }

  lemma {:induction false} ValueConcat(a: seq<bool>, b: seq<bool>)
    ensures Value(a + b) == Glue(Value(a), |a|, Value(b))
  {
    if a == [] {
      assert a + b == b;
    } else {
      assert (a + b)[1..] == a[1..] + b;
      ValueConcat(a[1..], b);
    }
  }

  /** The bits of a number below two to the width have that number as their value. */
  lemma {:induction false} ValueOfBits(n: nat, w: nat)
    requires n < Pow2(w)
    ensures Value(BitsOf(n, w)) == n
  {
    if w > 0 {
      ValueOfBits(n / 2, w - 1);
      assert BitsOf(n, w)[1..] == BitsOf(n / 2, w - 1);
    }
  }

  /** Shifting a number right drops the low bits of its sequence. */
  lemma {:induction false} ValueSplit(bits: seq<bool>, k: nat)
    requires k <= |bits|
    ensures Shift(Value(bits), k) == Value(bits[k..])
    ensures Low(Value(bits), k) == Value(bits[..k])
  {
    if k == 0 {
      assert bits[0..] == bits;
    } else {
      ValueSplit(bits[1..], k - 1);
      assert bits[1..][k - 1..] == bits[k..] && bits[1..][..k - 1] == bits[..k][1..];
    }
  }
}
