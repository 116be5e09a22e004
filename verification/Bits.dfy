/** Numbers as strings of bits, lowest first: what shifting and masking an accumulator amounts to. */
module Bits {
  function Pow2(n: nat): (p: nat)
    ensures p > 0
  {
    if n == 0 then 1 else 2 * Pow2(n - 1)
  }

  function Value(bits: seq<bool>): nat {
    if bits == [] then 0 else (if bits[0] then 1 else 0) + 2 * Value(bits[1..])
  }

  function ToBits(v: nat, n: nat): (bits: seq<bool>)
    ensures |bits| == n
  {
    if n == 0 then [] else [v % 2 == 1] + ToBits(v / 2, n - 1)
  }

  /** Bitwise or. */
  function Or(a: nat, b: nat): nat
    decreases a + b
  {
    if a == 0 then b
    else if b == 0 then a
    else (if a % 2 == 1 || b % 2 == 1 then 1 else 0) + 2 * Or(a / 2, b / 2)
  }

  lemma {:induction false} ToBitsHasValue(v: nat, n: nat)
    requires v < Pow2(n)
    ensures Value(ToBits(v, n)) == v
  {
    if n > 0 {
      ToBitsHasValue(v / 2, n - 1);
      assert ToBits(v, n)[1..] == ToBits(v / 2, n - 1);
    }
  }

  lemma {:induction false} ValueHasBits(bits: seq<bool>)
    ensures ToBits(Value(bits), |bits|) == bits && Value(bits) < Pow2(|bits|)
  {
    if bits != [] {
      ValueHasBits(bits[1..]);
      assert Value(bits) / 2 == Value(bits[1..]);
      assert bits == [bits[0]] + bits[1..];
    }
  }

  lemma {:induction false} ValueConcat(a: seq<bool>, b: seq<bool>)
    ensures Value(a + b) == Value(a) + Pow2(|a|) * Value(b)
  {
    if a == [] {
      assert a + b == b;
    } else {
      ValueConcat(a[1..], b);
      assert (a + b)[1..] == a[1..] + b;
      DoubleOut(Pow2(|a| - 1), Value(b));
    }
  }

  lemma DoubleOut(p: nat, v: nat)
    ensures 2 * (p * v) == (2 * p) * v
  {
  }

  /** Putting bits above the ones an accumulator holds is adding them in their place. */
  lemma {:induction false} OrAbove(a: nat, b: nat, k: nat)
    requires a < Pow2(k)
    ensures Or(a, Pow2(k) * b) == a + Pow2(k) * b
    decreases k
  {
    if k == 0 {
      assert a == 0;
    } else if a != 0 && Pow2(k) * b != 0 {
      OrAbove(a / 2, b, k - 1);
      DoubleOut(Pow2(k - 1), b);
      assert Pow2(k) * b / 2 == Pow2(k - 1) * b && Pow2(k) * b % 2 == 0;
    }
  }

  /** The low seven or eight bits of a number, and what shifting them out leaves. */
  lemma SplitValue(bits: seq<bool>, k: nat)
    requires k <= |bits| && (k == 7 || k == 8)
    ensures Value(bits[..k]) == Value(bits) % (if k == 7 then 128 else 256)
    ensures Value(bits[k..]) == Value(bits) / (if k == 7 then 128 else 256)
  {
    hide Value, Pow2;
    ValueConcat(bits[..k], bits[k..]);
    assert bits[..k] + bits[k..] == bits;
    ValueHasBits(bits[..k]);
    PowersOfTwo();
    ShiftedOut(Value(bits), Value(bits[k..]), Value(bits[..k]), Pow2(k));
  }

  lemma ShiftedOut(n: nat, high: nat, low: nat, p: nat)
    requires (p == 128 || p == 256) && low < p && n == low + p * high
    ensures n % p == low && n / p == high
  {
    if p == 128 {
      SevenBitsOut(n, high, low);
    } else {
      EightBitsOut(n, high, low);
    }
  }

  lemma SevenBitsOut(n: nat, high: nat, low: nat)
    requires low < 128 && n == low + 128 * high
    ensures n % 128 == low && n / 128 == high
  {
  }

  lemma EightBitsOut(n: nat, high: nat, low: nat)
    requires low < 256 && n == low + 256 * high
    ensures n % 256 == low && n / 256 == high
  {
  }

  lemma PowersOfTwo()
    ensures Pow2(7) == 128 && Pow2(8) == 256 && Pow2(14) == 0x4000 && Pow2(15) == 0x8000
  {
    assert Pow2(3) == 8 && Pow2(5) == 32;
    assert Pow2(9) == 512 && Pow2(11) == 2048 && Pow2(13) == 8192;
  }

  // ----- Streams of equal-width numbers -------------------------------------------

  /** The numbers' bits one after another, `w` bits each. */
  function Stream(xs: seq<nat>, w: nat): seq<bool> {
    if xs == [] then [] else ToBits(xs[0], w) + Stream(xs[1..], w)
  }

  lemma {:induction false} StreamLength(xs: seq<nat>, w: nat)
    ensures |Stream(xs, w)| == w * |xs|
  {
    if xs != [] {
      StreamLength(xs[1..], w);
      WidthSplits(w, |xs|);
    }
  }

  lemma WidthSplits(w: nat, n: nat)
    requires n > 0
    ensures w * n == w + w * (n - 1)
  {
  }

  lemma {:induction false} StreamAt(xs: seq<nat>, w: nat, k: nat)
    requires k < |xs|
    ensures w * k + w <= |Stream(xs, w)|
    ensures Stream(xs, w)[w * k..w * k + w] == ToBits(xs[k], w)
  {
    hide ToBits;
    if k == 0 {
      assert w * 0 == 0;
    } else {
      WidthSplits(w, k);
      StreamAt(xs[1..], w, k - 1);
      var rest := Stream(xs[1..], w);
      assert Stream(xs, w)[w..] == rest;
      assert Stream(xs, w)[w * k..w * k + w] == rest[w * (k - 1)..w * (k - 1) + w];
    }
  }

  lemma {:induction false} StreamConcat(xs: seq<nat>, ys: seq<nat>, w: nat)
    ensures Stream(xs + ys, w) == Stream(xs, w) + Stream(ys, w)
  {
    hide ToBits;
    if xs == [] {
      assert xs + ys == ys;
    } else {
      StreamConcat(xs[1..], ys, w);
      assert (xs + ys)[1..] == xs[1..] + ys;
      assert (xs + ys)[0] == xs[0];
      Associates(ToBits(xs[0], w), Stream(xs[1..], w), Stream(ys, w));
    }
  }

  lemma Associates(a: seq<bool>, b: seq<bool>, c: seq<bool>)
    ensures a + (b + c) == (a + b) + c
  {
  }
}
