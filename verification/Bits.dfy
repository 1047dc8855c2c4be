/** Clearing the low bits of a number and of its base-2^w digits. */
module Bits {

  function Pow2(n: nat): (p: nat)
    ensures p > 0
  {
    if n == 0 then 1 else 2 * Pow2(n - 1)
  }

  lemma {:induction false} Pow2Add(a: nat, b: nat)
    ensures Pow2(a + b) == Pow2(a) * Pow2(b)
  {
    if a > 0 {
      Pow2Add(a - 1, b);
    }
  }

  lemma {:induction false} Pow2Monotone(a: nat, b: nat)
    requires a <= b
    ensures Pow2(a) <= Pow2(b) && (a < b ==> Pow2(a) < Pow2(b))
  {
    if a < b {
      Pow2Monotone(a, b - 1);
    }
  }

  lemma Pow2Values()
    ensures Pow2(8) == 256 && Pow2(16) == 65536
  {
  }

  lemma MulMonotone(a: nat, b: nat, p: nat)
    requires a <= b
    ensures a * p <= b * p && p * a <= p * b
  {
  }

  lemma SmallMultiple(k: int, p: int, x: int)
    requires p > 0 && k * p == x && -p < x < p
    ensures k == 0
  {
  }

  lemma DivModUnique(n: int, p: int, q: int, r: int)
    requires p > 0 && n == q * p + r && 0 <= r < p
    ensures n / p == q && n % p == r
  {
    var a, b := n / p, n % p;
    assert (a - q) * p == r - b by {
      assert n == a * p + b;
    }
    SmallMultiple(a - q, p, r - b);
  }

  lemma ModAtMost(n: nat, p: nat)
    requires p > 0
    ensures n % p <= n
  {
  }

  /** Clears the `low` low-order bits of `n`. */
  function ClearLow(n: nat, low: nat): (r: nat)
    ensures r <= n
  {
    ModAtMost(n, Pow2(low));
    n - n % Pow2(low)
  }

  function Clamp(x: int, high: nat): (k: nat)
    ensures k <= high
  {
    if x < 0 then 0 else if x > high then high else x
  }

  /** Keeps the first `n` bits of the bit string whose `w`-bit digits are `ds`. */
  function KeepBits(ds: seq<nat>, w: nat, n: nat): (r: seq<nat>)
    ensures |r| == |ds| && forall i :: 0 <= i < |ds| ==> r[i] <= ds[i]
  {
    seq(|ds|, i requires 0 <= i < |ds| => ClearLow(ds[i], w - Clamp(n - w * i, w)))
  }

  /** The number whose base-2^w digits, most significant first, are `ds`. */
  function ToNat(ds: seq<nat>, w: nat): nat {
    if ds == [] then 0 else ToNat(ds[..|ds| - 1], w) * Pow2(w) + ds[|ds| - 1]
  }

  ghost predicate Below(ds: seq<nat>, bound: nat) {
    forall i :: 0 <= i < |ds| ==> ds[i] < bound
  }

  // ---------------------------------------------------------------- division

  lemma MulSucc(w: nat, k: nat)
    ensures w * (k + 1) == w * k + w
  {
  }

  lemma MulBelow(a: nat, q: nat, p: nat, d: nat)
    requires a < q && d < p
    ensures a * p + d < q * p
  {
    MulMonotone(a + 1, q, p);
  }

  /** Splitting off a low digit: the remainder by a multiple of the base. */
  lemma ModHigh(a: nat, d: nat, p: nat, q: nat)
    requires d < p && q > 0
    ensures p * q > 0 && (a * p + d) % (p * q) == (a % q) * p + d
    ensures (a * p + d) / (p * q) == a / q
  {
    var c, r := a / q, a % q;
    assert a == c * q + r;
    assert a * p + d == c * (p * q) + (r * p + d);
    MulBelow(r, q, p, d);
    assert p * q > 0;
    DivModUnique(a * p + d, p * q, c, r * p + d);
  }

  /** The remainder by a divisor of the base sees the low digit only. */
  lemma ModLow(a: nat, d: nat, p: nat, q: nat)
    requires p > 0 && q > 0
    ensures (a * (p * q) + d) % q == d % q
  {
    var c, r := d / q, d % q;
    assert a * (p * q) + d == (a * p + c) * q + r by {
      assert a * (p * q) == a * p * q;
    }
    DivModUnique(a * (p * q) + d, q, a * p + c, r);
  }

  // ---------------------------------------------------------------- digits

  lemma {:induction false} ToNatBound(ds: seq<nat>, w: nat)
    requires Below(ds, Pow2(w))
    ensures ToNat(ds, w) < Pow2(w * |ds|)
  {
    if ds != [] {
      var init := ds[..|ds| - 1];
      ToNatBound(init, w);
      MulSucc(w, |init|);
      Pow2Add(w * |init|, w);
      MulBelow(ToNat(init, w), Pow2(w * |init|), Pow2(w), ds[|ds| - 1]);
    }
  }

  /** Fixed-length digits are determined by the number. */
  lemma {:induction false} ToNatInjective(a: seq<nat>, b: seq<nat>, w: nat)
    requires |a| == |b| && Below(a, Pow2(w)) && Below(b, Pow2(w))
    requires ToNat(a, w) == ToNat(b, w)
    ensures a == b
  {
    if a != [] {
      var x, y := a[..|a| - 1], b[..|b| - 1];
      var n, p := ToNat(a, w), Pow2(w);
      DivModUnique(n, p, ToNat(x, w), a[|a| - 1]);
      DivModUnique(n, p, ToNat(y, w), b[|b| - 1]);
      ToNatInjective(x, y, w);
      assert a == x + [a[|a| - 1]] && b == y + [b[|b| - 1]];
    }
  }

  lemma Distribute(x: nat, q: nat, y: nat, p: nat)
    ensures (x * q + y) * p == x * (q * p) + y * p
  {
  }

  lemma {:induction false} ToNatSplit(a: seq<nat>, b: seq<nat>, w: nat)
    ensures ToNat(a + b, w) == ToNat(a, w) * Pow2(w * |b|) + ToNat(b, w)
  {
    if b == [] {
      assert a + b == a;
    } else {
      var init, d := b[..|b| - 1], b[|b| - 1];
      assert (a + b)[..|a + b| - 1] == a + init;
      ToNatSplit(a, init, w);
      MulSucc(w, |init|);
      Pow2Add(w * |init|, w);
      Distribute(ToNat(a, w), Pow2(w * |init|), ToNat(init, w), Pow2(w));
    }
  }

  lemma {:induction false} ToNatZeros(n: nat, w: nat)
    ensures ToNat(seq(n, _ => 0), w) == 0
  {
    if n > 0 {
      assert seq(n, _ => 0)[..n - 1] == seq(n - 1, _ => 0);
      ToNatZeros(n - 1, w);
    }
  }

  lemma ClearWhole(d: nat, w: nat)
    requires d < Pow2(w)
    ensures ClearLow(d, w) == 0
  {
    DivModUnique(d, Pow2(w), 0, d);
  }

  lemma ClearLowIs(n: nat, low: nat, m: nat)
    requires n % Pow2(low) == m
    ensures ClearLow(n, low) == n - m
  {
  }

  lemma SubTimes(a: int, b: int, p: int)
    ensures (a - b) * p == a * p - b * p
  {
  }

  lemma ClearDigitAndMore(a: nat, d: nat, w: nat, more: nat)
    requires d < Pow2(w)
    ensures ClearLow(a * Pow2(w) + d, w + more) == ClearLow(a, more) * Pow2(w)
  {
    hide Pow2, ClearLow;
    var p, q := Pow2(w), Pow2(more);
    Pow2Add(w, more);
    ModHigh(a, d, p, q);
    SubTimes(a, a % q, p);
    ClearLowIs(a, more, a % q);
    ClearLowIs(a * p + d, w + more, (a % q) * p + d);
  }

  lemma ClearInDigit(a: nat, d: nat, w: nat, low: nat)
    requires low <= w
    ensures ClearLow(a * Pow2(w) + d, low) == a * Pow2(w) + ClearLow(d, low)
  {
    Pow2Add(w - low, low);
    ModLow(a, d, Pow2(w - low), Pow2(low));
  }

  lemma ModOne(n: nat)
    ensures ClearLow(n, 0) == n
  {
  }

  lemma KeepAll(ds: seq<nat>, w: nat, n: nat)
    requires n >= w * |ds|
    ensures KeepBits(ds, w, n) == ds
  {
    forall i | 0 <= i < |ds|
      ensures KeepBits(ds, w, n)[i] == ds[i]
    {
      MulSucc(w, i);
      MulMonotone(i + 1, |ds|, w);
      ModOne(ds[i]);
    }
  }

  /** Keeping the first n bits digit by digit clears the rest of the number. */
  lemma {:induction false} KeepBitsClears(ds: seq<nat>, w: nat, n: nat)
    requires Below(ds, Pow2(w)) && n <= w * |ds|
    ensures ToNat(KeepBits(ds, w, n), w) == ClearLow(ToNat(ds, w), w * |ds| - n)
  {
    if ds != [] {
      var k := |ds| - 1;
      var init, d := ds[..k], ds[k];
      var kept := KeepBits(ds, w, n);
      assert kept[..k] == KeepBits(init, w, n);
      MulSucc(w, k);
      var low := w * |ds| - n;
      if n <= w * k {
        KeepBitsClears(init, w, n);
        ClearDigitAndMore(ToNat(init, w), d, w, low - w);
        assert kept[k] == ClearLow(d, w);
        ClearWhole(d, w);
      } else {
        KeepAll(init, w, n);
        assert kept[k] == ClearLow(d, low);
        ClearInDigit(ToNat(init, w), d, w, low);
      }
    }
  }

  lemma ClearTwice(n: nat, a: nat, b: nat)
    requires a <= b
    ensures ClearLow(ClearLow(n, b), a) == ClearLow(n, b)
  {
    var p, q := Pow2(b - a), Pow2(a);
    Pow2Add(b - a, a);
    var c := n / (p * q);
    assert ClearLow(n, b) == c * (p * q) + 0;
    ModLow(c, 0, p, q);
    DivModUnique(0, q, 0, 0);
  }

  lemma KeepTwice(ds: seq<nat>, w: nat, n: nat)
    ensures KeepBits(KeepBits(ds, w, n), w, n) == KeepBits(ds, w, n)
  {
    forall i | 0 <= i < |ds|
      ensures KeepBits(KeepBits(ds, w, n), w, n)[i] == KeepBits(ds, w, n)[i]
    {
      var low := w - Clamp(n - w * i, w);
      ClearTwice(ds[i], low, low);
    }
  }
}
