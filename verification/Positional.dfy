/** Positional notation: the value of a digit sequence in a base, most significant digit first. */
module Positional {

  function Pow(b: int, e: nat): int
  {
    if e == 0 then 1 else b * Pow(b, e - 1)
  }

  lemma {:induction false} PowPositive(b: int, e: nat)
    requires b > 0
    ensures Pow(b, e) > 0
  {
    if e > 0 {
      PowPositive(b, e - 1);
      MulLeq(1, b, 1, Pow(b, e - 1));
    }
  }

  lemma MulLeq(a: int, b: int, c: int, d: int)
    requires 0 <= a <= b && 0 <= c <= d
    ensures a * c <= b * d
  {
    assert a * c <= b * c <= b * d;
  }

  lemma MulLess(a: int, b: int, c: int, d: int)
    requires 0 <= a < b && 0 < c <= d
    ensures a * c < b * d
  {
    assert a * c < b * c <= b * d;
  }

  lemma MulAssociative(a: int, b: int, c: int)
    ensures a * (b * c) == (a * b) * c
  {
  }

  lemma DivMod(v: nat, base: nat)
    requires base > 0
    ensures 0 <= v / base <= v && 0 <= v % base < base && v / base * base + v % base == v
    ensures v > 0 && base > 1 ==> v / base < v
  {
    var q, r := v / base, v % base;
    assert q * base + r == v;
    if q < 0 { MulLeq(1, -q, base, base); assert false; }
    MulLeq(q, q, 1, base);
    if base > 1 { MulLeq(q, q, 2, base); }
  }

  lemma {:induction false} PowAdd(b: int, m: nat, n: nat)
    ensures Pow(b, m + n) == Pow(b, m) * Pow(b, n)
  {
    if m > 0 {
      PowAdd(b, m - 1, n);
      MulAssociative(b, Pow(b, m - 1), Pow(b, n));
    }
  }

  lemma {:induction false} PowMul(b: int, m: nat, n: nat)
    ensures 0 <= m * n && Pow(b, m * n) == Pow(Pow(b, m), n)
  {
    if n > 0 {
      PowMul(b, m, n - 1);
      assert m * n == m + m * (n - 1);
      PowAdd(b, m, m * (n - 1));
    }
  }

  lemma {:induction false} PowMonotone(b: int, m: nat, n: nat)
    requires b > 0 && m <= n
    ensures 0 < Pow(b, m) <= Pow(b, n)
  {
    PowPositive(b, m);
    if m < n {
      PowMonotone(b, m, n - 1);
      MulLeq(1, b, Pow(b, n - 1), Pow(b, n - 1));
    }
  }

  lemma {:induction false} PowBaseMonotone(a: int, b: int, e: nat)
    requires 0 < a <= b
    ensures 0 < Pow(a, e) <= Pow(b, e)
    ensures a < b && e > 0 ==> Pow(a, e) < Pow(b, e)
  {
    if e > 0 {
      PowBaseMonotone(a, b, e - 1);
      MulLeq(1, a, 1, Pow(a, e - 1));
      MulLeq(a, b, Pow(a, e - 1), Pow(b, e - 1));
      if a < b {
        MulLess(a, b, Pow(a, e - 1), Pow(b, e - 1));
      }
    }
  }

  /** The number that `ds` denotes in base `base`, most significant digit first. */
  function Value(base: nat, ds: seq<nat>): nat
  {
    if |ds| == 0 then 0 else Value(base, ds[..|ds| - 1]) * base + ds[|ds| - 1]
  }

  ghost predicate AreDigits(base: nat, ds: seq<nat>)
  {
    forall i :: 0 <= i < |ds| ==> ds[i] < base
  }

  lemma {:induction false} ValueConcat(base: nat, hi: seq<nat>, lo: seq<nat>)
    ensures Value(base, hi + lo) == Value(base, hi) * Pow(base, |lo|) + Value(base, lo)
  {
    if |lo| == 0 {
      assert hi + lo == hi;
    } else {
      var lo' := lo[..|lo| - 1];
      assert (hi + lo)[..|hi + lo| - 1] == hi + lo';
      ValueConcat(base, hi, lo');
      DistributeShift(Value(base, hi), Pow(base, |lo'|), Value(base, lo'), base);
    }
  }

  lemma DistributeShift(h: int, p: int, l: int, base: int)
    ensures (h * p + l) * base == h * (base * p) + l * base
  {
  }

  lemma ValueCons(base: nat, d: nat, lo: seq<nat>)
    ensures Value(base, [d] + lo) == d * Pow(base, |lo|) + Value(base, lo)
  {
    ValueConcat(base, [d], lo);
    assert Value(base, [d]) == d by { assert [d][..0] == []; }
  }

  lemma {:induction false} ValueBound(base: nat, ds: seq<nat>)
    requires AreDigits(base, ds)
    ensures Value(base, ds) < Pow(base, |ds|)
  {
    if |ds| > 0 {
      var init := ds[..|ds| - 1];
      ValueBound(base, init);
      var v, p := Value(base, init), Pow(base, |init|);
      assert v * base + base <= base * p by { MulLeq(v + 1, p, base, base); }
    }
  }

  /** Digits of one length are determined by the value they denote. */
  lemma {:induction false} ValueInjective(base: nat, ds: seq<nat>, es: seq<nat>)
    requires AreDigits(base, ds) && AreDigits(base, es)
    requires |ds| == |es| && Value(base, ds) == Value(base, es)
    ensures ds == es
  {
    if |ds| > 0 {
      var n := |ds| - 1;
      LastDigit(base, Value(base, ds[..n]), ds[n], Value(base, es[..n]), es[n]);
      ValueInjective(base, ds[..n], es[..n]);
      assert ds == ds[..n] + [ds[n]] && es == es[..n] + [es[n]];
    }
  }

  lemma LastDigit(base: nat, q: int, r: nat, q': int, r': nat)
    requires q * base + r == q' * base + r' && r < base && r' < base
    ensures q == q' && r == r'
  {
    assert (q - q') * base == r' - r && (q' - q) * base == r - r';
    if q > q' { MulLeq(1, q - q', base, base); assert false; }
    if q < q' { MulLeq(1, q' - q, base, base); assert false; }
  }

  function Zeros(n: nat): (zs: seq<nat>)
    ensures |zs| == n && forall i :: 0 <= i < n ==> zs[i] == 0
  {
    seq(n, _ => 0)
  }

  lemma {:induction false} ValueZeros(base: nat, n: nat)
    ensures Value(base, Zeros(n)) == 0
  {
    if n > 0 {
      ValueZeros(base, n - 1);
      assert Zeros(n)[..n - 1] == Zeros(n - 1);
    }
  }

  lemma ValueLeadingZeros(base: nat, n: nat, ds: seq<nat>)
    ensures Value(base, Zeros(n) + ds) == Value(base, ds)
  {
    ValueZeros(base, n);
    ValueConcat(base, Zeros(n), ds);
  }

  /** How many zeros `ds` starts with. */
  function LeadingZeros(ds: seq<nat>): (n: nat)
    ensures n <= |ds|
  {
    if |ds| > 0 && ds[0] == 0 then 1 + LeadingZeros(ds[1..]) else 0
  }

  lemma {:induction false} LeadingZerosAre(ds: seq<nat>)
    ensures var n := LeadingZeros(ds);
      (forall i :: 0 <= i < n ==> ds[i] == 0) && (n < |ds| ==> ds[n] != 0)
  {
    if |ds| > 0 && ds[0] == 0 {
      LeadingZerosAre(ds[1..]);
      assert forall i :: 1 <= i < |ds| ==> ds[i] == ds[1..][i - 1];
    }
  }

  lemma {:induction false} LeadingZerosUnique(ds: seq<nat>, n: nat)
    requires n <= |ds|
    requires forall i :: 0 <= i < n ==> ds[i] == 0
    requires n < |ds| ==> ds[n] != 0
    ensures LeadingZeros(ds) == n
  {
    if |ds| > 0 && ds[0] == 0 {
      LeadingZerosUnique(ds[1..], n - 1);
    }
  }

  lemma LeadingZerosConcat(n: nat, ds: seq<nat>)
    ensures LeadingZeros(Zeros(n) + ds) == n + LeadingZeros(ds)
  {
    LeadingZerosAre(ds);
    LeadingZerosUnique(Zeros(n) + ds, n + LeadingZeros(ds));
  }

  lemma SplitZeros(ds: seq<nat>, n: nat)
    requires n <= LeadingZeros(ds)
    ensures ds == Zeros(n) + ds[n..]
  {
    LeadingZerosAre(ds);
  }

  lemma ValueStripZeros(base: nat, ds: seq<nat>)
    ensures Value(base, ds[LeadingZeros(ds)..]) == Value(base, ds)
  {
    var n := LeadingZeros(ds);
    SplitZeros(ds, n);
    ValueLeadingZeros(base, n, ds[n..]);
  }

  /** A nonzero leading digit puts the value at or above a power of the base. */
  lemma ValueLowerBound(base: nat, ds: seq<nat>)
    requires base > 0 && |ds| > 0 && ds[0] > 0
    ensures Value(base, ds) >= Pow(base, |ds| - 1)
  {
    assert ds == [ds[0]] + ds[1..];
    ValueCons(base, ds[0], ds[1..]);
    PowPositive(base, |ds| - 1);
    MulLeq(1, ds[0], Pow(base, |ds| - 1), Pow(base, |ds| - 1));
  }

  /** The `n` low digits of `v`. */
  function ToDigits(base: nat, v: nat, n: nat): (ds: seq<nat>)
    requires base > 0
    ensures |ds| == n && AreDigits(base, ds)
    decreases n
  {
    if n == 0 then [] else DivMod(v, base); ToDigits(base, v / base, n - 1) + [v % base]
  }

  lemma {:induction false} ToDigitsValue(base: nat, v: nat, n: nat)
    requires base > 0 && v < Pow(base, n)
    ensures Value(base, ToDigits(base, v, n)) == v
  {
    if n > 0 {
      DivMod(v, base);
      QuotientBelow(v, base, Pow(base, n - 1));
      ToDigitsValue(base, v / base, n - 1);
      assert ToDigits(base, v, n)[..n - 1] == ToDigits(base, v / base, n - 1);
    }
  }

  lemma QuotientBelow(v: nat, base: nat, p: nat)
    requires base > 0 && v < base * p
    ensures v / base < p
  {
    DivMod(v, base);
    if v / base >= p { MulLeq(p, v / base, base, base); }
  }

  lemma ToDigitsUnique(base: nat, ds: seq<nat>)
    requires base > 0 && AreDigits(base, ds)
    ensures ToDigits(base, Value(base, ds), |ds|) == ds
  {
    ValueBound(base, ds);
    ToDigitsValue(base, Value(base, ds), |ds|);
    ValueInjective(base, ToDigits(base, Value(base, ds), |ds|), ds);
  }

  /** The shortest digits of `v`: none for zero, otherwise no leading zero. */
  function Minimal(base: nat, v: nat): (ds: seq<nat>)
    requires base > 1
    ensures AreDigits(base, ds)
    ensures |ds| > 0 ==> ds[0] != 0
    ensures v > 0 ==> |ds| > 0
  {
    if v == 0 then [] else DivMod(v, base); Minimal(base, v / base) + [v % base]
  }

  lemma {:induction false} MinimalValue(base: nat, v: nat)
    requires base > 1
    ensures Value(base, Minimal(base, v)) == v
  {
    if v > 0 {
      DivMod(v, base);
      MinimalValue(base, v / base);
      var ds := Minimal(base, v);
      assert ds[..|ds| - 1] == Minimal(base, v / base);
    }
  }

  /** Digits without a leading zero are the shortest digits of their value. */
  lemma MinimalUnique(base: nat, ds: seq<nat>)
    requires base > 1 && AreDigits(base, ds) && (|ds| > 0 ==> ds[0] != 0)
    ensures Minimal(base, Value(base, ds)) == ds
  {
    var ms := Minimal(base, Value(base, ds));
    MinimalValue(base, Value(base, ds));
    SameValueSameLength(base, ms, ds);
    SameValueSameLength(base, ds, ms);
    ValueInjective(base, ms, ds);
  }

  /** A value below a power of the base has no more digits than the exponent. */
  lemma MinimalBound(base: nat, v: nat, n: nat)
    requires base > 1 && v < Pow(base, n)
    ensures |Minimal(base, v)| <= n
  {
    var ds := Minimal(base, v);
    if |ds| > n {
      assert v >= Pow(base, |ds| - 1) by { MinimalValue(base, v); ValueLowerBound(base, ds); }
      PowMonotone(base, n, |ds| - 1);
    }
  }

  /** The shortest digits of a value are any digits of it, stripped of leading zeros. */
  lemma MinimalStripsZeros(base: nat, ds: seq<nat>)
    requires base > 1 && AreDigits(base, ds)
    ensures Minimal(base, Value(base, ds)) == ds[LeadingZeros(ds)..]
  {
    ValueStripZeros(base, ds);
    LeadingZerosAre(ds);
    MinimalUnique(base, ds[LeadingZeros(ds)..]);
  }

  lemma SameValueSameLength(base: nat, ds: seq<nat>, es: seq<nat>)
    requires base > 1 && AreDigits(base, ds) && AreDigits(base, es)
    requires |es| > 0 ==> es[0] != 0
    requires Value(base, ds) == Value(base, es)
    ensures |es| <= |ds|
  {
    if |es| > |ds| {
      ValueLowerBound(base, es);
      ValueBound(base, ds);
      PowMonotone(base, |ds|, |es| - 1);
      assert false;
    }
  }

  // ---- Multiplying in place: `was` becomes `mul * was + add`, from the last digit to the first

  /** The digits from `k` on hold `mul * was + add` up to the carry out of them; those before are untouched. */
  ghost predicate CarriedDownTo(base: nat, mul: nat, add: nat, k: nat, carry: nat, now: seq<nat>, was: seq<nat>)
  {
    && k <= |now| == |was| && AreDigits(base, now) && now[..k] == was[..k]
    && Value(base, now[k..]) + carry * Pow(base, |now| - k) == mul * Value(base, was[k..]) + add
  }

  lemma CarriedNothing(base: nat, mul: nat, add: nat, ds: seq<nat>)
    requires AreDigits(base, ds)
    ensures CarriedDownTo(base, mul, add, |ds|, add, ds, ds)
  {
    assert ds[|ds|..] == [];
  }

  /** Digit `k` and the carry into it are replaced by the low digit `r` and the carry `q` out of it. */
  lemma CarryStep(base: nat, mul: nat, add: nat, k: nat, carry: nat, now: seq<nat>, was: seq<nat>, q: nat, r: nat)
    requires k < |now| && CarriedDownTo(base, mul, add, k + 1, carry, now, was)
    requires q * base + r == carry + mul * now[k] && r < base
    ensures CarriedDownTo(base, mul, add, k, q, now[k := r], was)
  {
    var done, rest, p := now[k + 1..], was[k + 1..], Pow(base, |now| - k - 1);
    ValueCons(base, r, done);
    ValueCons(base, now[k], rest);
    assert now[k := r][k..] == [r] + done && was[k..] == [now[k]] + rest;
    assert Pow(base, |now| - k) == base * p;
    CarryArithmetic(base, mul, carry, now[k], add, p, Value(base, done), Value(base, rest), q, r);
  }

  lemma CarryArithmetic(base: int, m: int, c: int, x: int, b: int, p: int, done: int, was: int, q: int, r: int)
    requires q * base + r == c + m * x
    requires done + c * p == m * was + b
    ensures r * p + done + q * (base * p) == m * (x * p + was) + b
  {
    calc {
      r * p + done + q * (base * p);
      (q * base + r) * p + done;
      (c + m * x) * p + done;
      c * p + m * (x * p) + done;
      m * (x * p) + m * was + b;
      m * (x * p + was) + b;
    }
  }

  /** A carry out of the first digit is needed exactly when the result outgrows the digits. */
  lemma NoCarry(low: nat, carry: nat, p: nat, total: nat)
    requires low + carry * p == total && (carry == 0 || total < p)
    ensures low == total
  {
    if carry > 0 {
      MulLeq(1, carry, p, p);
    } else {
      assert carry * p == 0;
    }
  }
}
