/** Big-endian positional numbers: value, canonical digits, and how many digits a number needs. */
module Radix {
  function Pow(b: nat, e: nat): (p: nat)
    ensures b > 0 ==> p > 0
  {
    if e == 0 then 1 else b * Pow(b, e - 1)
  }

  lemma MulAssoc(a: int, b: int, c: int)
    ensures a * (b * c) == (a * b) * c
  {
  }

  lemma {:induction false} PowAdd(b: nat, m: nat, n: nat)
    ensures Pow(b, m + n) == Pow(b, m) * Pow(b, n)
  {
    if m > 0 {
      PowAdd(b, m - 1, n);
      MulAssoc(b, Pow(b, m - 1), Pow(b, n));
    }
  }

  lemma {:induction false} PowPow(b: nat, m: nat, n: nat)
    ensures Pow(b, m * n) == Pow(Pow(b, m), n)
  {
    if n > 0 {
      PowPow(b, m, n - 1);
      assert m * n == m + m * (n - 1);
      PowAdd(b, m, m * (n - 1));
    }
  }

  lemma MulMono(a: nat, b: nat, c: nat, d: nat)
    requires a <= b && c <= d
    ensures a * c <= b * d
  {
    assert a * c <= b * c <= b * d;
  }

  lemma {:induction false} PowMonoBase(a: nat, b: nat, n: nat)
    requires a <= b
    ensures Pow(a, n) <= Pow(b, n)
  {
    if n > 0 {
      PowMonoBase(a, b, n - 1);
      MulMono(a, b, Pow(a, n - 1), Pow(b, n - 1));
    }
  }

  lemma {:induction false} PowStrictBase(a: nat, b: nat, n: nat)
    requires a < b && n > 0
    ensures Pow(a, n) < Pow(b, n)
  {
    PowMonoBase(a, b, n - 1);
    MulMono(a, b - 1, Pow(a, n - 1), Pow(b, n - 1));
    assert (b - 1) * Pow(b, n - 1) < b * Pow(b, n - 1);
  }

  lemma {:induction false} PowMonoExp(b: nat, m: nat, n: nat)
    requires b > 0 && m <= n
    ensures Pow(b, m) <= Pow(b, n)
  {
    PowAdd(b, m, n - m);
    MulMono(Pow(b, m), Pow(b, m), 1, Pow(b, n - m));
  }

  /** A power is monotone in its base, so equal exponents let the bases be compared. */
  lemma PowRoot(x: nat, y: nat, p: nat)
    requires p > 0 && Pow(x, p) <= Pow(y, p)
    ensures x <= y
  {
    if y < x {
      PowStrictBase(y, x, p);
    }
  }

  lemma PowSwap(b: nat, m: nat, n: nat)
    ensures Pow(Pow(b, m), n) == Pow(Pow(b, n), m)
  {
    PowPow(b, m, n);
    PowPow(b, n, m);
    assert m * n == n * m;
  }

  lemma PowBetween(b: nat, q: nat, n: nat, p: nat, k: nat)
    requires b > 0 && q * n <= p * k
    ensures Pow(Pow(b, q), n) <= Pow(Pow(b, p), k)
  {
    hide *;
    PowPow(b, q, n);
    PowPow(b, p, k);
    PowMonoExp(b, q * n, p * k);
  }

  /** Comparing powers of two bases needs one numeric fact a^p <= b^q and a slope. */
  lemma PowCompare(a: nat, p: nat, b: nat, q: nat, n: nat, k: nat)
    requires b > 0 && p > 0
    requires Pow(a, p) <= Pow(b, q)
    requires q * n <= p * k
    ensures Pow(a, n) <= Pow(b, k)
  {
    hide *;
    PowSwap(a, n, p);
    PowMonoBase(Pow(a, p), Pow(b, q), n);
    PowBetween(b, q, n, p, k);
    PowSwap(b, p, k);
    PowRoot(Pow(a, n), Pow(b, k), p);
  }

  ghost predicate InBase(ds: seq<int>, base: int) {
    forall i :: 0 <= i < |ds| ==> 0 <= ds[i] < base
  }

  /** The number a big-endian digit string denotes. */
  function Value(ds: seq<int>, base: nat): int {
    if ds == [] then 0 else Value(ds[..|ds| - 1], base) * base + ds[|ds| - 1]
  }

  lemma NextDigitBound(v: nat, d: nat, base: nat, p: nat)
    requires v < p && d < base
    ensures v * base + d < base * p
  {
    MulMono(v + 1, p, base, base);
    assert (v + 1) * base == v * base + base;
  }

  lemma {:induction false} ValueBound(ds: seq<int>, base: nat)
    requires InBase(ds, base)
    ensures 0 <= Value(ds, base) < Pow(base, |ds|)
  {
    if ds != [] {
      ValueBound(ds[..|ds| - 1], base);
      MulMono(0, Value(ds[..|ds| - 1], base), base, base);
      NextDigitBound(Value(ds[..|ds| - 1], base), ds[|ds| - 1], base, Pow(base, |ds| - 1));
    }
  }

  lemma {:induction false} ValueConcat(a: seq<int>, b: seq<int>, base: nat)
    ensures Value(a + b, base) == Value(a, base) * Pow(base, |b|) + Value(b, base)
  {
    if b == [] {
      assert a + b == a;
    } else {
      var b' := b[..|b| - 1];
      ValueConcat(a, b', base);
      assert (a + b)[..|a + b| - 1] == a + b';
      assert (Value(a, base) * Pow(base, |b'|) + Value(b', base)) * base
          == Value(a, base) * (base * Pow(base, |b'|)) + Value(b', base) * base;
    }
  }

  lemma ValueCons(d: int, ds: seq<int>, base: nat)
    ensures Value([d] + ds, base) == d * Pow(base, |ds|) + Value(ds, base)
  {
    ValueConcat([d], ds, base);
    assert Value([d], base) == d by {
      assert [d][..0] == [];
    }
  }

  lemma PowStep(b: nat, e: nat)
    ensures Pow(b, 0) == 1 && Pow(b, e + 1) == b * Pow(b, e)
  {
  }

  lemma {:induction false} ValueZeros(n: nat, base: nat)
    ensures Value(seq(n, _ => 0), base) == 0
  {
    if n > 0 {
      assert seq(n, _ => 0)[..n - 1] == seq(n - 1, _ => 0);
      ValueZeros(n - 1, base);
    }
  }

  lemma ValueSkipZeros(ds: seq<int>, n: nat, base: nat)
    requires n <= |ds| && forall i :: 0 <= i < n ==> ds[i] == 0
    ensures Value(ds, base) == Value(ds[n..], base)
  {
    assert ds == seq(n, _ => 0) + ds[n..];
    ValueZeros(n, base);
    ValueConcat(seq(n, _ => 0), ds[n..], base);
  }

  lemma AllZeros(ds: seq<int>, base: nat)
    requires forall i :: 0 <= i < |ds| ==> ds[i] == 0
    ensures Value(ds, base) == 0
  {
    assert ds == seq(|ds|, _ => 0);
    ValueZeros(|ds|, base);
  }

  /** Strings of one length denoting one number are equal. */
  lemma {:induction false} ValueUnique(a: seq<int>, b: seq<int>, base: nat)
    requires |a| == |b| && InBase(a, base) && InBase(b, base)
    requires Value(a, base) == Value(b, base)
    ensures a == b
  {
    if a != [] {
      var n := |a| - 1;
      var va, vb := Value(a[..n], base), Value(b[..n], base);
      DivModUnique(va, a[n], vb, b[n], base);
      ValueUnique(a[..n], b[..n], base);
      assert a == a[..n] + [a[n]] && b == b[..n] + [b[n]];
    }
  }

  lemma DivModUnique(q: int, r: int, q': int, r': int, base: int)
    requires 0 <= r < base && 0 <= r' < base && q * base + r == q' * base + r'
    ensures q == q' && r == r'
  {
    var d := q - q';
    assert d * base == q * base - q' * base;
    if d >= 1 {
      MulMono(1, d, base, base);
    } else if d <= -1 {
      MulMono(1, -d, base, base);
    }
  }

  lemma DivFacts(n: nat, base: nat)
    requires base > 0
    ensures 0 <= n / base && 0 <= n % base < base && n == (n / base) * base + n % base
  {
    assert n == base * (n / base) + n % base;
  }

  lemma DivSmaller(n: nat, base: nat)
    requires base > 1 && n > 0
    ensures 0 <= n / base < n && 0 <= n % base < base && n == (n / base) * base + n % base
  {
    DivFacts(n, base);
    if n / base >= n {
      MulMono(n, n / base, 2, base);
    }
  }

  /** The digits of n with no leading zero; zero has none. */
  function Digits(n: nat, base: nat): (ds: seq<int>)
    requires base > 1
    ensures InBase(ds, base)
    ensures |ds| > 0 ==> ds[0] != 0
    ensures n > 0 ==> |ds| > 0
  {
    if n == 0 then []
    else
      DivSmaller(n, base);
      Digits(n / base, base) + [n % base]
  }

  lemma DigitsUnfold(n: nat, base: nat)
    requires base > 1
    ensures n / base >= 0
    ensures Digits(n, base) == if n == 0 then [] else Digits(n / base, base) + [n % base]
  {
  }

  lemma {:induction false} DigitsValue(n: nat, base: nat)
    requires base > 1
    ensures Value(Digits(n, base), base) == n
  {
    if n > 0 {
      DivSmaller(n, base);
      DigitsValue(n / base, base);
      assert Digits(n, base)[..|Digits(n, base)| - 1] == Digits(n / base, base);
    }
  }

  /** A digit string without a leading zero is the canonical one for its value. */
  lemma {:induction false} DigitsOfValue(ds: seq<int>, base: nat)
    requires base > 1 && InBase(ds, base)
    requires |ds| > 0 ==> ds[0] != 0
    ensures |ds| > 0 ==> Value(ds, base) > 0
    ensures Value(ds, base) >= 0
    ensures Digits(Value(ds, base), base) == ds
  {
    ValueBound(ds, base);
    if ds != [] {
      var n := |ds| - 1;
      var v, w := Value(ds, base), Value(ds[..n], base);
      DigitsOfValue(ds[..n], base);
      if n > 0 {
        MulMono(1, w, base, base);
      } else {
        assert ds[..n] == [];
      }
      DivSmaller(v, base);
      DivModUnique(v / base, v % base, w, ds[n], base);
      assert ds == ds[..n] + [ds[n]];
    }
  }

  /** A number that needs more than k digits has them. */
  lemma DigitsAtLeast(n: nat, base: nat, k: nat)
    requires base > 1 && Pow(base, k) <= n
    ensures |Digits(n, base)| > k
  {
    DigitsValue(n, base);
    ValueBound(Digits(n, base), base);
    if |Digits(n, base)| <= k {
      PowMonoExp(base, |Digits(n, base)|, k);
    }
  }

  lemma LeadingDigitBound(ds: seq<int>, base: nat)
    requires base > 1 && InBase(ds, base) && ds != [] && ds[0] != 0
    ensures Value(ds, base) >= Pow(base, |ds| - 1)
  {
    hide Pow, Value;
    assert ds == [ds[0]] + ds[1..];
    ValueCons(ds[0], ds[1..], base);
    ValueBound(ds[1..], base);
    MulMono(1, ds[0], Pow(base, |ds| - 1), Pow(base, |ds| - 1));
  }

  /** A number below base^k has at most k digits. */
  lemma DigitsFit(n: nat, base: nat, k: nat)
    requires base > 1 && n < Pow(base, k)
    ensures |Digits(n, base)| <= k
  {
    hide Pow, Value, Digits;
    var ds := Digits(n, base);
    if |ds| > k {
      LeadingDigitBound(ds, base);
      DigitsValue(n, base);
      PowMonoExp(base, k, |ds| - 1);
    }
  }

  // ----- Multiply-and-add from the low-order digit upwards -----

  /** The low-order digits written so far plus the carry make up mul times the digits read plus digit. */
  ghost predicate Balanced(written: seq<int>, read: seq<int>, mul: nat, base: nat, carry: nat, digit: nat) {
    Value(written, base) + carry * Pow(base, |written|) == mul * Value(read, base) + digit
  }

  lemma BalancedStart(mul: nat, base: nat, digit: nat)
    ensures Balanced([], [], mul, base, digit, digit)
  {
  }

  /** One digit of the inner loop keeps the balance between what is written and what is carried. */
  lemma BalancedStep(written: seq<int>, read: seq<int>, mul: nat, base: nat, b: nat, carry: nat, digit: nat)
    requires base > 1 && |written| == |read| && Balanced(written, read, mul, base, carry, digit)
    ensures var c := carry + mul * b;
      c >= 0 && c / base >= 0 && Balanced([c % base] + written, [b] + read, mul, base, c / base, digit)
  {
    hide Pow, Value;
    var c := carry + mul * b;
    MulMono(0, mul, 0, b);
    ValueCons(c % base, written, base);
    ValueCons(b, read, base);
    PowStep(base, |written|);
    DigitBalance(Value(written, base), Value(read, base), mul, base, Pow(base, |written|), b, carry, digit);
  }

  lemma DigitBalance(written: int, seen: int, mul: nat, base: nat, p: nat, b: nat, carry: nat, digit: nat)
    requires base > 1
    requires written + carry * p == mul * seen + digit
    ensures var c := carry + mul * b;
      ((c % base) * p + written) + (c / base) * (base * p) == mul * (b * p + seen) + digit
  {
    var c := carry + mul * b;
    assert c == (c / base) * base + c % base;
    assert c * p == ((c / base) * base + c % base) * p == (c / base) * (base * p) + (c % base) * p;
    assert c * p == carry * p + mul * (b * p);
  }

  /** The n low-order digits of v, leading zeros kept. */
  function Fixed(v: nat, base: nat, n: nat): (ds: seq<int>)
    requires base > 1
    ensures |ds| == n && InBase(ds, base)
    decreases n
  {
    if n == 0 then []
    else
      DivFacts(v, base);
      Fixed(v / base, base, n - 1) + [v % base]
  }

  lemma {:induction false} FixedValue(v: nat, base: nat, n: nat)
    requires base > 1 && v < Pow(base, n)
    ensures Value(Fixed(v, base, n), base) == v
    decreases n
  {
    if n > 0 {
      DivFacts(v, base);
      QuotientFits(v, base, Pow(base, n - 1));
      FixedValue(v / base, base, n - 1);
      assert Fixed(v, base, n)[..n - 1] == Fixed(v / base, base, n - 1);
    }
  }

  lemma QuotientFits(v: nat, base: nat, p: nat)
    requires base > 0 && v < base * p
    ensures v / base < p
  {
    DivFacts(v, base);
    if v / base >= p {
      MulMono(base, base, p, v / base);
    }
  }
}
