// Numbers written in different bases, most significant digit first, and the
// conversion that keeps leading zeros.
module Radix {
  function Pow(b: nat, n: nat): nat {
    if n == 0 then 1 else b * Pow(b, n - 1)
  }

  predicate IsNumeral(s: seq<nat>, base: nat) {
    forall i | 0 <= i < |s| :: s[i] < base
  }

  function Val(s: seq<nat>, base: nat): nat {
    if s == [] then 0 else Val(s[..|s| - 1], base) * base + s[|s| - 1]
  }

  function Zeros(n: nat): seq<nat> {
    seq(n, _ => 0)
  }

  function LeadingZeros(s: seq<nat>): nat {
    if s != [] && s[0] == 0 then 1 + LeadingZeros(s[1..]) else 0
  }

  // The shortest numeral of n.
  function Canonical(n: nat, base: nat): seq<nat>
    requires base >= 2
  {
    if n == 0 then [] else Canonical(n / base, base) + [n % base]
  }

  // The numeral of the same number in another base, each leading zero of the
  // one becoming a leading zero of the other.
  function Convert(s: seq<nat>, from: nat, to: nat): seq<nat>
    requires to >= 2
  {
    Zeros(LeadingZeros(s)) + Canonical(Val(s, from), to)
  }

  lemma PowPositive(b: nat, n: nat)
    requires b > 0
    ensures Pow(b, n) > 0
  {
  }

  lemma Associate(x: nat, y: nat, z: nat)
    ensures x * (y * z) == x * y * z
  {
  }

  lemma {:induction false} PowAdd(b: nat, m: nat, n: nat)
    ensures Pow(b, m + n) == Pow(b, m) * Pow(b, n)
  {
    if m > 0 {
      PowAdd(b, m - 1, n);
      Associate(b, Pow(b, m - 1), Pow(b, n));
    }
  }

  lemma {:induction false} PowMul(b: nat, m: nat, n: nat)
    ensures Pow(b, m * n) == Pow(Pow(b, m), n)
  {
    if n == 0 {
      assert m * n == 0;
    } else {
      PowMul(b, m, n - 1);
      PowAdd(b, m, m * (n - 1));
      assert m + m * (n - 1) == m * n;
    }
  }

  lemma MulMono(a: nat, b: nat, c: nat)
    requires a <= b
    ensures a * c <= b * c && c * a <= c * b
    ensures a < b && c > 0 ==> a * c < b * c && c * a < c * b
  {
  }

  lemma {:induction false} PowMonoBase(a: nat, b: nat, n: nat)
    requires a <= b
    ensures Pow(a, n) <= Pow(b, n)
    ensures a < b && n > 0 ==> Pow(a, n) < Pow(b, n)
  {
    if n > 0 {
      PowMonoBase(a, b, n - 1);
      var x, y := Pow(a, n - 1), Pow(b, n - 1);
      MulMono(x, y, a);
      MulMono(a, b, y);
      if a < b {
        PowPositive(b, n - 1);
      }
    }
  }

  lemma {:induction false} PowMonoExp(b: nat, m: nat, n: nat)
    requires b >= 1 && m <= n
    ensures Pow(b, m) <= Pow(b, n)
    ensures b >= 2 && m < n ==> Pow(b, m) < Pow(b, n)
    decreases n - m
  {
    if m < n {
      PowMonoExp(b, m, n - 1);
      PowPositive(b, n - 1);
      assert Pow(b, n) == b * Pow(b, n - 1);
      assert 1 * Pow(b, n - 1) <= b * Pow(b, n - 1);
    }
  }

  // From one comparison of powers, a^p <= b^q, to all with a fitting ratio.
  lemma RatioBound(a: nat, b: nat, p: nat, q: nat, m: nat, n: nat)
    requires a >= 1 && b >= 2 && p > 0 && Pow(a, p) <= Pow(b, q) && q * m < p * n
    ensures Pow(a, m) < Pow(b, n)
  {
    hide Pow;
    var x, y := Pow(a, m), Pow(b, n);
    assert Pow(x, p) < Pow(y, p) by {
      calc {
        Pow(x, p);
        { PowMul(a, m, p); assert m * p == p * m; PowMul(a, p, m); }
        Pow(Pow(a, p), m);
      <= { PowMonoBase(Pow(a, p), Pow(b, q), m); }
        Pow(Pow(b, q), m);
        { PowMul(b, q, m); }
        Pow(b, q * m);
      < { PowMonoExp(b, q * m, p * n); }
        Pow(b, p * n);
        { assert p * n == n * p; PowMul(b, n, p); }
        Pow(y, p);
      }
    }
    if x >= y {
      PowMonoBase(y, x, p);
    }
  }

  lemma Distribute(x: nat, p: nat, y: nat, base: nat)
    ensures (x * p + y) * base == x * (base * p) + y * base
  {
  }

  lemma {:induction false} ValConcat(a: seq<nat>, b: seq<nat>, base: nat)
    ensures Val(a + b, base) == Val(a, base) * Pow(base, |b|) + Val(b, base)
  {
    if b == [] {
      assert a + b == a;
    } else {
      var n := |b| - 1;
      ValConcat(a, b[..n], base);
      assert (a + b)[..|a + b| - 1] == a + b[..n];
      Distribute(Val(a, base), Pow(base, n), Val(b[..n], base), base);
    }
  }

  lemma ValHead(d: nat, s: seq<nat>, base: nat)
    ensures Val([d] + s, base) == d * Pow(base, |s|) + Val(s, base)
  {
    ValConcat([d], s, base);
    assert Val([d], base) == d;
  }

  lemma {:induction false} ValBound(s: seq<nat>, base: nat)
    requires IsNumeral(s, base)
    ensures Val(s, base) < Pow(base, |s|)
  {
    if s != [] {
      var n := |s| - 1;
      ValBound(s[..n], base);
      var v, p := Val(s[..n], base), Pow(base, n);
      MulMono(v + 1, p, base);
      assert (v + 1) * base == v * base + base;
    }
  }

  lemma {:induction false} ValZeros(s: seq<nat>, base: nat)
    requires forall i | 0 <= i < |s| :: s[i] == 0
    ensures Val(s, base) == 0
  {
    if s != [] {
      ValZeros(s[..|s| - 1], base);
    }
  }

  lemma {:induction false} LeadingZerosSplit(s: seq<nat>)
    ensures LeadingZeros(s) <= |s|
    ensures s[..LeadingZeros(s)] == Zeros(LeadingZeros(s))
    ensures LeadingZeros(s) < |s| ==> s[LeadingZeros(s)] != 0
  {
    if s != [] && s[0] == 0 {
      LeadingZerosSplit(s[1..]);
      var z := LeadingZeros(s[1..]);
      assert s[..z + 1] == [s[0]] + s[1..][..z];
    }
  }

  lemma {:induction false} LeadingZerosOf(z: nat, s: seq<nat>)
    requires s == [] || s[0] != 0
    ensures LeadingZeros(Zeros(z) + s) == z
  {
    if z > 0 {
      LeadingZerosOf(z - 1, s);
      assert (Zeros(z) + s)[1..] == Zeros(z - 1) + s;
    } else {
      assert Zeros(0) + s == s;
    }
  }

  lemma ValBehindZeros(z: nat, s: seq<nat>, base: nat)
    ensures Val(Zeros(z) + s, base) == Val(s, base)
  {
    ValConcat(Zeros(z), s, base);
    ValZeros(Zeros(z), base);
  }

  lemma QuotientSmaller(n: nat, base: nat)
    requires base >= 2 && n > 0
    ensures n / base < n && n == n / base * base + n % base && n % base < base
  {
  }

  lemma {:induction false} CanonicalIsNumeral(n: nat, base: nat)
    requires base >= 2
    ensures IsNumeral(Canonical(n, base), base) && Val(Canonical(n, base), base) == n
    ensures Canonical(n, base) != [] ==> Canonical(n, base)[0] != 0
  {
    if n > 0 {
      var q, r := n / base, n % base;
      QuotientSmaller(n, base);
      CanonicalIsNumeral(q, base);
      var c := Canonical(q, base);
      assert (c + [r])[..|c|] == c;
      if q > 0 {
        assert c != [];
      }
    }
  }

  lemma DigitOut(q: nat, d: nat, base: nat)
    requires d < base
    ensures (q * base + d) / base == q && (q * base + d) % base == d
  {
    var n := q * base + d;
    var q', d' := n / base, n % base;
    assert n == q' * base + d';
    assert (q + 1) * base == q * base + base && (q' + 1) * base == q' * base + base;
    if q' > q {
      MulMono(q + 1, q', base);
    } else if q' < q {
      MulMono(q' + 1, q, base);
    }
  }

  // A numeral without a leading zero is the canonical one of its number.
  lemma {:induction false} CanonicalUnique(s: seq<nat>, base: nat)
    requires base >= 2 && IsNumeral(s, base) && (s != [] ==> s[0] != 0)
    ensures Canonical(Val(s, base), base) == s && (s != [] ==> Val(s, base) > 0)
  {
    if s != [] {
      var n := |s| - 1;
      CanonicalUnique(s[..n], base);
      var v := Val(s[..n], base);
      DigitOut(v, s[n], base);
      if n > 0 {
        MulMono(1, v, base);
      }
      assert s[..n] + [s[n]] == s;
    }
  }

  // Converting there and back again changes nothing.
  lemma ConvertBack(s: seq<nat>, a: nat, b: nat)
    requires a >= 2 && b >= 2 && IsNumeral(s, a)
    ensures IsNumeral(Convert(s, a, b), b) && Convert(Convert(s, a, b), b, a) == s
  {
    var z, n := LeadingZeros(s), Val(s, a);
    var c := Canonical(n, b);
    CanonicalIsNumeral(n, b);
    LeadingZerosOf(z, c);
    ValBehindZeros(z, c, b);
    LeadingZerosSplit(s);
    assert s == Zeros(z) + s[z..] by { assert s == s[..z] + s[z..]; }
    ValBehindZeros(z, s[z..], a);
    CanonicalUnique(s[z..], a);
  }
}
