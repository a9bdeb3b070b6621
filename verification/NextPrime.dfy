/** The fallback for libc++'s next-prime helper. */
module NextPrime {
  import opened Machine

  predicate IsPrime(n: nat)
  {
    2 <= n && forall d :: 2 <= d < n ==> n % d != 0
  }

  /** A number below k * k with a factor has one below k. */
  lemma SmallFactor(n: nat, k: nat, d: nat) returns (e: nat)
    requires n < k * k && 2 <= d < n && n % d == 0
    ensures 2 <= e < k && e < n && n % e == 0
  {
    e := d;
    if d >= k {
      e := n / d;
      assert n == d * e;
      Cofactor(n, d, e);
      if e >= k {
        ProductAtLeast(d, e, k);
      }
    }
  }

  lemma Cofactor(n: nat, d: nat, e: nat)
    requires n == d * e && 2 <= d < n
    ensures 2 <= e < n && n % e == 0
  {
    if e == 0 {
    } else if e == 1 {
    } else {
      assert n == e * d + 0;
      assert e < d * e by { ProductGrows(d, e); }
      MultipleHasNoRemainder(e, d);
    }
  }

  lemma ProductGrows(d: nat, e: nat)
    requires d >= 2 && e >= 1
    ensures e < d * e
  {
    assert d * e == e + (d - 1) * e;
    assert (d - 1) * e >= e;
  }

  lemma {:induction false} MultipleHasNoRemainder(e: nat, d: nat)
    requires e > 0
    ensures (d * e) % e == 0
    decreases d
  {
    if d > 0 {
      MultipleHasNoRemainder(e, d - 1);
      assert d * e == (d - 1) * e + e;
      AddModulus((d - 1) * e, e);
    }
  }

  lemma AddModulus(x: nat, e: nat)
    requires e > 0
    ensures (x + e) % e == x % e
  {
    var q, r := x / e, x % e;
    assert x == q * e + r;
    assert x + e == (q + 1) * e + r;
    QuotientUnique(x + e, e, q + 1, r);
  }

  lemma QuotientUnique(x: nat, e: nat, q: nat, r: nat)
    requires e > 0 && x == q * e + r && r < e
    ensures x % e == r
  {
    var q', r' := x / e, x % e;
    assert x == q' * e + r';
    if q' > q {
      ScaledOrder(q + 1, q', e);
    } else if q' < q {
      ScaledOrder(q' + 1, q, e);
    }
  }

  lemma ScaledOrder(a: nat, b: nat, e: nat)
    requires a <= b
    ensures a * e <= b * e
    ensures a > 0 ==> a * e == (a - 1) * e + e
  {
  }

  lemma ProductAtLeast(d: nat, e: nat, k: nat)
    requires d >= k && e >= k
    ensures d * e >= k * k
  {
    assert d * e >= k * e >= k * k;
  }

  /** A prime is a number above 1 that is no product of two smaller ones. */
  lemma PrimesAreNoProducts(n: nat)
    ensures IsPrime(n) <==> n > 1 && forall a: nat, b: nat :: a < n && b < n ==> a * b != n
  {
    if IsPrime(n) {
      forall a: nat, b: nat | a < n && b < n
        ensures a * b != n
      {
        if a < 2 {
          assert a * b == 0 || a * b == b;
        } else if a * b == n {
          Cofactor(n, a, b);
        }
      }
    } else if n > 1 {
      var d: nat :| 2 <= d < n && n % d == 0;
      var e := n / d;
      assert n == d * e;
      Cofactor(n, d, e);
    }
  }

  lemma EvenDivisor(n: nat, d: nat)
    requires d > 0 && d % 2 == 0 && n % d == 0
    ensures n % 2 == 0
  {
    var e, half := n / d, d / 2;
    assert n == d * e && d == 2 * half;
    assert n == 2 * (half * e);
  }

  /** An odd number has no even divisor. */
  lemma OddHasNoEvenDivisor(n: nat, d: nat)
    requires n % 2 == 1 && d > 0 && d % 2 == 0
    ensures n % d != 0
  {
    if n % d == 0 {
      EvenDivisor(n, d);
    }
  }

  lemma SquareBound(divisor: nat, value: nat)
    requires divisor > 0
    ensures divisor <= value / divisor ==> divisor * divisor <= value
    ensures divisor > value / divisor ==> value < divisor * divisor
  {
    var q := value / divisor;
    assert value == q * divisor + value % divisor;
    if divisor <= q {
      assert divisor * divisor <= q * divisor;
    } else {
      assert (q + 1) * divisor <= divisor * divisor;
    }
  }

  /** Trial division by odd numbers up to the square root is complete, and its divisor never overflows. */
  method CompatIsPrime(value: u64) returns (prime: bool)
    ensures prime <==> IsPrime(value)
  {
    if value < 2 {
      return false;
    }
    if value % 2 == 0 {
      assert value > 2 ==> value % 2 == 0;
      return value == 2;
    }
    var divisor: u64 := 3;
    SquareBound(divisor, value);
    while divisor <= value / divisor
      invariant 3 <= divisor && divisor % 2 == 1
      invariant forall d :: 2 <= d < divisor && d < value ==> value % d != 0
      invariant divisor > value / divisor ==> value < divisor * divisor
      invariant divisor <= value / divisor ==> divisor * divisor <= value
      decreases TWO_64 - divisor
    {
      if value % divisor == 0 {
        assert divisor < value by { ProductGrows(divisor, divisor); }
        return false;
      }
      OddHasNoEvenDivisor(value, divisor + 1);
      assert divisor < 0x1_0000_0000 by { SmallRoot(divisor, value); }
      divisor := divisor + 2;
      SquareBound(divisor, value);
    }
    forall d | 2 <= d < value
      ensures value % d != 0
    {
      if value % d == 0 {
        var e := SmallFactor(value, divisor, d);
      }
    }
    prime := true;
  }

  lemma SmallRoot(divisor: nat, value: u64)
    requires divisor * divisor <= value
    ensures divisor < 0x1_0000_0000
  {
    if divisor >= 0x1_0000_0000 {
      ProductAtLeast(divisor, divisor, 0x1_0000_0000);
    }
  }

  /** r is the least prime from value on, or the largest word when none is left. */
  ghost predicate IsNextPrime(value: u64, r: u64)
  {
    (IsPrime(r) && value <= r && forall q :: value <= q < r ==> !IsPrime(q))
    || (r == U64_MAX && forall q :: value <= q <= U64_MAX ==> !IsPrime(q))
  }

  ghost predicate NoPrimeIn(from: nat, to: nat)
  {
    forall q :: from <= q < to ==> !IsPrime(q)
  }

  lemma SkipOddAndEven(from: nat, candidate: nat)
    requires NoPrimeIn(from, candidate) && !IsPrime(candidate) && candidate % 2 == 1 && candidate >= 3
    ensures NoPrimeIn(from, candidate + 2)
  {
    EvenIsComposite(candidate + 1);
  }

  method CompatNextPrime(value: u64) returns (r: u64)
    ensures value == 0 ==> r == 0
    ensures value != 0 ==> IsNextPrime(value, r)
  {
    hide IsPrime, NoPrimeIn, IsNextPrime;
    if value == 0 {
      return 0;
    }
    if value <= 2 {
      TwoIsNext(value);
      return 2;
    }
    NoneBefore(value);
    var candidate: u64 := value;
    if candidate % 2 == 0 {
      SkipEven(value);
      candidate := SaturatingAdd(candidate, 1);
    }
    var prime := CompatIsPrime(candidate);
    while !prime
      invariant value <= candidate && candidate % 2 == 1
      invariant NoPrimeIn(value, candidate)
      invariant prime <==> IsPrime(candidate)
      decreases U64_MAX - candidate
    {
      SkipOddAndEven(value, candidate);
      if candidate + 2 > U64_MAX {
        NoneLeft(value, candidate + 2);
        return U64_MAX;
      }
      candidate := candidate + 2;
      prime := CompatIsPrime(candidate);
    }
    FoundNext(value, candidate);
    r := candidate;
  }

  lemma NoneLeft(value: u64, beyond: nat)
    requires NoPrimeIn(value, beyond) && beyond > U64_MAX
    ensures IsNextPrime(value, U64_MAX)
  {
  }

  lemma FoundNext(value: u64, candidate: u64)
    requires NoPrimeIn(value, candidate) && IsPrime(candidate) && value <= candidate
    ensures IsNextPrime(value, candidate)
  {
  }

  lemma TwoIsNext(value: u64)
    requires 1 <= value <= 2
    ensures IsNextPrime(value, 2)
  {
  }

  lemma NoneBefore(value: nat)
    ensures NoPrimeIn(value, value)
  {
  }

  lemma SkipEven(value: nat)
    requires value > 2 && value % 2 == 0
    ensures NoPrimeIn(value, value + 1)
  {
    EvenIsComposite(value);
  }

  lemma EvenIsComposite(n: nat)
    requires n > 2 && n % 2 == 0
    ensures !IsPrime(n)
  {
  }

  /** The answer is determined, is its own answer when prime, and never decreases with the argument. */
  lemma NextPrimeProperties(v: u64, v': u64, r: u64, r': u64)
    requires IsNextPrime(v, r) && IsNextPrime(v', r') && v <= v'
    ensures v == v' ==> r == r'
    ensures IsPrime(v) ==> r == v
    ensures r <= r'
  {
    assert v <= r && v' <= r';
  }
}
