/** Shared vocabulary: optional columns, the one rounding rule the services use, decimal numerals. */
module Base {

  datatype Option<+T> = None | Some(value: T)

  /** `Math.round(a / b)` on exact rationals: round half up. */
  function RoundDiv(a: nat, b: nat): nat
    requires b > 0
  {
    (2 * a + b) / (2 * b)
  }

  /** Rounding reaches the integer `k` exactly when the quotient reaches `k - 1/2`. */
  lemma RoundDivReaches(a: nat, b: nat, k: nat)
    requires b > 0
    ensures RoundDiv(a, b) >= k <==> 2 * a + b >= 2 * k * b
  {
    var q := RoundDiv(a, b);
    var d := 2 * b;
    assert 2 * a + b == q * d + (2 * a + b) % d;
    if q >= k {
      assert q * d >= k * d by { MulMonotone(k, q, d); }
    } else {
      assert (q + 1) * d <= k * d by { MulMonotone(q + 1, k, d); }
    }
  }

  lemma MulMonotone(x: nat, y: nat, m: nat)
    requires x <= y
    ensures x * m <= y * m
  {
  }

  /** A larger numerator never rounds lower. */
  lemma RoundDivMonotone(a: nat, a': nat, b: nat)
    requires b > 0 && a <= a'
    ensures RoundDiv(a, b) <= RoundDiv(a', b)
  {
    RoundDivReaches(a, b, RoundDiv(a, b));
    RoundDivReaches(a', b, RoundDiv(a, b));
  }

  /** Rounding is off by at most one half, and by one half only upwards. */
  lemma RoundDivError(a: nat, b: nat)
    requires b > 0
    ensures -(b as int) < 2 * b * RoundDiv(a, b) - 2 * a <= b
  {
    var q := RoundDiv(a, b);
    assert 2 * a + b == q * (2 * b) + (2 * a + b) % (2 * b);
  }

  lemma SubsetSize<T>(a: set<T>, b: set<T>)
    requires a <= b
    ensures |a| <= |b| && (|a| == |b| ==> a == b)
  {
    assert b == a + (b - a);
  }

  lemma MulAtLeast(d: int, w: nat)
    ensures d >= 1 ==> d * w >= w
    ensures d <= -1 ==> d * w <= -(w as int)
  {
    if d >= 1 {
      MulMonotone(1, d, w);
    } else if d <= -1 {
      MulMonotone(1, -d, w);
      assert -d * w == -(d * w);
    }
  }

  /** Only one integer is that close. */
  lemma NearestIsUnique(a: nat, b: nat, p: int, q: int)
    requires b > 0 && -(b as int) < 2 * b * p - 2 * a <= b && -(b as int) < 2 * b * q - 2 * a <= b
    ensures p == q
  {
    var d, w := p - q, 2 * b;
    assert d * w == p * w - q * w;
    assert p * w == 2 * b * p && q * w == 2 * b * q;
    MulAtLeast(d, w);
  }

  // ---- decimal numerals -------------------------------------------------------------------------

  function Digit(d: nat): char
    requires d < 10
  {
    "0123456789"[d]
  }

  function Dec(n: nat): string {
    if n < 10 then [Digit(n)] else Dec(n / 10) + [Digit(n % 10)]
  }

  /** Different numbers are written differently. */
  lemma {:induction false} DecInjective(m: nat, n: nat)
    requires Dec(m) == Dec(n)
    ensures m == n
  {
    DecLength(m);
    DecLength(n);
    if m >= 10 && n >= 10 {
      var a, b := Dec(m), Dec(n);
      assert a[..|a| - 1] == Dec(m / 10) && b[..|b| - 1] == Dec(n / 10);
      DecInjective(m / 10, n / 10);
      assert a[|a| - 1] == Digit(m % 10) && b[|b| - 1] == Digit(n % 10);
    }
  }

  /** The number a numeral writes. */
  function Value(s: string): int {
    if s == "" then 0 else 10 * Value(s[..|s| - 1]) + (s[|s| - 1] as int - '0' as int)
  }

  /** A number's numeral writes that number. */
  lemma {:induction false} DecWrites(n: nat)
    ensures Value(Dec(n)) == n
  {
    if n < 10 {
      assert Dec(n)[..0] == "";
    } else {
      DecWrites(n / 10);
      assert Dec(n)[..|Dec(n)| - 1] == Dec(n / 10);
    }
  }

  lemma {:induction false} DecLength(n: nat)
    ensures |Dec(n)| >= 1 && (|Dec(n)| == 1 <==> n < 10)
    ensures forall i :: 0 <= i < |Dec(n)| ==> '0' <= Dec(n)[i] <= '9'
  {
    if n >= 10 {
      DecLength(n / 10);
    }
  }
}
