/** Decimal rendering of non-negative integers, as JavaScript's `Number.prototype.toString`
    and template-literal interpolation produce it for integers below 10^21, and the
    "last k characters" cut of `String.prototype.slice(-k)` for k > 0. */
module Decimal {

  predicate IsDigit(c: char)
  {
    '0' <= c <= '9'
  }

  predicate AllDigits(s: string)
  {
    forall k :: 0 <= k < |s| ==> IsDigit(s[k])
  }

  function DigitChar(d: nat): (c: char)
    requires d < 10
    ensures IsDigit(c) && c as int - '0' as int == d
  {
    ('0' as int + d) as char
  }

  function DigitValue(c: char): (d: nat)
    requires IsDigit(c)
    ensures d < 10
  {
    c as int - '0' as int
  }

  /** The decimal digits of `n`, most significant first, without leading zeros. */
  function NatToString(n: nat): (s: string)
    ensures 1 <= |s| && AllDigits(s)
    ensures s[0] == '0' ==> n == 0
    decreases n
  {
    if n < 10 then [DigitChar(n)] else NatToString(n / 10) + [DigitChar(n % 10)]
  }

  /** The value of a string of decimal digits (the inverse of NatToString). */
  function ParseNat(s: string): nat
    requires AllDigits(s)
  {
    if s == [] then 0 else 10 * ParseNat(s[..|s| - 1]) + DigitValue(s[|s| - 1])
  }

  function Pow10(k: nat): (p: nat)
    ensures p >= 1
  {
    if k == 0 then 1 else 10 * Pow10(k - 1)
  }

  /** The last `k` characters of `s`, or all of `s` when it is shorter; for k >= 1
      this is `s.slice(-k)` (for k = 0 it is the empty string, while `slice(-0)`
      keeps all of `s`). */
  function Last(s: string, k: nat): (r: string)
    ensures |r| == if |s| <= k then |s| else k
    ensures r == s[|s| - |r|..]
  {
    if |s| <= k then s else s[|s| - k..]
  }

  lemma ParseNatSnoc(s: string, c: char)
    requires AllDigits(s) && IsDigit(c)
    ensures AllDigits(s + [c]) && ParseNat(s + [c]) == 10 * ParseNat(s) + DigitValue(c)
  {
    assert (s + [c])[..|s|] == s;
  }

  /** Reading the digits back gives the number: NatToString loses nothing. */
  lemma {:induction false} ParseNatToString(n: nat)
    ensures ParseNat(NatToString(n)) == n
    decreases n
  {
    if n >= 10 {
      ParseNatToString(n / 10);
      ParseNatSnoc(NatToString(n / 10), DigitChar(n % 10));
    }
  }

  /** Distinct numbers are rendered as distinct strings. */
  lemma NatToStringInjective(m: nat, n: nat)
    ensures NatToString(m) == NatToString(n) ==> m == n
  {
    ParseNatToString(m);
    ParseNatToString(n);
  }

  /** A number has more than `k` digits (k >= 1) exactly when it is at least 10^k. */
  lemma {:induction false} NatToStringLength(n: nat, k: nat)
    requires k >= 1
    ensures |NatToString(n)| > k <==> n >= Pow10(k)
    decreases n
  {
    Pow10Grows(k);
    if n >= 10 {
      if k > 1 {
        NatToStringLength(n / 10, k - 1);
      }
      DivTenBound(n, Pow10(k - 1));
    }
  }

  lemma DivTenBound(n: nat, p: nat)
    ensures n / 10 >= p <==> n >= 10 * p
  {
  }

  lemma MulAtLeast(d: int, x: int)
    requires d > 0 && x >= 1
    ensures d * x >= d
  {
  }

  lemma MulDistrib(d: int, a: int, b: int)
    ensures d * a - d * b == d * (a - b)
  {
  }

  /** Euclidean remainders are unique. */
  lemma ModOfDecomposition(n: int, d: int, q: int, r: int)
    requires d > 0 && 0 <= r < d && n == d * q + r
    ensures n % d == r
  {
    var q', r' := n / d, n % d;
    assert n == d * q' + r';
    if q' > q {
      MulDistrib(d, q', q);
      MulAtLeast(d, q' - q);
    } else if q' < q {
      MulDistrib(d, q, q');
      MulAtLeast(d, q - q');
    }
  }

  /** (n / 10) % m, shifted one place, with the last digit of n appended, is n % (10 m). */
  lemma ShiftedMod(n: nat, m: nat)
    requires m >= 1
    ensures (n / 10) % m * 10 + n % 10 == n % (10 * m)
  {
    var q, r := n / 10, n % 10;
    var a, b := q / m, q % m;
    assert q == m * a + b;
    assert n == 10 * q + r;
    assert n == (10 * m) * a + (10 * b + r) by {
      calc {
        n;
        10 * (m * a + b) + r;
        (10 * m) * a + (10 * b + r);
      }
    }
    ModOfDecomposition(n, 10 * m, a, 10 * b + r);
  }

  lemma LastIsDigits(s: string, k: nat)
    requires AllDigits(s)
    ensures AllDigits(Last(s, k))
  {
    var r := Last(s, k);
    forall j | 0 <= j < |r| ensures IsDigit(r[j]) {
      assert r[j] == s[|s| - |r| + j];
    }
  }

  lemma LastSnoc(t: string, c: char, k: nat)
    requires k >= 1
    ensures Last(t + [c], k) == Last(t, k - 1) + [c]
  {
  }

  /** The last `k` digits of `n`, read back, are `n` modulo 10^k. */
  lemma {:induction false} LastDigits(n: nat, k: nat)
    ensures AllDigits(Last(NatToString(n), k))
    ensures ParseNat(Last(NatToString(n), k)) == n % Pow10(k)
    decreases n
  {
    LastIsDigits(NatToString(n), k);
    if k == 0 {
      assert Last(NatToString(n), k) == [];
      ModOfDecomposition(n, 1, n, 0);
    } else if n < 10 {
      LastDigitsOfDigit(n, k);
    } else {
      LastDigits(n / 10, k - 1);
      LastDigitsStep(n, k);
    }
  }

  lemma LastDigitsOfDigit(n: nat, k: nat)
    requires n < 10 && k >= 1
    ensures AllDigits(Last(NatToString(n), k))
    ensures ParseNat(Last(NatToString(n), k)) == n % Pow10(k)
  {
    var c := DigitChar(n);
    assert NatToString(n) == [] + [c];
    assert Last([] + [c], k) == [] + [c];
    ParseNatSnoc([], c);
    Pow10Grows(k);
    ModOfDecomposition(n, Pow10(k), 0, n);
  }

  lemma LastDigitsStep(n: nat, k: nat)
    requires n >= 10 && k >= 1
    requires AllDigits(Last(NatToString(n / 10), k - 1))
    requires ParseNat(Last(NatToString(n / 10), k - 1)) == (n / 10) % Pow10(k - 1)
    ensures AllDigits(Last(NatToString(n), k))
    ensures ParseNat(Last(NatToString(n), k)) == n % Pow10(k)
  {
    var t := NatToString(n / 10);
    var c := DigitChar(n % 10);
    assert NatToString(n) == t + [c];
    LastSnoc(t, c, k);
    var rt := Last(t, k - 1);
    var p := Pow10(k - 1);
    ParseNatSnoc(rt, c);
    ShiftedMod(n, p);
    calc {
      ParseNat(Last(NatToString(n), k));
      ParseNat(rt + [c]);
      10 * ParseNat(rt) + DigitValue(c);
      (n / 10) % p * 10 + n % 10;
      n % (10 * p);
    }
  }

  lemma Pow10Grows(k: nat)
    requires k >= 1
    ensures Pow10(k) >= 10
  {
    if k > 1 {
      Pow10Grows(k - 1);
    }
  }
}
