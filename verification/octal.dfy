/** Base-8 rendering of a number, as PHP's `sprintf('%o', n)` produces it, the
    value of a string of octal digits, and PHP's `substr($s, -k)` for `k >= 1`. */
module Octal {
  import opened Bits
  import opened Strings

  predicate IsOctalDigit(c: char) {
    '0' <= c <= '7'
  }

  predicate AllOctalDigits(s: string) {
    forall i :: 0 <= i < |s| ==> IsOctalDigit(s[i])
  }

  function DigitChar(v: nat): (c: char)
    requires v < 8
  {
    (48 + v) as char
  }

  function DigitValue(c: char): nat
    requires IsOctalDigit(c)
  {
    c as int - 48
  }

  /** The value of a string of octal digits, most significant first. */
  function OctalValue(s: string): nat
    requires AllOctalDigits(s)
  {
    if |s| == 0 then 0 else 8 * OctalValue(s[..|s| - 1]) + DigitValue(s[|s| - 1])
  }

  /** `sprintf('%o', n)`: octal digits without leading zeros (`"0"` for zero).
      Its length is the number of base-8 digits of `n`. */
  function ToOctal(n: nat): (s: string)
    ensures |s| >= 1 && AllOctalDigits(s)
    ensures |s| > 1 ==> s[0] != '0'
    ensures n < Pow(8, |s|)
    ensures |s| > 1 ==> Pow(8, |s| - 1) <= n
    decreases n
  {
    if n < 8 then [DigitChar(n)]
    else
      var high := ToOctal(n / 8);
      assert n == 8 * (n / 8) + n % 8;
      assert n / 8 <= Pow(8, |high|) - 1;
      high + [DigitChar(n % 8)]
  }

  /** Reading the rendering back gives the number. */
  lemma {:induction false} OctalRoundTrip(n: nat)
    ensures OctalValue(ToOctal(n)) == n
    decreases n
  {
    var s := ToOctal(n);
    if n >= 8 {
      OctalRoundTrip(n / 8);
      assert s[..|s| - 1] == ToOctal(n / 8);
    }
  }

  /** Two octal strings of the same length with the same value are equal. */
  lemma {:induction false} OctalValueInjective(s: string, t: string)
    requires AllOctalDigits(s) && AllOctalDigits(t) && |s| == |t|
    requires OctalValue(s) == OctalValue(t)
    ensures s == t
  {
    if |s| > 0 {
      var n := |s| - 1;
      assert OctalValue(s[..n]) == OctalValue(t[..n]) && DigitValue(s[n]) == DigitValue(t[n]) by {
        var v := OctalValue(s);
        DivModUnique(v, 8, OctalValue(s[..n]), DigitValue(s[n]));
        DivModUnique(v, 8, OctalValue(t[..n]), DigitValue(t[n]));
      }
      OctalValueInjective(s[..n], t[..n]);
      assert s[n] == t[n];
      assert s == s[..n] + [s[n]] && t == t[..n] + [t[n]];
    }
  }

  /** PHP `substr($s, -k)` for `k >= 1` (File.php uses 4): the last `k` characters,
      or all of `s` when it is shorter.  At `k = 0` it is empty, where PHP's
      `substr($s, -0)` is the whole string. */
  function Tail(s: string, k: nat): (r: string)
    ensures |r| == if |s| < k then |s| else k
    ensures IsSuffix(r, s)
  {
    if |s| <= k then s else s[|s| - k..]
  }

  /** The last `k` octal digits of `n` are worth `n` modulo `8^k`. */
  lemma {:induction false} TailValue(n: nat, k: nat)
    ensures AllOctalDigits(Tail(ToOctal(n), k))
    ensures OctalValue(Tail(ToOctal(n), k)) == n % Pow(8, k)
    decreases n
  {
    var s := ToOctal(n);
    if |s| <= k {
      TailWhole(n, k);
    } else if k > 0 {
      var v := OctalValue(Tail(ToOctal(n / 8), k - 1)) by { TailValue(n / 8, k - 1); }
      assert v == (n / 8) % Pow(8, k - 1) by { TailValue(n / 8, k - 1); }
      assert OctalValue(Tail(s, k)) == 8 * v + n % 8 by { TailStep(n, k); }
      ModPowStep(n, k);
    } else {
      assert Tail(s, k) == [];
    }
  }

  /** A tail at least as long as the rendering is the whole rendering. */
  lemma TailWhole(n: nat, k: nat)
    requires |ToOctal(n)| <= k
    ensures AllOctalDigits(Tail(ToOctal(n), k))
    ensures OctalValue(Tail(ToOctal(n), k)) == n % Pow(8, k)
  {
    var s := ToOctal(n);
    assert Tail(s, k) == s;
    OctalRoundTrip(n);
    PowMonotone(8, |s|, k);
    DivModUnique(n, Pow(8, k), 0, n);
  }

  /** The remainder modulo `8^k` is the last digit plus eight times the remainder
      of `n / 8` modulo `8^(k-1)`. */
  lemma ModPowStep(n: nat, k: nat)
    requires k > 0
    ensures n % Pow(8, k) == 8 * ((n / 8) % Pow(8, k - 1)) + n % 8
  {
    DivModSplit(n, 8, Pow(8, k - 1));
  }

  /** Dropping the last digit of a long enough tail leaves the tail of the
      rendering of `n / 8`. */
  lemma TailStep(n: nat, k: nat)
    requires 0 < k < |ToOctal(n)|
    ensures n >= 8
    ensures AllOctalDigits(Tail(ToOctal(n / 8), k - 1))
    ensures OctalValue(Tail(ToOctal(n), k)) == 8 * OctalValue(Tail(ToOctal(n / 8), k - 1)) + n % 8
  {
    var s := ToOctal(n);
    var high := ToOctal(n / 8);
    assert s == high + [DigitChar(n % 8)];
    var r := Tail(s, k);
    var r' := Tail(high, k - 1);
    assert r == r' + [DigitChar(n % 8)];
    assert r[..|r| - 1] == r';
  }

  /** `n` has more than `k` octal digits (`k` at least one)
      exactly when it is at least `8^k`. */
  lemma OctalLength(n: nat, k: nat)
    requires k > 0
    ensures |ToOctal(n)| > k <==> n >= Pow(8, k)
  {
    var d := |ToOctal(n)|;
    if d > k {
      PowMonotone(8, k, d - 1);
    } else {
      PowMonotone(8, d, k);
    }
  }

  lemma {:induction false} PowMonotone(b: nat, i: nat, j: nat)
    requires b > 0 && i <= j
    ensures Pow(b, i) <= Pow(b, j)
    decreases j
  {
    if i < j {
      PowMonotone(b, i, j - 1);
    }
  }
}
