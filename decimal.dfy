/**
 * Decimal text of non-negative integers: Python's `str(n)` and `s.zfill(width)`, and the
 * value a string of digits denotes.
 */
module DecimalText {
  import opened Bits

  predicate IsDigit(c: char) {
    '0' <= c <= '9'
  }

  predicate AllDigits(s: string) {
    forall i :: 0 <= i < |s| ==> IsDigit(s[i])
  }

  /** The value of a string of decimal digits, most significant first. */
  function DigitsValue(s: string): nat
    requires AllDigits(s)
  {
    if s == [] then 0 else 10 * DigitsValue(s[..|s| - 1]) + (s[|s| - 1] as int - '0' as int)
  }

  function DigitChar(d: nat): (c: char)
    requires d < 10
    ensures IsDigit(c) && c as int - '0' as int == d
  {
    ('0' as int + d) as char
  }

  /** `str(n)` for `n >= 0`: the shortest decimal text of `n`, with no leading zero. */
  function Str(n: nat): (s: string)
    ensures AllDigits(s) && DigitsValue(s) == n
    ensures 1 <= |s| && (|s| > 1 ==> s[0] != '0')
  {
    if n < 10 then [DigitChar(n)]
    else
      var prefix := Str(n / 10);
      var s := prefix + [DigitChar(n % 10)];
      assert s[..|s| - 1] == prefix;
      s
  }

  /** `str(n)` has at most `k` characters when `n < 10^k`. */
  lemma {:induction false} StrLength(n: nat, k: nat)
    requires 1 <= k && n < Pow(10, k)
    ensures |Str(n)| <= k
  {
    if n >= 10 {
      assert k > 1;
      assert n / 10 < Pow(10, k - 1);
      StrLength(n / 10, k - 1);
    }
  }

  function Zeros(n: nat): (z: string)
    ensures |z| == n && AllDigits(z)
  {
    seq(n, _ => '0')
  }

  /**
   * `s.zfill(width)`: pads with '0' on the left up to `width` characters, after a leading
   * sign if there is one; a string already that long is returned as it is.
   */
  function ZFill(s: string, width: nat): (r: string)
    ensures |r| == if |s| >= width then |s| else width
    ensures |s| >= width ==> r == s
    ensures |s| < width && (s == [] || (s[0] != '+' && s[0] != '-')) ==> r == Zeros(width - |s|) + s
    ensures |s| < width && s != [] && (s[0] == '+' || s[0] == '-') ==> r == [s[0]] + Zeros(width - |s|) + s[1..]
  {
    if |s| >= width then s
    else if |s| > 0 && (s[0] == '+' || s[0] == '-') then [s[0]] + Zeros(width - |s|) + s[1..]
    else Zeros(width - |s|) + s
  }

  /** Leading zeros do not change the value of a digit string. */
  lemma {:induction false} LeadingZeros(n: nat, s: string)
    requires AllDigits(s)
    ensures AllDigits(Zeros(n) + s) && DigitsValue(Zeros(n) + s) == DigitsValue(s)
  {
    var t := Zeros(n) + s;
    if s == [] {
      assert t == Zeros(n);
      if n > 0 {
        assert t[..|t| - 1] == Zeros(n - 1);
        LeadingZeros(n - 1, []);
        assert Zeros(n - 1) + [] == Zeros(n - 1);
      }
    } else {
      assert t[..|t| - 1] == Zeros(n) + s[..|s| - 1];
      LeadingZeros(n, s[..|s| - 1]);
    }
  }

  /** Two digit strings of the same length with the same value are the same string. */
  lemma {:induction false} DigitsValueInjective(a: string, b: string)
    requires AllDigits(a) && AllDigits(b) && |a| == |b|
    requires DigitsValue(a) == DigitsValue(b)
    ensures a == b
  {
    if a != [] {
      var n := |a| - 1;
      var da, db := a[n] as int - '0' as int, b[n] as int - '0' as int;
      assert DigitsValue(a) == 10 * DigitsValue(a[..n]) + da;
      assert DigitsValue(b) == 10 * DigitsValue(b[..n]) + db;
      DivModUnique(DigitsValue(a), 10, DigitsValue(a[..n]), da);
      DivModUnique(DigitsValue(b), 10, DigitsValue(b[..n]), db);
      DigitsValueInjective(a[..n], b[..n]);
      assert a == a[..n] + [a[n]] && b == b[..n] + [b[n]];
    }
  }
}
