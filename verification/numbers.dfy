/** Numeric text handling: a decimal-prefix reading of JavaScript's `parseFloat`, and the
    integer-division facts the progress arithmetic needs. */
module Numbers {
  import opened Wrappers
  import opened Strings

  /** The longest run of decimal digits at the start of `s`. */
  function LeadingDigits(s: string): (r: string)
    ensures IsPrefix(r, s)
    ensures forall i :: 0 <= i < |r| ==> IsDigit(r[i])
    ensures |r| < |s| ==> !IsDigit(s[|r|])
  {
    if |s| == 0 || !IsDigit(s[0]) then [] else [s[0]] + LeadingDigits(s[1..])
  }

  predicate AllDigits(s: string) {
    forall i :: 0 <= i < |s| ==> IsDigit(s[i])
  }

  /** The value of a run of decimal digits, most significant first. */
  function DigitsValue(ds: string): nat
    requires AllDigits(ds)
  {
    if |ds| == 0 then 0 else DigitsValue(ds[..|ds| - 1]) * 10 + DigitValue(ds[|ds| - 1])
  }

  function Pow10(k: nat): (r: nat)
    ensures r >= 1
  {
    if k == 0 then 1 else 10 * Pow10(k - 1)
  }

  predicate NoDigits(s: string) {
    forall i :: 0 <= i < |s| ==> !IsDigit(s[i])
  }

  /** `t` with one leading `+` or `-` removed. */
  function Unsigned(t: string): (r: string)
    ensures |r| <= |t| && r == t[|t| - |r|..]
  {
    if |t| > 0 && (t[0] == '+' || t[0] == '-') then t[1..] else t
  }

  /** The value of an unsigned decimal `digits[.digits]` at the start of `u`, if it has a digit. */
  function ReadUnsigned(u: string): Option<real> {
    var whole := LeadingDigits(u);
    var after := u[|whole|..];
    var fraction := if |after| > 0 && after[0] == '.' then LeadingDigits(after[1..]) else "";
    if |whole| == 0 && |fraction| == 0 then None
    else Some(DigitsValue(whole) as real + DigitsValue(fraction) as real / Pow10(|fraction|) as real)
  }

  /** JavaScript `parseFloat(s)` on its decimal form: leading white space is skipped, then an
      optional sign, an integer part and an optional fraction; `None` stands for NaN, the result
      when neither part has a digit. */
  function ParseFloat(s: string): Option<real> {
    var t := TrimStart(s);
    match ReadUnsigned(Unsigned(t))
    case None => None
    case Some(m) => Some(if |t| > 0 && t[0] == '-' then -m else m)
  }

  /** Text without a single digit is NaN to `parseFloat`. */
  lemma ParseFloatNoDigits(s: string)
    requires NoDigits(s)
    ensures ParseFloat(s) == None
  {
    var t := TrimStart(s);
    NoDigitsSuffix(s, |s| - |t|);
    var u := Unsigned(t);
    NoDigitsSuffix(t, |t| - |u|);
    ReadUnsignedNoDigits(u);
  }

  lemma NoDigitsSuffix(s: string, k: int)
    requires NoDigits(s) && 0 <= k <= |s|
    ensures NoDigits(s[k..])
  {
  }

  lemma ReadUnsignedNoDigits(u: string)
    requires NoDigits(u)
    ensures ReadUnsigned(u) == None
  {
    NoLeadingDigits(u);
    if |u| > 0 {
      NoDigitsSuffix(u, 1);
      NoLeadingDigits(u[1..]);
    }
  }

  lemma NoLeadingDigits(u: string)
    requires NoDigits(u)
    ensures LeadingDigits(u) == ""
  {
    if |u| > 0 {
      assert !IsDigit(u[0]);
    }
  }

  lemma {:induction false} DigitsValueOfNat(n: nat)
    ensures AllDigits(NatToString(n)) && DigitsValue(NatToString(n)) == n
  {
    var s := NatToString(n);
    if n >= 10 {
      DigitsValueOfNat(n / 10);
      assert s[..|s| - 1] == NatToString(n / 10);
      assert DigitValue(s[|s| - 1]) == n % 10;
    } else {
      assert DigitValue(s[0]) == n;
    }
  }

  /** A run of digits is read whole by `LeadingDigits`. */
  lemma {:induction false} LeadingDigitsAll(s: string)
    requires AllDigits(s)
    ensures LeadingDigits(s) == s
  {
    if |s| > 0 {
      LeadingDigitsAll(s[1..]);
    }
  }

  /** A number's decimal rendering reads back as that number. */
  lemma ParseFloatUnpadded(s: string, v: real)
    requires TrimStart(s) == s && Unsigned(s) == s && ReadUnsigned(s) == Some(v)
    ensures ParseFloat(s) == Some(v)
  {
  }

  lemma ReadUnsignedOfNat(n: nat)
    ensures ReadUnsigned(NatToString(n)) == Some(n as real)
  {
    var s := NatToString(n);
    LeadingDigitsAll(s);
    DigitsValueOfNat(n);
    assert s[|s|..] == "";
  }

  lemma ParseFloatOfNat(n: nat)
    ensures ParseFloat(NatToString(n)) == Some(n as real)
  {
    var s := NatToString(n);
    assert !IsWhite(s[0]) && s[0] != '+' && s[0] != '-';
    ReadUnsignedOfNat(n);
    ParseFloatUnpadded(s, n as real);
  }

  lemma MulAtLeast(k: int, d: int)
    requires k >= 1 && d > 0
    ensures k * d >= d
  {
    assert k * d == (k - 1) * d + d;
  }

  /** A quotient is pinned down by the multiples of the divisor around the dividend. */
  lemma DivIs(a: int, d: int, q: int)
    requires d > 0 && q * d <= a < (q + 1) * d
    ensures a / d == q
  {
    var qq, rr := a / d, a % d;
    assert a == qq * d + rr && 0 <= rr < d;
    if qq > q {
      assert qq * d == q * d + (qq - q) * d;
      MulAtLeast(qq - q, d);
    } else if qq < q {
      assert q * d == qq * d + (q - qq) * d;
      MulAtLeast(q - qq, d);
    }
  }

  lemma DivMonotone(a: int, b: int, d: int)
    requires d > 0 && a <= b
    ensures a / d <= b / d
  {
    var qa, qb := a / d, b / d;
    assert qa * d <= a && b < qb * d + d;
    if qa > qb {
      assert qa * d == qb * d + (qa - qb) * d;
      MulAtLeast(qa - qb, d);
    }
  }
}
