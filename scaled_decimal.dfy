/**
 * Exact decimal division by a power of ten, as bignumber.js performs and renders it:
 * `new BN(v.toString()).dividedBy(10^k).toString()` for an integer `v`. bignumber.js
 * keeps a number as decimal digits and a point position, so dividing by 10^k moves
 * the point k digits to the left; the model does the same on the digit sequence.
 */
module ScaledDecimal {
  import opened Results
  import opened Numerals

  /** The digits left after dropping the trailing zeros. */
  function StripTrailingZeros(ds: seq<nat>): (r: seq<nat>)
    ensures |r| <= |ds| && r == ds[..|r|]
    ensures r == [] || r[|r| - 1] != 0
    ensures forall i :: |r| <= i < |ds| ==> ds[i] == 0
  {
    if ds != [] && ds[|ds| - 1] == 0 then StripTrailingZeros(ds[..|ds| - 1]) else ds
  }

  /** Putting the dropped zeros back gives the original digits. */
  lemma StripTrailingZerosRestore(ds: seq<nat>)
    ensures StripTrailingZeros(ds) + Zeros(|ds| - |StripTrailingZeros(ds)|) == ds
  {
  }

  lemma StripAllZeros(ds: seq<nat>)
    requires forall i :: 0 <= i < |ds| ==> ds[i] == 0
    ensures StripTrailingZeros(ds) == []
  {
  }

  lemma {:induction false} LeadingZerosValue(j: nat, ds: seq<nat>, base: nat)
    ensures FromDigits(Zeros(j) + ds, base) == FromDigits(ds, base)
  {
    if j > 0 {
      assert Zeros(j) + ds == [0] + (Zeros(j - 1) + ds);
      LeadingZeroValue(Zeros(j - 1) + ds, base);
      LeadingZerosValue(j - 1, ds, base);
    } else {
      assert Zeros(j) + ds == ds;
    }
  }

  function Abs(v: int): nat
  {
    if v < 0 then -v else v
  }

  function Signed(neg: bool, mag: nat): int
  {
    if neg then -(mag as int) else mag
  }

  /** The decimal digits of `m`, padded on the left with zeros to more than `k` digits. */
  function PaddedDigits(m: nat, k: nat): (ds: seq<nat>)
    ensures |ds| > k && DigitsBelow(ds, 10)
  {
    var d := MinDigits(m, 10);
    (if |d| <= k then Zeros(k + 1 - |d|) else []) + d
  }

  lemma PaddedDigitsValue(m: nat, k: nat)
    ensures FromDigits(PaddedDigits(m, k), 10) == m
  {
    var d := MinDigits(m, 10);
    MinDigitsValue(m, 10);
    LeadingZerosValue(if |d| <= k then k + 1 - |d| else 0, d, 10);
    if |d| > k {
      assert PaddedDigits(m, k) == Zeros(0) + d;
    }
  }

  /** The digits of `m / 10^k` before the point. */
  function WholeDigits(m: nat, k: nat): (ds: seq<nat>)
    ensures ds != [] && DigitsBelow(ds, 10)
  {
    var ds := PaddedDigits(m, k);
    ds[..|ds| - k]
  }

  /** The `k` digits of `m / 10^k` after the point. */
  function LowDigits(m: nat, k: nat): (ds: seq<nat>)
    ensures |ds| == k && DigitsBelow(ds, 10)
    ensures WholeDigits(m, k) + ds == PaddedDigits(m, k)
  {
    var ds := PaddedDigits(m, k);
    ds[|ds| - k..]
  }

  /** The whole digits, then `.` and the fraction digits unless there are none. */
  function Plain(whole: seq<nat>, frac: seq<nat>): (s: string)
    requires DigitsBelow(whole, 10) && DigitsBelow(frac, 10)
    ensures |s| >= |whole|
  {
    Render(whole) + (if frac == [] then "" else "." + Render(frac))
  }

  /** The quotient `m / 10^k` of a non-negative `m`: the whole part, and the fraction without trailing zeros. */
  function FormatFixed(m: nat, k: nat): (s: string)
    ensures |s| >= 1 && '0' <= s[0] <= '9'
  {
    var whole := WholeDigits(m, k);
    RenderDecimalChars(whole);
    Plain(whole, StripTrailingZeros(LowDigits(m, k)))
  }

  /**
   * The quotient `v / 10^k` written out exactly: a `-` when `v` is negative, the whole
   * part without leading zeros, then `.` and the fraction digits when the fraction is
   * not zero, with its trailing zeros dropped.
   */
  function FormatScaled(v: int, k: nat): (s: string)
    ensures |s| >= 1 && (s[0] == '-' <==> v < 0)
  {
    (if v < 0 then "-" else "") + FormatFixed(Abs(v), k)
  }

  /** The position of the first `.` in `s`, or `|s|` when there is none. */
  function PointIndex(s: string): (i: nat)
    ensures i <= |s| && (i < |s| ==> s[i] == '.')
    ensures forall j :: 0 <= j < i ==> s[j] != '.'
  {
    if s == [] || s[0] == '.' then 0 else 1 + PointIndex(s[1..])
  }

  /**
   * Reads an unsigned plain decimal (at least one whole digit, then optionally `.` and
   * between one and `k` fraction digits) and gives the integer `m` whose quotient by
   * 10^k that decimal denotes: the digits with the point removed and `k` fraction
   * places filled with zeros. None for anything else.
   */
  function ParseFixed(body: string, k: nat): Option<nat>
  {
    var point := PointIndex(body);
    var whole := body[..point];
    var fraction := if point < |body| then body[point + 1..] else "";
    if whole == [] || (point < |body| && fraction == []) || |fraction| > k then None
    else match Scan(whole + fraction, 10)
      case None => None
      case Some(ds) => Some(FromDigits(ds + Zeros(k - |fraction|), 10))
  }

  /** As `ParseFixed`, after an optional leading `-` that negates the result. */
  function ParseScaled(s: string, k: nat): Option<int>
  {
    var neg := |s| > 0 && s[0] == '-';
    match ParseFixed(if neg then s[1..] else s, k)
      case None => None
      case Some(m) => Some(Signed(neg, m))
  }

  lemma {:induction false} PointAfterDigits(w: string, tail: string)
    requires forall j :: 0 <= j < |w| ==> w[j] != '.'
    requires tail == [] || tail[0] == '.'
    ensures PointIndex(w + tail) == |w|
  {
    if w != [] {
      assert (w + tail)[1..] == w[1..] + tail;
      PointAfterDigits(w[1..], tail);
    }
  }

  lemma RenderDecimalChars(ds: seq<nat>)
    requires DigitsBelow(ds, 10)
    ensures forall j :: 0 <= j < |ds| ==> '0' <= Render(ds)[j] <= '9'
  {
  }

  /** Where a plain decimal's point is, and what stands on either side of it. */
  lemma PlainLayout(whole: seq<nat>, frac: seq<nat>)
    requires DigitsBelow(whole, 10) && DigitsBelow(frac, 10)
    ensures var body := Plain(whole, frac);
      PointIndex(body) == |whole| && body[..|whole|] == Render(whole)
      && (|whole| < |body| <==> frac != [])
      && (frac != [] ==> body[|whole| + 1..] == Render(frac))
  {
    var w := Render(whole);
    var tail := if frac == [] then "" else "." + Render(frac);
    assert Plain(whole, frac) == w + tail;
    RenderDecimalChars(whole);
    PointAfterDigits(w, tail);
  }

  lemma ScanPlainDigits(whole: seq<nat>, frac: seq<nat>)
    requires DigitsBelow(whole, 10) && DigitsBelow(frac, 10)
    ensures Scan(Render(whole) + (if frac == [] then "" else Render(frac)), 10) == Some(whole + frac)
  {
    RenderConcat(whole, frac);
    if frac == [] {
      assert whole + frac == whole;
      assert Render(whole) + "" == Render(whole);
    }
    ScanRender(whole + frac, 10);
  }

  /** Reading a plain decimal back gives its digits with the fraction padded to `k` places. */
  lemma ParsePlain(whole: seq<nat>, frac: seq<nat>, k: nat)
    requires whole != [] && DigitsBelow(whole, 10) && DigitsBelow(frac, 10) && |frac| <= k
    ensures ParseFixed(Plain(whole, frac), k) == Some(FromDigits(whole + frac + Zeros(k - |frac|), 10))
  {
    PlainLayout(whole, frac);
    ScanPlainDigits(whole, frac);
  }

  /** Putting the stripped zeros back after a prefix gives the prefix and the digits. */
  lemma StripTrailingZerosAfter(whole: seq<nat>, low: seq<nat>)
    ensures var frac := StripTrailingZeros(low);
      whole + frac + Zeros(|low| - |frac|) == whole + low
  {
    var frac := StripTrailingZeros(low);
    var z := Zeros(|low| - |frac|);
    assert frac + z == low by {
      StripTrailingZerosRestore(low);
    }
    assert whole + frac + z == whole + (frac + z);
  }

  /** The digits `FormatFixed` shows, with the dropped fraction zeros put back, are the padded digits. */
  lemma ShownDigitsRestore(m: nat, k: nat)
    ensures var frac := StripTrailingZeros(LowDigits(m, k));
      WholeDigits(m, k) + frac + Zeros(k - |frac|) == PaddedDigits(m, k)
  {
    StripTrailingZerosAfter(WholeDigits(m, k), LowDigits(m, k));
  }

  /** The digits `FormatFixed` shows, with the dropped fraction zeros put back, weigh `m`. */
  lemma ShownDigitsValue(m: nat, k: nat)
    ensures var frac := StripTrailingZeros(LowDigits(m, k));
      FromDigits(WholeDigits(m, k) + frac + Zeros(k - |frac|), 10) == m
  {
    ShownDigitsRestore(m, k);
    PaddedDigitsValue(m, k);
  }

  lemma FormatFixedRoundTrip(m: nat, k: nat)
    ensures ParseFixed(FormatFixed(m, k), k) == Some(m)
  {
    var frac := StripTrailingZeros(LowDigits(m, k));
    assert DigitsBelow(frac, 10);
    ShownDigitsValue(m, k);
    ParsePlain(WholeDigits(m, k), frac, k);
  }

  /** Dividing by 10^k and reading the decimal back loses nothing. */
  lemma FormatScaledRoundTrip(v: int, k: nat)
    ensures ParseScaled(FormatScaled(v, k), k) == Some(v)
  {
    var s := FormatScaled(v, k);
    var body := FormatFixed(Abs(v), k);
    FormatFixedRoundTrip(Abs(v), k);
    if v < 0 {
      assert s[0] == '-' && s[1..] == body;
    } else {
      assert s == body;
    }
  }

  /** A plain decimal's only possible `.` is the one right after its whole digits. */
  lemma PlainPointPosition(whole: seq<nat>, frac: seq<nat>)
    requires DigitsBelow(whole, 10) && DigitsBelow(frac, 10)
    ensures forall j :: 0 <= j < |Plain(whole, frac)| && j != |whole| ==> Plain(whole, frac)[j] != '.'
    ensures frac == [] ==> |Plain(whole, frac)| == |whole|
    ensures frac != [] ==> Plain(whole, frac)[|whole| + 1..] == Render(frac)
  {
    RenderDecimalChars(whole);
    RenderDecimalChars(frac);
    if frac != [] {
      var r := Render(frac);
      assert Plain(whole, frac) == (Render(whole) + ".") + r;
    }
  }

  /** The `.` of a plain decimal is followed by exactly the fraction digits. */
  lemma PlainFraction(whole: seq<nat>, frac: seq<nat>, i: nat)
    requires DigitsBelow(whole, 10) && DigitsBelow(frac, 10)
    requires i < |Plain(whole, frac)| && Plain(whole, frac)[i] == '.'
    ensures frac != [] && |Plain(whole, frac)| - 1 - i == |frac|
    ensures CharDigit(Plain(whole, frac)[|Plain(whole, frac)| - 1]) == Some(frac[|frac| - 1])
  {
    PlainPointPosition(whole, frac);
    var s := Plain(whole, frac);
    var t := s[i + 1..];
    assert t == Render(frac);
    assert s[|s| - 1] == t[|t| - 1];
  }

  /** After its point a result has between one and `k` digits, and its last digit is not `0`. */
  lemma FormatFixedFraction(m: nat, k: nat, i: nat)
    requires i < |FormatFixed(m, k)| && FormatFixed(m, k)[i] == '.'
    ensures 1 <= |FormatFixed(m, k)| - 1 - i <= k
    ensures FormatFixed(m, k)[|FormatFixed(m, k)| - 1] != '0'
  {
    var frac := StripTrailingZeros(LowDigits(m, k));
    assert DigitsBelow(frac, 10) && |frac| <= k;
    PlainFraction(WholeDigits(m, k), frac, i);
    assert CharDigit('0') == Some(0);
  }

  /** What the result looks like after its point: between one and `k` digits, never ending in `0`. */
  lemma FormatScaledFraction(v: int, k: nat, i: nat)
    requires i < |FormatScaled(v, k)| && FormatScaled(v, k)[i] == '.'
    ensures 1 <= |FormatScaled(v, k)| - 1 - i <= k
    ensures FormatScaled(v, k)[|FormatScaled(v, k)| - 1] != '0'
  {
    var sign := if v < 0 then "-" else "";
    var body := FormatFixed(Abs(v), k);
    var s := FormatScaled(v, k);
    assert s == sign + body;
    assert i >= |sign| by {
      if v < 0 {
        assert s[0] == '-';
      }
    }
    assert s[i] == body[i - |sign|];
    assert s[|s| - 1] == body[|body| - 1];
    FormatFixedFraction(Abs(v), k, i - |sign|);
  }

  /** The whole part of the quotient has no leading zero. */
  lemma WholeNoLeadingZero(m: nat, k: nat)
    ensures WholeDigits(m, k)[0] == 0 ==> |WholeDigits(m, k)| == 1
  {
    var d := MinDigits(m, 10);
    var ds := PaddedDigits(m, k);
    if |d| > k {
      assert ds == d;
      assert WholeDigits(m, k)[0] == d[0];
    }
  }

  /**
   * The quotient is written canonically: a `-` exactly for a negative value (so none
   * for zero), and after it a whole part that starts with `0` only when it is the
   * single digit `0`, followed by the end or the point.
   */
  lemma FormatScaledCanonical(v: int, k: nat)
    ensures var s := FormatScaled(v, k);
      var body := if v < 0 then s[1..] else s;
      (s[0] == '-' <==> v < 0) && |body| >= 1 && '0' <= body[0] <= '9'
      && (body[0] == '0' ==> |body| == 1 || body[1] == '.')
  {
    var m := Abs(v);
    var whole := WholeDigits(m, k);
    var frac := StripTrailingZeros(LowDigits(m, k));
    assert DigitsBelow(frac, 10);
    var body := FormatFixed(m, k);
    assert body == Plain(whole, frac);
    PlainLayout(whole, frac);
    WholeNoLeadingZero(m, k);
    assert body[0] == Render(whole)[0];
    if body[0] == '0' {
      assert CharDigit(body[0]) == Some(whole[0]);
      assert |whole| == 1;
    }
    if v < 0 {
      assert FormatScaled(v, k)[1..] == body;
    }
  }

  /** With the precision `1e0` the quotient is the integer itself. */
  lemma FormatScaledByOne(v: int)
    ensures FormatScaled(v, 0) == IntDecimal(v)
  {
    var ds := PaddedDigits(Abs(v), 0);
    assert ds == MinDigits(Abs(v), 10);
    assert WholeDigits(Abs(v), 0) == ds;
    StripAllZeros(LowDigits(Abs(v), 0));
  }

  lemma MulSign(n: int, p: nat)
    requires p >= 1
    ensures n * p < 0 <==> n < 0
    ensures Abs(n * p) == Abs(n) * p
  {
    if n < 0 {
      assert -(n * p) == (-n) * p;
      MulAtLeast(-n, p);
    } else if n > 0 {
      MulAtLeast(n, p);
    }
  }

  lemma MinDigitsTimesTen(b: nat)
    requires b > 0
    ensures MinDigits(b * 10, 10) == MinDigits(b, 10) + [0]
  {
    DivModUnique(b * 10, 10, b, 0);
  }

  lemma PowSplit(a: nat, k: nat)
    requires k > 0
    ensures a * Pow(10, k) == (a * Pow(10, k - 1)) * 10
  {
  }

  /** Multiplying by 10^k appends `k` zero digits. */
  lemma {:induction false} MinDigitsShift(a: nat, k: nat)
    requires a > 0
    ensures MinDigits(a * Pow(10, k), 10) == MinDigits(a, 10) + Zeros(k)
  {
    if k > 0 {
      var b := a * Pow(10, k - 1);
      PowSplit(a, k);
      MulAtLeast(a, Pow(10, k - 1));
      MinDigitsTimesTen(b);
      MinDigitsShift(a, k - 1);
      ZerosSnoc(k - 1);
      assert (MinDigits(a, 10) + Zeros(k - 1)) + [0] == MinDigits(a, 10) + (Zeros(k - 1) + [0]);
    } else {
      assert MinDigits(a, 10) + Zeros(0) == MinDigits(a, 10);
    }
  }

  lemma {:induction false} ZerosSnoc(n: nat)
    ensures Zeros(n) + [0] == Zeros(n + 1)
  {
    if n > 0 {
      ZerosSnoc(n - 1);
      assert Zeros(n) + [0] == [0] + (Zeros(n - 1) + [0]);
    }
  }

  /** A multiple of 10^k has the multiplier's digits before the point and only zeros after it. */
  lemma ScaledMultipleDigits(a: nat, k: nat)
    ensures WholeDigits(a * Pow(10, k), k) == MinDigits(a, 10)
    ensures StripTrailingZeros(LowDigits(a * Pow(10, k), k)) == []
  {
    var ds := PaddedDigits(a * Pow(10, k), k);
    assert ds == MinDigits(a, 10) + Zeros(k) by {
      if a > 0 {
        MinDigitsShift(a, k);
      } else {
        assert a * Pow(10, k) == 0;
        ZerosSnoc(k);
        if k == 0 {
          assert ds == [0];
        }
      }
    }
    assert ds[..|ds| - k] == MinDigits(a, 10);
    assert ds[|ds| - k..] == Zeros(k);
    StripAllZeros(Zeros(k));
  }

  /** Dividing a multiple of 10^k by 10^k gives the plain decimal of the multiplier. */
  lemma FormatScaledOfMultiple(n: int, k: nat)
    ensures FormatScaled(n * Pow(10, k), k) == IntDecimal(n)
  {
    MulSign(n, Pow(10, k));
    ScaledMultipleDigits(Abs(n), k);
  }

  /** The transfer value `100000000` at USDT's six decimals reads `"100"`. */
  lemma HundredUsdt()
    ensures FormatScaled(100000000, 6) == "100"
  {
    FormatScaledOfMultiple(100, 6);
    assert Pow(10, 6) == 1000000;
    assert MinDigits(100, 10) == [1, 0, 0];
  }

  /** bignumber.js writes a number in exponential notation once its exponent reaches 21. */
  const ExponentialAt: nat := 21

  /**
   * The exponential notation of a positive integer with digits `ds`: the first
   * significant digit, then `.` and the others when any is left after dropping the
   * trailing zeros, then `e+` and the exponent.
   */
  function Exponential(ds: seq<nat>): (s: string)
    requires |ds| >= 1 && ds[0] != 0 && DigitsBelow(ds, 10)
    ensures |s| >= 2 && '1' <= s[0] <= '9' && 'e' in s
  {
    var cs := StripTrailingZeros(ds);
    assert ds[0] != 0;
    assert cs != [];
    assert DigitsBelow(cs, 10);
    var head := [DigitChar(cs[0])];
    var tail := (if |cs| > 1 then "." + Render(cs[1..]) else "") + "e+";
    var s := head + tail + Decimal(|ds| - 1);
    assert s[|head| + |tail| - 2] == 'e';
    s
  }

  /**
   * `toString()` of an integer-valued BigNumber: the plain decimal while it has at
   * most 21 digits, the exponential notation after its sign beyond that.
   */
  function IntegerString(v: int): (s: string)
    ensures |MinDigits(Abs(v), 10)| <= ExponentialAt ==> s == IntDecimal(v)
    ensures |MinDigits(Abs(v), 10)| > ExponentialAt ==>
      |s| >= 1 && (s[0] == '-' <==> v < 0)
      && var body := if v < 0 then s[1..] else s;
         |body| >= 2 && '1' <= body[0] <= '9' && 'e' in body
  {
    var ds := MinDigits(Abs(v), 10);
    if |ds| <= ExponentialAt then IntDecimal(v)
    else
      var e := Exponential(ds);
      var s := (if v < 0 then "-" else "") + e;
      assert (if v < 0 then s[1..] else s) == e;
      s
  }
}
