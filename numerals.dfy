/**
 * Positional numerals: digit sequences in a base, their rendering as lower-case
 * characters (what `Number.prototype.toString(16)` and the decimal `toString` of the
 * big-number libraries print), parsing them back, and bytes as big-endian words and
 * as hexadecimal text.
 */
module Numerals {
  import opened Results

  type Byte = x: nat | x < 256

  function Pow(b: nat, e: nat): (r: nat)
    ensures b >= 1 ==> r >= 1
  {
    if e == 0 then 1 else b * Pow(b, e - 1)
  }

  /** `n` zero digits (or zero bytes). */
  function Zeros(n: nat): (z: seq<nat>)
    ensures |z| == n && forall i :: 0 <= i < n ==> z[i] == 0
  {
    if n == 0 then [] else [0] + Zeros(n - 1)
  }

  predicate DigitsBelow(ds: seq<nat>, base: nat)
  {
    forall i :: 0 <= i < |ds| ==> ds[i] < base
  }

  /** The value of a big-endian digit sequence; the empty sequence stands for 0. */
  function FromDigits(ds: seq<nat>, base: nat): nat
  {
    if ds == [] then 0 else FromDigits(ds[..|ds| - 1], base) * base + ds[|ds| - 1]
  }

  lemma DivModUnique(n: int, m: int, q: int, r: int)
    requires m > 0 && 0 <= r < m && n == q * m + r
    ensures n / m == q && n % m == r
  {
    var q', r' := n / m, n % m;
    assert n == q' * m + r';
    if q' < q {
      assert (q - q') * m == q * m - q' * m;
      MulAtLeast(q - q', m);
    } else if q' > q {
      assert (q' - q) * m == q' * m - q * m;
      MulAtLeast(q' - q, m);
    }
  }

  lemma {:induction false} MulAtLeast(k: nat, m: nat)
    requires k >= 1
    ensures k * m >= m
  {
    if k > 1 {
      MulAtLeast(k - 1, m);
      assert k * m == (k - 1) * m + m;
    }
  }

  lemma DivShrinks(n: nat, base: nat)
    requires base >= 2 && n >= base
    ensures 1 <= n / base < n && n == n / base * base + n % base
  {
  }

  /** `n` in `base` with no leading zeros (a single `0` for zero). */
  function MinDigits(n: nat, base: nat): (ds: seq<nat>)
    requires base >= 2
    ensures 1 <= |ds| && DigitsBelow(ds, base)
    ensures n == 0 ==> ds == [0]
    ensures n > 0 ==> ds[0] != 0
    ensures |ds| == 1 <==> n < base
    decreases n
  {
    if n < base then [n]
    else
      DivShrinks(n, base);
      MinDigits(n / base, base) + [n % base]
  }

  lemma FromDigitsSnoc(pre: seq<nat>, d: nat, base: nat)
    ensures FromDigits(pre + [d], base) == FromDigits(pre, base) * base + d
  {
    assert (pre + [d])[..|pre|] == pre;
  }

  /** The digits `MinDigits` produces are those of `n`. */
  lemma {:induction false} MinDigitsValue(n: nat, base: nat)
    requires base >= 2
    ensures FromDigits(MinDigits(n, base), base) == n
    decreases n
  {
    if n < base {
      FromDigitsSnoc([], n, base);
    } else {
      DivShrinks(n, base);
      FromDigitsSnoc(MinDigits(n / base, base), n % base, base);
      MinDigitsValue(n / base, base);
    }
  }

  lemma {:induction false} LeadingZeroValue(ds: seq<nat>, base: nat)
    ensures FromDigits([0] + ds, base) == FromDigits(ds, base)
    decreases |ds|
  {
    if ds == [] {
      assert FromDigits([0], base) == FromDigits([], base) * base + 0;
    } else {
      var ext := [0] + ds;
      assert ext[..|ext| - 1] == [0] + ds[..|ds| - 1];
      LeadingZeroValue(ds[..|ds| - 1], base);
    }
  }

  lemma {:induction false} LeadingNonZeroPositive(ds: seq<nat>, base: nat)
    requires base >= 1 && |ds| >= 1 && ds[0] != 0
    ensures FromDigits(ds, base) >= 1
    decreases |ds|
  {
    if |ds| > 1 {
      LeadingNonZeroPositive(ds[..|ds| - 1], base);
    }
  }

  /** Reading decimal digits as hexadecimal never gives less, and gives more once there are two digits. */
  lemma {:induction false} DecimalDigitsInBase16(ds: seq<nat>)
    requires DigitsBelow(ds, 10)
    ensures FromDigits(ds, 16) >= FromDigits(ds, 10)
    ensures |ds| >= 2 && ds[0] != 0 ==> FromDigits(ds, 16) > FromDigits(ds, 10)
    decreases |ds|
  {
    if ds != [] {
      var pre := ds[..|ds| - 1];
      DecimalDigitsInBase16(pre);
      if |ds| >= 2 && ds[0] != 0 {
        LeadingNonZeroPositive(pre, 10);
      }
    }
  }

  /** The character of a digit below 16: `0`-`9`, then lower-case `a`-`f`. */
  function DigitChar(d: nat): (c: char)
    requires d < 16
    ensures '0' <= c <= '9' || 'a' <= c <= 'f'
  {
    if d < 10 then ('0' as int + d) as char else ('a' as int + d - 10) as char
  }

  lemma DigitCharValue(d: nat)
    requires d < 16
    ensures CharDigit(DigitChar(d)) == Some(d)
  {
  }

  /** The value of a hexadecimal digit character of either case. */
  function CharDigit(c: char): (r: Option<nat>)
    ensures r.Some? ==> r.value < 16
    ensures r.Some? && r.value < 10 <==> '0' <= c <= '9'
  {
    if '0' <= c <= '9' then Some(c as int - '0' as int)
    else if 'a' <= c <= 'f' then Some(c as int - 'a' as int + 10)
    else if 'A' <= c <= 'F' then Some(c as int - 'A' as int + 10)
    else None
  }

  /** Digits as lower-case characters. */
  function Render(ds: seq<nat>): (s: string)
    requires DigitsBelow(ds, 16)
    ensures |s| == |ds|
    ensures forall i :: 0 <= i < |s| ==> CharDigit(s[i]) == Some(ds[i])
    ensures forall i :: 0 <= i < |s| ==> '0' <= s[i] <= '9' || 'a' <= s[i] <= 'f'
  {
    if ds == [] then "" else [DigitChar(ds[0])] + Render(ds[1..])
  }

  lemma {:induction false} RenderConcat(a: seq<nat>, b: seq<nat>)
    requires DigitsBelow(a, 16) && DigitsBelow(b, 16)
    ensures Render(a + b) == Render(a) + Render(b)
    decreases |a|
  {
    if a == [] {
      assert a + b == b;
    } else {
      assert (a + b)[1..] == a[1..] + b;
      RenderConcat(a[1..], b);
    }
  }

  /** The digit values of `s`, when every character of it is a digit of `base`. */
  function Scan(s: string, base: nat): (r: Option<seq<nat>>)
    ensures r.Some? ==> |r.value| == |s|
    decreases |s|
  {
    if s == [] then Some([])
    else match (CharDigit(s[0]), Scan(s[1..], base))
      case (Some(d), Some(rest)) => if d < base then Some([d] + rest) else None
      case _ => None
  }

  /** A string scans in `base` exactly when each of its characters is a digit below `base`. */
  lemma {:induction false} ScanAccepts(s: string, base: nat)
    ensures Scan(s, base).Some? <==> forall i :: 0 <= i < |s| ==> CharDigit(s[i]).Some? && CharDigit(s[i]).value < base
    decreases |s|
  {
    if s != [] {
      ScanAccepts(s[1..], base);
      assert forall i :: 1 <= i < |s| ==> s[i] == s[1..][i - 1];
    }
  }

  lemma {:induction false} ScanRender(ds: seq<nat>, base: nat)
    requires base <= 16 && DigitsBelow(ds, base)
    ensures Scan(Render(ds), base) == Some(ds)
    decreases |ds|
  {
    if ds != [] {
      assert Render(ds)[1..] == Render(ds[1..]);
      DigitCharValue(ds[0]);
      ScanRender(ds[1..], base);
      assert [ds[0]] + ds[1..] == ds;
    }
  }

  /** A non-empty string of digits of `base` read as a number (as `parseInt(s, base)` reads a clean numeral). */
  function ParseNumeral(s: string, base: nat): Option<nat>
  {
    if s == [] then None
    else match Scan(s, base)
      case None => None
      case Some(ds) => Some(FromDigits(ds, base))
  }

  lemma ParseRendered(ds: seq<nat>, base: nat)
    requires base <= 16 && ds != [] && DigitsBelow(ds, base)
    ensures ParseNumeral(Render(ds), base) == Some(FromDigits(ds, base))
  {
    ScanRender(ds, base);
  }

  /** `n` in decimal, no leading zeros. */
  function Decimal(n: nat): string
  {
    Render(MinDigits(n, 10))
  }

  /** `n` in lower-case hexadecimal, no leading zeros: `Number(n).toString(16)`. */
  function LowerHex(n: nat): (s: string)
    ensures |s| >= 1 && (s[0] == '0' ==> s == "0")
    ensures forall i :: 0 <= i < |s| ==> '0' <= s[i] <= '9' || 'a' <= s[i] <= 'f'
  {
    Render(MinDigits(n, 16))
  }

  /** An integer in decimal with a leading `-` when negative. */
  function IntDecimal(v: int): string
  {
    (if v < 0 then "-" else "") + Decimal(if v < 0 then -v else v)
  }

  /** The value of a `0x`-prefixed hexadecimal quantity string. */
  function ParseHexQuantity(s: string): Option<nat>
  {
    if |s| >= 2 && s[..2] == "0x" then ParseNumeral(s[2..], 16) else None
  }

  lemma DecimalRoundTrip(n: nat)
    ensures |Decimal(n)| >= 1 && (Decimal(n)[0] == '0' ==> n == 0)
    ensures forall i :: 0 <= i < |Decimal(n)| ==> '0' <= Decimal(n)[i] <= '9'
    ensures ParseNumeral(Decimal(n), 10) == Some(n)
  {
    ParseRendered(MinDigits(n, 10), 10);
    MinDigitsValue(n, 10);
  }

  lemma LowerHexRoundTrip(n: nat)
    ensures |LowerHex(n)| >= 1 && (LowerHex(n)[0] == '0' ==> n == 0)
    ensures ParseNumeral(LowerHex(n), 16) == Some(n)
    ensures ParseHexQuantity("0x" + LowerHex(n)) == Some(n)
  {
    ParseRendered(MinDigits(n, 16), 16);
    MinDigitsValue(n, 16);
    var s := "0x" + LowerHex(n);
    assert s[..2] == "0x" && s[2..] == LowerHex(n);
  }

  /** The decimal digits of `n`, weighed as hexadecimal digits, give `n` back exactly when `n` has one digit. */
  lemma DecimalDigitsAsHex(n: nat)
    ensures FromDigits(MinDigits(n, 10), 16) == n <==> n < 10
  {
    var ds := MinDigits(n, 10);
    MinDigitsValue(n, 10);
    DecimalDigitsInBase16(ds);
    if n < 10 {
      assert ds == [n];
      assert FromDigits(ds, 16) == FromDigits([], 16) * 16 + n;
    }
  }

  /** A decimal numeral read as hexadecimal gives the same number exactly when it has one digit. */
  lemma DecimalReadAsHex(n: nat)
    ensures ParseNumeral(Decimal(n), 16) == Some(n) <==> n < 10
  {
    ParseRendered(MinDigits(n, 10), 16);
    DecimalDigitsAsHex(n);
  }

  /** `0x` followed by a decimal numeral is a hexadecimal quantity equal to it only below 10. */
  lemma PrefixedDecimalReadAsHex(n: nat)
    ensures ParseHexQuantity("0x" + Decimal(n)) == Some(n) <==> n < 10
  {
    var s := "0x" + Decimal(n);
    assert s[..2] == "0x" && s[2..] == Decimal(n);
    DecimalReadAsHex(n);
  }

  /** `0x0` followed by a decimal numeral is a hexadecimal quantity equal to it only below 10. */
  lemma ZeroPrefixedDecimalReadAsHex(n: nat)
    ensures ParseHexQuantity("0x0" + Decimal(n)) == Some(n) <==> n < 10
  {
    var ds := MinDigits(n, 10);
    var t := "0x0" + Decimal(n);
    assert t[..2] == "0x";
    assert t[2..] == Render([0] + ds) by {
      assert Render([0]) == "0";
      RenderConcat([0], ds);
    }
    ParseRendered([0] + ds, 16);
    LeadingZeroValue(ds, 16);
    DecimalDigitsAsHex(n);
  }

  /** A byte as two lower-case hexadecimal characters, then the rest. */
  function HexOfBytes(bs: seq<Byte>): (s: string)
    ensures |s| == 2 * |bs|
    ensures forall i :: 0 <= i < |s| ==> '0' <= s[i] <= '9' || 'a' <= s[i] <= 'f'
  {
    if bs == [] then "" else [DigitChar(bs[0] / 16), DigitChar(bs[0] % 16)] + HexOfBytes(bs[1..])
  }

  /** Hexadecimal text (either case, two characters per byte) back to bytes. */
  function BytesOfHex(s: string): (r: Option<seq<Byte>>)
    ensures r.Some? ==> 2 * |r.value| == |s|
    decreases |s|
  {
    if s == [] then Some([])
    else if |s| < 2 then None
    else match (CharDigit(s[0]), CharDigit(s[1]), BytesOfHex(s[2..]))
      case (Some(hi), Some(lo), Some(rest)) => Some([hi * 16 + lo] + rest)
      case _ => None
  }

  /** Hexadecimal text is read exactly when it has an even length and only hexadecimal digits. */
  lemma {:induction false} BytesOfHexAccepts(s: string)
    ensures BytesOfHex(s).Some? <==> |s| % 2 == 0 && forall i :: 0 <= i < |s| ==> CharDigit(s[i]).Some?
    decreases |s|
  {
    if |s| >= 2 {
      BytesOfHexAccepts(s[2..]);
      assert forall i :: 2 <= i < |s| ==> s[i] == s[2..][i - 2];
    }
  }

  lemma {:induction false} BytesOfHexRoundTrip(bs: seq<Byte>)
    ensures BytesOfHex(HexOfBytes(bs)) == Some(bs)
    decreases |bs|
  {
    if bs != [] {
      var s := HexOfBytes(bs);
      var hi, lo := bs[0] / 16, bs[0] % 16;
      assert s[0] == DigitChar(hi) && s[1] == DigitChar(lo) && s[2..] == HexOfBytes(bs[1..]);
      DigitCharValue(hi);
      DigitCharValue(lo);
      assert hi * 16 + lo == bs[0];
      BytesOfHexRoundTrip(bs[1..]);
      assert BytesOfHex(s) == Some([bs[0]] + bs[1..]);
      assert [bs[0]] + bs[1..] == bs;
    }
  }

  /** The `width` low bytes of `n`, most significant first. */
  function BigEndian(n: nat, width: nat): (bs: seq<Byte>)
    ensures |bs| == width
  {
    if width == 0 then [] else BigEndian(n / 256, width - 1) + [n % 256]
  }

  /** A number below 256^width survives the trip through a `width`-byte word. */
  lemma {:induction false} BigEndianRoundTrip(n: nat, width: nat)
    requires n < Pow(256, width)
    ensures FromDigits(BigEndian(n, width), 256) == n
  {
    if width > 0 {
      FromDigitsSnoc(BigEndian(n / 256, width - 1), n % 256, 256);
      BigEndianRoundTrip(n / 256, width - 1);
    }
  }
}
