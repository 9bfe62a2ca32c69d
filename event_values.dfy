/**
 * `formatEventValues`: the normaliser applied to the values ethers decodes from an
 * event log. It keeps the named entries of the decoded result (dropping the entries
 * that also index it as an array, and `length`) and then replaces every big integer,
 * at any depth, by the exact decimal string of `value / precision`.
 */
module EventValues {
  import opened Results
  import opened Numerals
  import opened ScaledDecimal

  /**
   * A node of a decoded event result: a big integer (ethers' `BigNumber`), a string
   * (addresses and strings), a boolean, or a nested object with named entries.
   */
  datatype Value =
    | BigNum(n: int)
    | Str(s: string)
    | Bool(b: bool)
    | Obj(fields: map<string, Value>)

  /** The precision `10^k` is given by its exponent; `formatEventValues` defaults to `1e0`. */
  const DefaultPrecision: nat := 0

  /** `getLog` formats with `usdPrecision = 1e6`. */
  const UsdPrecision: nat := 6

  /** A key that `/^\d+$/` matches (one or more ASCII digits), or the key `length`. */
  predicate IsArrayKey(key: string)
  {
    key == "length" || (|key| > 0 && forall i :: 0 <= i < |key| ==> '0' <= key[i] <= '9')
  }

  /** No big integer occurs anywhere in `v`. */
  predicate NoBigNumbers(v: Value)
  {
    match v
    case BigNum(_) => false
    case Obj(fs) => forall key :: key in fs ==> NoBigNumbers(fs[key])
    case _ => true
  }

  /**
   * What `traverse(v).map` does with the update of `formatEventValues`: on a copy of
   * `v`, every big integer node becomes the string of its quotient by 10^k; nothing
   * else changes.
   */
  function ScaleBigNumbers(v: Value, k: nat): (r: Value)
    ensures NoBigNumbers(r)
    ensures v.BigNum? ==> r.Str? && ParseScaled(r.s, k) == Some(v.n)
    ensures v.Str? || v.Bool? ==> r == v
    ensures v.Obj? ==> r.Obj? && r.fields.Keys == v.fields.Keys
  {
    match v
    case BigNum(n) =>
      FormatScaledRoundTrip(n, k);
      Str(FormatScaled(n, k))
    case Obj(fs) => Obj(map key | key in fs :: ScaleBigNumbers(fs[key], k))
    case _ => v
  }

  /** A value with no big integer in it comes out of the traversal unchanged. */
  lemma {:induction false} ScaleWithoutBigNumbers(v: Value, k: nat)
    requires NoBigNumbers(v)
    ensures ScaleBigNumbers(v, k) == v
  {
    match v
    case Obj(fs) =>
      forall key | key in fs
        ensures ScaleBigNumbers(fs[key], k) == fs[key]
      {
        ScaleWithoutBigNumbers(fs[key], k);
      }
      assert (map key | key in fs :: ScaleBigNumbers(fs[key], k)) == fs;
    case _ =>
  }

  /** Formatting a second time changes nothing. */
  lemma ScaleIdempotent(v: Value, k: nat)
    ensures ScaleBigNumbers(ScaleBigNumbers(v, k), k) == ScaleBigNumbers(v, k)
  {
    ScaleWithoutBigNumbers(ScaleBigNumbers(v, k), k);
  }

  /** A nested big integer is converted with the same precision as a top-level one. */
  lemma ScaleNested(fs: map<string, Value>, key: string, k: nat)
    requires key in fs
    ensures ScaleBigNumbers(Obj(fs), k).fields[key] == ScaleBigNumbers(fs[key], k)
  {
  }

  /** With the default precision `1e0` a big integer becomes its own decimal rendering. */
  lemma ScaleDefaultPrecision(n: int)
    ensures ScaleBigNumbers(BigNum(n), DefaultPrecision) == Str(IntDecimal(n))
  {
    FormatScaledByOne(n);
  }

  /** The named entries of a decoded result: the entries whose key is not an array key. */
  function TrimmedValues(values: map<string, Value>): (ret: map<string, Value>)
    ensures forall key :: key in ret <==> key in values && !IsArrayKey(key)
    ensures forall key :: key in ret ==> ret[key] == values[key]
  {
    map key | key in values && !IsArrayKey(key) :: values[key]
  }

  /** The whole of `formatEventValues(values, 10^k)`. */
  function FormattedValues(values: map<string, Value>, k: nat): (ret: map<string, Value>)
    ensures forall key :: key in ret <==> key in values && !IsArrayKey(key)
    ensures forall key :: key in ret ==> ret[key] == ScaleBigNumbers(values[key], k)
  {
    var trimmed := TrimmedValues(values);
    map key | key in trimmed :: ScaleBigNumbers(trimmed[key], k)
  }

  /**
   * The `reduce` of `formatEventValues`: visits the keys one at a time and copies an
   * entry into the accumulator when its key is not an array key.
   */
  method TrimValues(values: map<string, Value>) returns (ret: map<string, Value>)
    ensures ret == TrimmedValues(values)
  {
    ret := map[];
    var pending := values.Keys;
    while pending != {}
      invariant pending <= values.Keys
      invariant forall key :: key in ret <==> key in values && key !in pending && !IsArrayKey(key)
      invariant forall key :: key in ret ==> ret[key] == values[key]
      decreases pending
    {
      var key :| key in pending;
      if !IsArrayKey(key) {
        ret := ret[key := values[key]];
      }
      pending := pending - {key};
    }
  }

  /**
   * `formatEventValues(values, 10^k)`: the named entries, each with its big integers
   * replaced by their exact quotients by 10^k. The input is a value and stays as it was.
   */
  method FormatEventValues(values: map<string, Value>, k: nat := DefaultPrecision) returns (ret: map<string, Value>)
    ensures ret == FormattedValues(values, k)
  {
    var trimmed := TrimValues(values);
    ret := map key | key in trimmed :: ScaleBigNumbers(trimmed[key], k);
  }

  /** Digit-only keys and `length` are dropped; any other key, the empty key included, is kept. */
  lemma ArrayKeyExamples()
    ensures IsArrayKey("0") && IsArrayKey("12") && IsArrayKey("length")
    ensures !IsArrayKey("from") && !IsArrayKey("to") && !IsArrayKey("value") && !IsArrayKey("")
    ensures !IsArrayKey("1a") && !IsArrayKey("Length")
  {
    assert "1a"[1] == 'a';
    assert "from"[0] == 'f';
    assert "to"[0] == 't';
    assert "value"[0] == 'v';
    assert "Length"[0] == 'L';
  }

  /** Entries that hold no big integer (addresses, say) appear in the result unchanged. */
  lemma FormattedKeepsOtherValues(values: map<string, Value>, k: nat, key: string)
    requires key in values && !IsArrayKey(key) && NoBigNumbers(values[key])
    ensures key in FormattedValues(values, k) && FormattedValues(values, k)[key] == values[key]
  {
    ScaleWithoutBigNumbers(values[key], k);
  }

  /** The transfer value `100000000` at `usdPrecision` is reported as `"100"`. */
  lemma FormattedTransferValue(values: map<string, Value>)
    requires "value" in values && values["value"] == BigNum(100000000)
    ensures "value" in FormattedValues(values, UsdPrecision)
    ensures FormattedValues(values, UsdPrecision)["value"] == Str("100")
  {
    ArrayKeyExamples();
    HundredUsdt();
  }
}
