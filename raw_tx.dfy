/**
 * `getRawTx`: the field record of the unsigned `transfer` transaction handed to the
 * transaction library and, hex-encoded, to the signing device; also the gas limit
 * constant and the scaling of a whole USDT amount to the token's six decimals.
 */
module RawTx {
  import opened Results
  import opened Numerals
  import opened ScaledDecimal
  import opened UsdtConf
  import opened AbiCodec
  import opened EventValues

  /** `USDT_TRANSFER_GAS_LIMIT`: 90000 gas. */
  const TransferGasLimit: string := "0x15f90"

  /** `getRawTx` defaults to mainnet. */
  const DefaultChainId: int := 1

  /** What `value`, `r` and `s` are set to. */
  const ZeroQuantity: string := "0x00"

  /** USDT has six decimals. */
  const UsdtUnit: nat := 1000000

  /** The object literal `rawTx`. */
  datatype TxFields = TxFields(
    nonce: string,
    gasPrice: string,
    gasLimit: string,
    to: string,
    value: string,
    chainId: int,
    r: string,
    s: string,
    v: string,
    data: string)

  /** The template `0x0${chainId}`: `0x0` and then the chain id in decimal. */
  function VField(chainId: int): (v: string)
    ensures |v| >= 4 && v[..3] == "0x0" && ParseScaled(v[3..], 0) == Some(chainId)
  {
    FormatScaledByOne(chainId);
    FormatScaledRoundTrip(chainId, 0);
    var v := "0x0" + IntDecimal(chainId);
    assert v[3..] == IntDecimal(chainId);
    v
  }

  /**
   * The fields `getRawTx(to, usdtAmount, nonce, gasGwei, chainId)` builds, in the order
   * JavaScript evaluates them: the call data first, then the gas price through
   * `parseUnits` (the wei amount, or None when it throws), then the network's address.
   * `selectorOf` is the 4-byte keccak selector of a canonical signature.
   */
  function BuildRawTx<G>(to: string, usdtAmount: AbiArg, nonce: nat, gasGwei: G, parseUnits: G -> Option<nat>,
                         selectorOf: string -> Selector, chainId: int := DefaultChainId): (r: Result<TxFields>)
    ensures var calldata := GetCalldata(UsdtAbi, "transfer", [StrArg(to), usdtAmount], selectorOf);
      (r.Success? <==> calldata.Success? && parseUnits(gasGwei).Some? && chainId in UsdtNetworks)
      && (calldata.Failure? ==> r == Failure(calldata.error))
      && (calldata.Success? && parseUnits(gasGwei).None? ==> r == Failure(GasPriceRejected))
      && (calldata.Success? && parseUnits(gasGwei).Some? && chainId !in UsdtNetworks ==> r == Failure(NetworkNotDeclared(chainId)))
    ensures r.Success? ==>
      r.value.nonce == "0x" + LowerHex(nonce)
      && r.value.gasPrice == "0x" + Decimal(parseUnits(gasGwei).value)
      && r.value.gasLimit == TransferGasLimit && r.value.to == UsdtNetworks[chainId].address
      && r.value.value == ZeroQuantity && r.value.chainId == chainId
      && r.value.r == ZeroQuantity && r.value.s == ZeroQuantity
      && r.value.v == VField(chainId)
      && r.value.data == "0x" + GetCalldata(UsdtAbi, "transfer", [StrArg(to), usdtAmount], selectorOf).value
  {
    match GetCalldata(UsdtAbi, "transfer", [StrArg(to), usdtAmount], selectorOf)
    case Failure(e) => Failure(e)
    case Success(calldata) =>
      match parseUnits(gasGwei)
      case None => Failure(GasPriceRejected)
      case Some(wei) =>
        match ResolveNetwork(chainId)
        case Failure(e) => Failure(e)
        case Success(network) =>
          Success(TxFields(
            "0x" + LowerHex(nonce),
            "0x" + Decimal(wei),
            TransferGasLimit,
            network.address,
            ZeroQuantity,
            chainId,
            ZeroQuantity,
            ZeroQuantity,
            VField(chainId),
            "0x" + calldata))
  }

  /**
   * `new Tx(rawTx).serialize().toString('hex')`, with the library's serialisation
   * passed in (None when it throws).
   */
  function GetRawTx<G>(to: string, usdtAmount: AbiArg, nonce: nat, gasGwei: G, parseUnits: G -> Option<nat>,
                       selectorOf: string -> Selector, serialize: TxFields -> Option<seq<Byte>>,
                       chainId: int := DefaultChainId): (r: Result<string>)
    ensures var fields := BuildRawTx(to, usdtAmount, nonce, gasGwei, parseUnits, selectorOf, chainId);
      (r.Success? <==> fields.Success? && serialize(fields.value).Some?)
      && (fields.Failure? ==> r == Failure(fields.error))
      && (r.Success? ==> BytesOfHex(r.value) == Some(serialize(fields.value).value))
  {
    match BuildRawTx(to, usdtAmount, nonce, gasGwei, parseUnits, selectorOf, chainId)
    case Failure(e) => Failure(e)
    case Success(fields) =>
      match serialize(fields)
      case None => Failure(TransactionRejected)
      case Some(bytes) =>
        BytesOfHexRoundTrip(bytes);
        Success(HexOfBytes(bytes))
  }

  /**
   * The nonce field is `0x` and the lower-case hexadecimal digits of the nonce, with no
   * leading zero except in `0x0`, and it reads back as the nonce.
   */
  lemma NonceField<G>(to: string, usdtAmount: AbiArg, nonce: nat, gasGwei: G, parseUnits: G -> Option<nat>,
                      selectorOf: string -> Selector, chainId: int)
    requires BuildRawTx(to, usdtAmount, nonce, gasGwei, parseUnits, selectorOf, chainId).Success?
    ensures var f := BuildRawTx(to, usdtAmount, nonce, gasGwei, parseUnits, selectorOf, chainId).value;
      |f.nonce| >= 3 && f.nonce[..2] == "0x" && (f.nonce[2] == '0' ==> nonce == 0)
      && (forall i :: 2 <= i < |f.nonce| ==> '0' <= f.nonce[i] <= '9' || 'a' <= f.nonce[i] <= 'f')
      && ParseHexQuantity(f.nonce) == Some(nonce)
  {
    var f := BuildRawTx(to, usdtAmount, nonce, gasGwei, parseUnits, selectorOf, chainId).value;
    LowerHexRoundTrip(nonce);
    LowerHexDigits(nonce);
    assert f.nonce == "0x" + LowerHex(nonce);
    assert f.nonce[2..] == LowerHex(nonce);
  }

  lemma LowerHexDigits(n: nat)
    ensures forall i :: 0 <= i < |LowerHex(n)| ==> '0' <= LowerHex(n)[i] <= '9' || 'a' <= LowerHex(n)[i] <= 'f'
  {
  }

  /**
   * The gas price field is `0x` glued to the decimal digits of the wei amount, so it
   * reads as the wei amount in decimal, and as hexadecimal it means the wei amount
   * only when that is below 10.
   */
  lemma GasPriceField<G>(to: string, usdtAmount: AbiArg, nonce: nat, gasGwei: G, parseUnits: G -> Option<nat>,
                         selectorOf: string -> Selector, chainId: int)
    requires BuildRawTx(to, usdtAmount, nonce, gasGwei, parseUnits, selectorOf, chainId).Success?
    ensures parseUnits(gasGwei).Some?
    ensures var f := BuildRawTx(to, usdtAmount, nonce, gasGwei, parseUnits, selectorOf, chainId).value;
      var wei := parseUnits(gasGwei).value;
      |f.gasPrice| >= 3 && f.gasPrice[..2] == "0x" && ParseNumeral(f.gasPrice[2..], 10) == Some(wei)
      && (ParseHexQuantity(f.gasPrice) == Some(wei) <==> wei < 10)
  {
    var f := BuildRawTx(to, usdtAmount, nonce, gasGwei, parseUnits, selectorOf, chainId).value;
    var wei := parseUnits(gasGwei).value;
    assert f.gasPrice == "0x" + Decimal(wei);
    assert f.gasPrice[2..] == Decimal(wei);
    DecimalRoundTrip(wei);
    PrefixedDecimalReadAsHex(wei);
  }

  /**
   * The `v` field read as a hexadecimal quantity is the chain id exactly for the chains
   * 0 to 9; from chain 10 on the template's decimal digits mean another number.
   */
  lemma VFieldReadsAsChainId(chainId: nat)
    ensures ParseHexQuantity(VField(chainId)) == Some(chainId) <==> chainId < 10
  {
    assert VField(chainId) == "0x0" + Decimal(chainId);
    ZeroPrefixedDecimalReadAsHex(chainId);
  }

  /**
   * The data field is `0x` in front of a call data string that already starts with
   * `0x`; after the four characters `0x0x` come the call data bytes in hexadecimal.
   */
  lemma DataField<G>(to: string, usdtAmount: AbiArg, nonce: nat, gasGwei: G, parseUnits: G -> Option<nat>,
                     selectorOf: string -> Selector, chainId: int)
    requires BuildRawTx(to, usdtAmount, nonce, gasGwei, parseUnits, selectorOf, chainId).Success?
    ensures CalldataBytes(UsdtAbi, "transfer", [StrArg(to), usdtAmount], selectorOf).Success?
    ensures var f := BuildRawTx(to, usdtAmount, nonce, gasGwei, parseUnits, selectorOf, chainId).value;
      |f.data| >= 4 && f.data[..4] == "0x0x"
      && BytesOfHex(f.data[4..]) == Some(CalldataBytes(UsdtAbi, "transfer", [StrArg(to), usdtAmount], selectorOf).value)
  {
    var calldata := GetCalldata(UsdtAbi, "transfer", [StrArg(to), usdtAmount], selectorOf).value;
    var f := BuildRawTx(to, usdtAmount, nonce, gasGwei, parseUnits, selectorOf, chainId).value;
    assert f.data == "0x" + calldata;
    DoublePrefix(calldata);
  }

  lemma DoublePrefix(c: string)
    requires |c| >= 2 && c[..2] == "0x"
    ensures var d := "0x" + c; |d| >= 4 && d[..4] == "0x0x" && d[4..] == c[2..]
  {
    var d := "0x" + c;
    assert d[..4] == "0x" + c[..2];
  }

  lemma ScanCons(c: char, rest: string, base: nat)
    requires CharDigit(c).Some? && CharDigit(c).value < base && Scan(rest, base).Some?
    ensures Scan([c] + rest, base) == Some([CharDigit(c).value] + Scan(rest, base).value)
  {
    var s := [c] + rest;
    assert s[0] == c && s[1..] == rest;
  }

  /** `0x15f90` is 90000. */
  lemma GasLimitValue()
    ensures ParseHexQuantity(TransferGasLimit) == Some(90000)
  {
    var s := TransferGasLimit;
    assert CharDigit('0') == Some(0) && CharDigit('9') == Some(9) && CharDigit('f') == Some(15);
    assert CharDigit('5') == Some(5) && CharDigit('1') == Some(1);
    var e: string := [];
    var t0 := ['0'] + e;
    var t1 := ['9'] + t0;
    var t2 := ['f'] + t1;
    var t3 := ['5'] + t2;
    var t4 := ['1'] + t3;
    var r0: seq<nat>, r1: seq<nat>, r2: seq<nat>, r3: seq<nat> := [0], [9, 0], [15, 9, 0], [5, 15, 9, 0];
    var ds: seq<nat> := [1, 5, 15, 9, 0];
    assert Scan(e, 16) == Some([]);
    ScanCons('0', e, 16);
    assert [0] + [] == r0;
    assert Scan(t0, 16) == Some(r0);
    ScanCons('9', t0, 16);
    assert [9] + r0 == r1;
    ScanCons('f', t1, 16);
    assert [15] + r1 == r2;
    ScanCons('5', t2, 16);
    assert [5] + r2 == r3;
    ScanCons('1', t3, 16);
    assert [1] + r3 == ds;
    assert s[..2] == "0x" && s[2..] == t4;
    assert Scan(s[2..], 16) == Some(ds);
    assert FromDigits(ds, 16) == 90000 by {
      var d1: seq<nat>, d2: seq<nat>, d3: seq<nat>, d4: seq<nat> := [1], [1, 5], [1, 5, 15], [1, 5, 15, 9];
      assert d1[..0] == [] && d2[..1] == d1 && d3[..2] == d2 && d4[..3] == d3 && ds[..4] == d4;
      assert FromDigits(d1, 16) == 1;
      assert FromDigits(d2, 16) == 21;
      assert FromDigits(d3, 16) == 351;
      assert FromDigits(d4, 16) == 5625;
    }
  }

  /**
   * Network lookup is the last step: with valid call data and gas price the record is
   * built exactly for chains 1, 3 and 5, and chain 4, which the script passes, fails.
   */
  lemma RawTxNetworks<G>(to: string, usdtAmount: AbiArg, nonce: nat, gasGwei: G, parseUnits: G -> Option<nat>,
                         selectorOf: string -> Selector, chainId: int)
    requires GetCalldata(UsdtAbi, "transfer", [StrArg(to), usdtAmount], selectorOf).Success?
    requires parseUnits(gasGwei).Some?
    ensures BuildRawTx(to, usdtAmount, nonce, gasGwei, parseUnits, selectorOf, chainId).Success?
            <==> chainId == 1 || chainId == 3 || chainId == 5
    ensures BuildRawTx(to, usdtAmount, nonce, gasGwei, parseUnits, selectorOf, 4) == Failure(NetworkNotDeclared(4))
  {
    UsdtNetworkLookup(chainId);
  }

  /** Scaling by 10^6 adds six digits to a non-zero amount. */
  lemma AmountDigits(n: int)
    ensures n == 0 ==> n * UsdtUnit == 0
    ensures n != 0 ==> |MinDigits(Abs(n * UsdtUnit), 10)| == |MinDigits(Abs(n), 10)| + 6
  {
    assert Pow(10, 6) == UsdtUnit;
    MulSign(n, UsdtUnit);
    if n != 0 {
      MinDigitsShift(Abs(n), 6);
    }
  }

  /**
   * `new BN(usdtAmount).times(1e6).toString()` for a whole amount: the exact product in
   * decimal while the amount has at most 15 digits; beyond that the product reaches
   * 10^21 and bignumber.js writes it in exponential notation.
   */
  function ScaleAmount(n: int): (s: string)
    ensures |MinDigits(Abs(n), 10)| <= 15 ==> s == IntDecimal(n * UsdtUnit)
    ensures |MinDigits(Abs(n), 10)| > 15 ==>
      var body := if |s| >= 1 && s[0] == '-' then s[1..] else s;
      |body| >= 1 && '1' <= body[0] <= '9' && 'e' in body
  {
    AmountDigits(n);
    IntegerString(n * UsdtUnit)
  }

  /**
   * The encoder reads the scaled amount as the integer `n * 10^6` exactly when the
   * amount has at most 15 digits, and refuses it otherwise; a transfer event carrying
   * `n * 10^6` is reported, after `formatEventValues` with `1e6`, as the decimal of `n`.
   */
  lemma ScaledAmountRoundTrip(n: int)
    ensures ArgInteger(StrArg(ScaleAmount(n))).Some? <==> |MinDigits(Abs(n), 10)| <= 15
    ensures |MinDigits(Abs(n), 10)| <= 15 ==> ArgInteger(StrArg(ScaleAmount(n))) == Some(n * UsdtUnit)
    ensures ScaleBigNumbers(BigNum(n * UsdtUnit), UsdPrecision) == Str(IntDecimal(n))
  {
    if |MinDigits(Abs(n), 10)| <= 15 {
      BigNumberOfDecimal(n * UsdtUnit);
    } else {
      ExponentialRefused(ScaleAmount(n));
    }
    assert Pow(10, 6) == UsdtUnit;
    FormatScaledOfMultiple(n, 6);
  }

  /**
   * An amount of 10^15 USDT or more cannot be sent: the encoder refuses its scaled
   * string, and with a valid recipient the error names the amount argument.
   */
  lemma LargeAmountRejected<G>(to: string, n: int, nonce: nat, gasGwei: G, parseUnits: G -> Option<nat>,
                               selectorOf: string -> Selector, chainId: int)
    requires |MinDigits(Abs(n), 10)| > 15
    ensures var r := BuildRawTx(to, StrArg(ScaleAmount(n)), nonce, gasGwei, parseUnits, selectorOf, chainId);
      r.Failure? && (AddressBytes(to).Some? ==> r.error == InvalidArgument(1))
  {
    var args := [StrArg(to), StrArg(ScaleAmount(n))];
    var ts := [Address, Uint256];
    ScaledAmountRoundTrip(n);
    UsdtTransferDecl();
    assert Coerce(ts[1], args[1], 1).Failure?;
    assert CoerceAll(ts, args, 0).Failure?;
    CoerceAllRejects(ts, args, 0);
  }

  /** Multiplying a positive number by 10^k appends k zeros to its decimal digits. */
  lemma DecimalShift(n: nat, k: nat)
    requires n > 0
    ensures Decimal(n * Pow(10, k)) == Decimal(n) + Render(Zeros(k))
  {
    MinDigitsShift(n, k);
    RenderConcat(MinDigits(n, 10), Zeros(k));
  }

  lemma SixZeros()
    ensures Render(Zeros(6)) == "000000"
  {
    assert Zeros(6) == [0, 0, 0, 0, 0, 0];
  }

  /** For a positive amount of at most 15 digits, scaling appends six zeros to its decimal digits. */
  lemma ScaleAmountAppendsZeros(n: int)
    requires n > 0
    ensures |MinDigits(n, 10)| <= 15 ==> ScaleAmount(n) == Decimal(n) + "000000"
  {
    if |MinDigits(n, 10)| <= 15 {
      assert Pow(10, 6) == UsdtUnit && Abs(n) == n;
      DecimalShift(n, 6);
      SixZeros();
      assert ScaleAmount(n) == Decimal(n * Pow(10, 6));
    }
  }

  /** The script's 100 USDT become the string `100000000`. */
  lemma HundredUsdtAmount()
    ensures ScaleAmount(100) == "100000000"
  {
    assert MinDigits(100, 10) == [1, 0, 0];
    ScaleAmountAppendsZeros(100);
  }
}
