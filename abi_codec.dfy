/**
 * `getCalldata` and the static part of the Solidity contract ABI encoding it relies
 * on: the function is looked up by name, each argument is coerced to its declared
 * type, and the call data is the 4-byte selector followed by one 32-byte word per
 * argument (the head of a call with static types only, as the "Formal Specification
 * of the Encoding" of the Solidity ABI specification lays out `address` and `uint256`).
 */
module AbiCodec {
  import opened Results
  import opened Numerals
  import opened ScaledDecimal
  import opened UsdtConf

  /** The first four bytes of keccak-256 of a function's canonical signature. */
  type Selector = s: seq<Byte> | |s| == 4 witness [0, 0, 0, 0]

  /** One past the largest `uint256`. */
  const WordLimit: nat := Pow(256, 32)

  /** An argument as a script passes it: a JavaScript string or an integer number. */
  datatype AbiArg = StrArg(s: string) | IntArg(n: int)

  /** A coerced argument: the 20 bytes of an address, or an unsigned integer. */
  datatype AbiValue = AddressValue(bytes: seq<Byte>) | UintValue(n: nat)

  /** `v` is a value of type `t`: 20 bytes for an address, below 2^256 for a `uint256`. */
  predicate Fits(t: AbiType, v: AbiValue)
  {
    match t
    case Address => v.AddressValue? && |v.bytes| == 20
    case Uint256 => v.UintValue? && v.n < WordLimit
  }

  /**
   * What `getAddress` accepts, checksums aside: 40 hexadecimal digits of either case,
   * with or without a leading `0x`.
   */
  predicate IsAddressText(s: string)
  {
    (|s| == 42 && s[..2] == "0x" && HexDigits(s[2..])) || (|s| == 40 && HexDigits(s))
  }

  predicate HexDigits(t: string)
  {
    forall i :: 0 <= i < |t| ==> CharDigit(t[i]).Some?
  }

  /** The 20 bytes of an address. */
  function AddressBytes(s: string): (r: Option<seq<Byte>>)
    ensures r.Some? <==> IsAddressText(s)
    ensures r.Some? ==> |r.value| == 20
  {
    if |s| == 42 && s[..2] == "0x" then
      BytesOfHexAccepts(s[2..]);
      BytesOfHex(s[2..])
    else if |s| == 40 then
      BytesOfHexAccepts(s);
      BytesOfHex(s)
    else None
  }

  /** The `0x` in front of an address is optional. */
  lemma AddressPrefixOptional(digits: string)
    requires |digits| == 40
    ensures AddressBytes("0x" + digits) == AddressBytes(digits)
  {
    var s := "0x" + digits;
    assert s[..2] == "0x" && s[2..] == digits;
  }

  /** A JavaScript number holds integers exactly below 2^53; bn.js refuses larger ones. */
  const SafeIntegerLimit: nat := 0x20_0000_0000_0000

  /**
   * ethers' `bigNumberify` of a string: an optional `-`, then `0x` and hexadecimal
   * digits of either case, or decimal digits. No digits at all stands for 0 (`""`,
   * `"0x"`, `"-"`). Anything else is refused.
   */
  function BigNumberOfString(s: string): (r: Option<int>)
    ensures r.Some? && r.value < 0 ==> |s| >= 1 && s[0] == '-'
  {
    var neg := |s| >= 1 && s[0] == '-';
    var body := if neg then s[1..] else s;
    if |body| >= 2 && body[..2] == "0x" then
      match Scan(body[2..], 16)
      case None => None
      case Some(ds) => Some(Signed(neg, FromDigits(ds, 16)))
    else
      match Scan(body, 10)
      case None => None
      case Some(ds) => Some(Signed(neg, FromDigits(ds, 10)))
  }

  /** The strings without digits that `bigNumberify` reads as zero. */
  lemma EmptyNumeralsAreZero()
    ensures BigNumberOfString("") == Some(0)
    ensures BigNumberOfString("0x") == Some(0)
    ensures BigNumberOfString("-") == Some(0)
  {
    assert "-"[1..] == "";
    assert "0x"[2..] == "";
  }

  /** The digits of a decimal rendering scan back, and it never starts with `0x` or `-`. */
  lemma DecimalScans(m: nat)
    ensures var body := Decimal(m);
      Scan(body, 10) == Some(MinDigits(m, 10)) && FromDigits(MinDigits(m, 10), 10) == m
      && |body| >= 1 && body[0] != '-' && !(|body| >= 2 && body[..2] == "0x")
  {
    var ds := MinDigits(m, 10);
    var body := Render(ds);
    ScanRender(ds, 10);
    MinDigitsValue(m, 10);
    assert '0' <= body[0] <= '9';
    if |body| >= 2 {
      assert '0' <= body[1] <= '9';
      assert body[..2][1] == body[1];
    }
  }

  /** A sign and a run of decimal digits that `Scan` reads, with no `0x` in front. */
  lemma BigNumberOfDecimalBody(s: string, neg: bool, body: string, ds: seq<nat>)
    requires neg == (|s| >= 1 && s[0] == '-')
    requires body == (if neg then s[1..] else s)
    requires !(|body| >= 2 && body[..2] == "0x")
    requires Scan(body, 10) == Some(ds)
    ensures BigNumberOfString(s) == Some(Signed(neg, FromDigits(ds, 10)))
  {
  }

  /** A decimal rendering, signed or not, reads back as its integer. */
  lemma BigNumberOfDecimal(v: int)
    ensures BigNumberOfString(IntDecimal(v)) == Some(v)
  {
    var m: nat := if v < 0 then -v else v;
    var body := Decimal(m);
    DecimalScans(m);
    var s := IntDecimal(v);
    if v < 0 {
      assert s == "-" + body && s[0] == '-' && s[1..] == body;
      BigNumberOfDecimalBody(s, true, body, MinDigits(m, 10));
    } else {
      assert s == body;
      BigNumberOfDecimalBody(s, false, body, MinDigits(m, 10));
    }
  }

  /** `0x` and lower-case hexadecimal digits read back as the number. */
  lemma BigNumberOfHex(n: nat)
    ensures BigNumberOfString("0x" + LowerHex(n)) == Some(n)
  {
    var s := "0x" + LowerHex(n);
    assert s[..2] == "0x" && s[2..] == LowerHex(n);
    ScanRender(MinDigits(n, 16), 16);
    MinDigitsValue(n, 16);
  }

  /** A numeral in exponential notation (`1e+21`, `-1.5e+22`) is refused. */
  lemma ExponentialRefused(s: string)
    requires var body := if |s| >= 1 && s[0] == '-' then s[1..] else s;
      |body| >= 1 && '1' <= body[0] <= '9' && 'e' in body
    ensures BigNumberOfString(s) == None
  {
    var body := if |s| >= 1 && s[0] == '-' then s[1..] else s;
    ScanAccepts(body, 10);
    var i :| 0 <= i < |body| && body[i] == 'e';
    assert CharDigit(body[i]) == Some(14);
  }

  /**
   * The integer an argument stands for: a number within JavaScript's exact range, or
   * a string that `bigNumberify` reads.
   */
  function ArgInteger(a: AbiArg): Option<int>
  {
    match a
    case IntArg(n) => if -(SafeIntegerLimit as int) < n < SafeIntegerLimit then Some(n) else None
    case StrArg(s) => BigNumberOfString(s)
  }

  /** Argument number `i`, coerced to type `t`; a value that does not fit is rejected. */
  function Coerce(t: AbiType, a: AbiArg, i: nat): (r: Result<AbiValue>)
    ensures r.Success? ==> Fits(t, r.value)
    ensures r.Failure? ==> r.error == InvalidArgument(i)
    ensures t == Uint256 ==> (r.Success? <==> ArgInteger(a).Some? && 0 <= ArgInteger(a).value < WordLimit)
    ensures t == Uint256 && r.Success? ==> r.value.n == ArgInteger(a).value
    ensures t == Address ==> (r.Success? <==> a.StrArg? && AddressBytes(a.s).Some?)
    ensures t == Address && r.Success? ==> r.value.bytes == AddressBytes(a.s).value
  {
    match t
    case Address =>
      if a.StrArg? && AddressBytes(a.s).Some? then Success(AddressValue(AddressBytes(a.s).value))
      else Failure(InvalidArgument(i))
    case Uint256 =>
      match ArgInteger(a)
      case Some(n) => if 0 <= n < WordLimit then Success(UintValue(n)) else Failure(InvalidArgument(i))
      case None => Failure(InvalidArgument(i))
  }

  /**
   * Coerces the arguments from position `from` on, in order, and stops at the first
   * rejected one.
   */
  function CoerceAll(ts: seq<AbiType>, args: seq<AbiArg>, from: nat): (r: Result<seq<AbiValue>>)
    requires |ts| == |args| && from <= |ts|
    ensures r.Success? <==> forall i :: from <= i < |ts| ==> Coerce(ts[i], args[i], i).Success?
    ensures r.Success? ==> |r.value| == |ts| - from
    ensures r.Success? ==> forall i :: from <= i < |ts| ==> r.value[i - from] == Coerce(ts[i], args[i], i).value
    decreases |ts| - from
  {
    if from == |ts| then Success([])
    else match Coerce(ts[from], args[from], from)
      case Failure(e) => Failure(e)
      case Success(v) =>
        match CoerceAll(ts, args, from + 1)
        case Failure(e) => Failure(e)
        case Success(vs) => Success([v] + vs)
  }

  /** A rejected argument list is reported at its first argument that does not fit. */
  lemma {:induction false} CoerceAllRejects(ts: seq<AbiType>, args: seq<AbiArg>, from: nat)
    requires |ts| == |args| && from <= |ts| && CoerceAll(ts, args, from).Failure?
    ensures var e := CoerceAll(ts, args, from).error;
      e.InvalidArgument? && from <= e.position < |ts| && Coerce(ts[e.position], args[e.position], e.position).Failure?
      && forall j :: from <= j < e.position ==> Coerce(ts[j], args[j], j).Success?
    decreases |ts| - from
  {
    if Coerce(ts[from], args[from], from).Success? {
      CoerceAllRejects(ts, args, from + 1);
    }
  }

  /** The 32-byte word of a value: an address right-aligned after 12 zero bytes, an integer big-endian. */
  function EncodeValue(v: AbiValue): (w: seq<Byte>)
    ensures v.UintValue? || |v.bytes| == 20 ==> |w| == 32
  {
    match v
    case AddressValue(b) => Zeros(12) + b
    case UintValue(n) => BigEndian(n, 32)
  }

  function EncodeValues(vs: seq<AbiValue>): (w: seq<Byte>)
    ensures (forall i :: 0 <= i < |vs| ==> vs[i].UintValue? || |vs[i].bytes| == 20) ==> |w| == 32 * |vs|
  {
    if vs == [] then [] else EncodeValue(vs[0]) + EncodeValues(vs[1..])
  }

  /** Reads a word as a value of type `t`; an address word must start with 12 zero bytes. */
  function DecodeValue(t: AbiType, w: seq<Byte>): (r: Option<AbiValue>)
    requires |w| == 32
    ensures r.Some? ==> Fits(t, r.value)
  {
    match t
    case Address => if w[..12] == Zeros(12) then Some(AddressValue(w[12..])) else None
    case Uint256 =>
      FromDigitsBelow(w, 256);
      Some(UintValue(FromDigits(w, 256)))
  }

  lemma {:induction false} FromDigitsBelow(ds: seq<nat>, base: nat)
    requires base >= 1 && DigitsBelow(ds, base)
    ensures FromDigits(ds, base) < Pow(base, |ds|)
    decreases |ds|
  {
    if ds != [] {
      var pre := ds[..|ds| - 1];
      FromDigitsBelow(pre, base);
      var p := Pow(base, |pre|);
      var f := FromDigits(pre, base);
      assert f + 1 <= p;
      assert FromDigits(ds, base) == f * base + ds[|ds| - 1];
      assert FromDigits(ds, base) < (f + 1) * base;
      assert (f + 1) * base <= p * base by {
        MulMonotone(f + 1, p, base);
      }
      assert Pow(base, |ds|) == base * p;
    }
  }

  lemma MulMonotone(a: nat, b: nat, c: nat)
    requires a <= b
    ensures a * c <= b * c
  {
    if a < b {
      assert b * c == a * c + (b - a) * c;
    }
  }

  /** Reads one word per declared type; fails unless the length is exactly one word per type. */
  function DecodeValues(ts: seq<AbiType>, bytes: seq<Byte>): (r: Option<seq<AbiValue>>)
    ensures r.Some? ==> |r.value| == |ts| && forall i :: 0 <= i < |ts| ==> Fits(ts[i], r.value[i])
  {
    if ts == [] then (if bytes == [] then Some([]) else None)
    else if |bytes| < 32 then None
    else match (DecodeValue(ts[0], bytes[..32]), DecodeValues(ts[1..], bytes[32..]))
      case (Some(v), Some(vs)) => Some([v] + vs)
      case _ => None
  }

  /** A value of type `t` survives the trip through its word. */
  lemma DecodeEncodeValue(t: AbiType, v: AbiValue)
    requires Fits(t, v)
    ensures |EncodeValue(v)| == 32 && DecodeValue(t, EncodeValue(v)) == Some(v)
  {
    var w := EncodeValue(v);
    match t
    case Address =>
      assert w[..12] == Zeros(12) && w[12..] == v.bytes;
    case Uint256 =>
      BigEndianRoundTrip(v.n, 32);
  }

  /** Values of the declared types survive the trip through their words, in order. */
  lemma {:induction false} DecodeEncodeValues(ts: seq<AbiType>, vs: seq<AbiValue>)
    requires |ts| == |vs| && forall i :: 0 <= i < |ts| ==> Fits(ts[i], vs[i])
    ensures |EncodeValues(vs)| == 32 * |vs|
    ensures DecodeValues(ts, EncodeValues(vs)) == Some(vs)
    decreases |ts|
  {
    if ts != [] {
      var w := EncodeValue(vs[0]);
      var rest := EncodeValues(vs[1..]);
      DecodeEncodeValue(ts[0], vs[0]);
      DecodeEncodeValues(ts[1..], vs[1..]);
      assert EncodeValues(vs) == w + rest;
      assert (w + rest)[..32] == w && (w + rest)[32..] == rest;
      assert [vs[0]] + vs[1..] == vs;
    }
  }

  /** The text of `getCalldata`'s error for a function the interface does not declare. */
  function NotFoundMessage(methodName: string): string
  {
    "method[" + methodName + "] not found."
  }

  /**
   * The bytes of `fn.encode(args)` for the function called `methodName`: its selector
   * and one word per argument. Fails when the table declares no function of that name
   * (with a TypeError from `fn.encode` when the name is an inherited member), when the
   * number of arguments is not the number of inputs, or at the first argument that
   * does not fit.
   */
  function CalldataBytes(abi: Abi, methodName: string, args: seq<AbiArg>, selectorOf: string -> Selector)
    : (r: Result<seq<Byte>>)
    ensures FindFunction(abi.functions, methodName).None? ==>
      r == Failure(if methodName in ObjectMemberNames then NotAnAbiFunction(methodName)
                   else MethodNotFound(NotFoundMessage(methodName)))
    ensures FindFunction(abi.functions, methodName).Some? ==>
      var ts := ParamTypes(FindFunction(abi.functions, methodName).value.inputs);
      (r.Success? <==> |args| == |ts| && CoerceAll(ts, args, 0).Success?)
      && (|args| != |ts| ==> r == Failure(ArgumentCountMismatch(|ts|, |args|)))
      && (|args| == |ts| && CoerceAll(ts, args, 0).Failure? ==> r == Failure(CoerceAll(ts, args, 0).error))
    ensures r.Success? ==>
      var f := FindFunction(abi.functions, methodName).value;
      var ts := ParamTypes(f.inputs);
      |r.value| == 4 + 32 * |ts|
      && r.value[..4] == selectorOf(FunctionSignature(f))
      && DecodeValues(ts, r.value[4..]) == Some(CoerceAll(ts, args, 0).value)
  {
    match FindFunction(abi.functions, methodName)
    case None =>
      if methodName in ObjectMemberNames then Failure(NotAnAbiFunction(methodName))
      else Failure(MethodNotFound(NotFoundMessage(methodName)))
    case Some(f) =>
      var ts := ParamTypes(f.inputs);
      if |args| != |ts| then Failure(ArgumentCountMismatch(|ts|, |args|))
      else match CoerceAll(ts, args, 0)
        case Failure(e) => Failure(e)
        case Success(vs) =>
          var sel := selectorOf(FunctionSignature(f));
          DecodeEncodeValues(ts, vs);
          assert (sel + EncodeValues(vs))[4..] == EncodeValues(vs);
          Success(sel + EncodeValues(vs))
  }

  /** `getCalldata(abi, methodName, args)`: the call data as `0x` and lower-case hexadecimal. */
  function GetCalldata(abi: Abi, methodName: string, args: seq<AbiArg>, selectorOf: string -> Selector)
    : (r: Result<string>)
    ensures r.Failure? <==> CalldataBytes(abi, methodName, args, selectorOf).Failure?
    ensures r.Failure? ==> r.error == CalldataBytes(abi, methodName, args, selectorOf).error
    ensures r.Success? ==> |r.value| >= 2 && r.value[..2] == "0x"
                           && BytesOfHex(r.value[2..]) == Some(CalldataBytes(abi, methodName, args, selectorOf).value)
    ensures r.Success? ==> forall i :: 2 <= i < |r.value| ==> '0' <= r.value[i] <= '9' || 'a' <= r.value[i] <= 'f'
  {
    match CalldataBytes(abi, methodName, args, selectorOf)
    case Failure(e) => Failure(e)
    case Success(bytes) =>
      var s := "0x" + HexOfBytes(bytes);
      assert s[..2] == "0x" && s[2..] == HexOfBytes(bytes);
      BytesOfHexRoundTrip(bytes);
      Success(s)
  }

  /**
   * `getCalldata` throws `method[<name>] not found.` exactly for the names that are
   * neither among the six functions of the table nor inherited object members; an
   * inherited member gets past the test and fails at `fn.encode`.
   */
  lemma UsdtCalldataUnknownMethod(methodName: string, args: seq<AbiArg>, selectorOf: string -> Selector)
    ensures methodName !in FunctionNames && methodName !in ObjectMemberNames <==>
            GetCalldata(UsdtAbi, methodName, args, selectorOf) == Failure(MethodNotFound(NotFoundMessage(methodName)))
    ensures methodName in ObjectMemberNames ==>
            GetCalldata(UsdtAbi, methodName, args, selectorOf) == Failure(NotAnAbiFunction(methodName))
  {
    UsdtFunctionLookup(methodName);
    if methodName in ObjectMemberNames {
      InheritedNotDeclared(methodName);
    } else if methodName in FunctionNames {
      var r := CalldataBytes(UsdtAbi, methodName, args, selectorOf);
      if r.Failure? {
        var ts := ParamTypes(FindFunction(UsdtAbi.functions, methodName).value.inputs);
        if |args| == |ts| {
          CoerceAllRejects(ts, args, 0);
        }
        assert r.error != MethodNotFound(NotFoundMessage(methodName));
      }
    }
  }

  /** The two arguments of `transfer` coerce to an address value and an integer value. */
  lemma TransferArguments(to: string, amount: AbiArg)
    requires AddressBytes(to).Some?
    requires ArgInteger(amount).Some? && 0 <= ArgInteger(amount).value < WordLimit
    ensures CoerceAll([Address, Uint256], [StrArg(to), amount], 0)
            == Success([AddressValue(AddressBytes(to).value), UintValue(ArgInteger(amount).value)])
  {
    var args := [StrArg(to), amount];
    var ts := [Address, Uint256];
    var a := AddressBytes(to).value;
    var n: nat := ArgInteger(amount).value;
    assert Coerce(ts[0], args[0], 0) == Success(AddressValue(a));
    assert Coerce(ts[1], args[1], 1) == Success(UintValue(n));
    var r := CoerceAll(ts, args, 0);
    assert forall i :: 0 <= i < |ts| ==> Coerce(ts[i], args[i], i).Success?;
    assert r.value[0] == AddressValue(a) && r.value[1] == UintValue(n);
    assert r.value == [AddressValue(a), UintValue(n)];
  }

  lemma TransferWords(a: seq<Byte>, n: nat)
    requires |a| == 20
    ensures EncodeValues([AddressValue(a), UintValue(n)]) == Zeros(12) + a + BigEndian(n, 32)
  {
    var vs := [AddressValue(a), UintValue(n)];
    assert vs[1..] == [UintValue(n)] && vs[1..][1..] == [];
    assert EncodeValues([UintValue(n)]) == BigEndian(n, 32) + [];
    assert EncodeValues(vs) == (Zeros(12) + a) + (BigEndian(n, 32) + []);
  }

  lemma TransferLayout(sel: Selector, a: seq<Byte>, w: seq<Byte>)
    requires |a| == 20 && |w| == 32
    ensures var b := sel + (Zeros(12) + a + w);
      |b| == 68 && b[..4] == sel && b[4..16] == Zeros(12) && b[16..36] == a && b[36..] == w
  {
  }

  /**
   * The call data of `transfer(to, amount)` is 68 bytes: the selector of
   * `transfer(address,uint256)`, 12 zero bytes, the 20 address bytes, and the amount as
   * a 32-byte big-endian word, which reads back as the amount.
   */
  lemma TransferCalldata(to: string, amount: AbiArg, selectorOf: string -> Selector)
    requires AddressBytes(to).Some?
    requires ArgInteger(amount).Some? && 0 <= ArgInteger(amount).value < WordLimit
    ensures var r := CalldataBytes(UsdtAbi, "transfer", [StrArg(to), amount], selectorOf);
      r.Success? && |r.value| == 68
      && r.value[..4] == selectorOf("transfer(address,uint256)")
      && r.value[4..16] == Zeros(12)
      && r.value[16..36] == AddressBytes(to).value
      && FromDigits(r.value[36..], 256) == ArgInteger(amount).value
  {
    UsdtTransferDecl();
    var a := AddressBytes(to).value;
    var n: nat := ArgInteger(amount).value;
    var sel := selectorOf("transfer(address,uint256)");
    TransferArguments(to, amount);
    TransferWords(a, n);
    assert CalldataBytes(UsdtAbi, "transfer", [StrArg(to), amount], selectorOf)
           == Success(sel + (Zeros(12) + a + BigEndian(n, 32)));
    TransferLayout(sel, a, BigEndian(n, 32));
    BigEndianRoundTrip(n, 32);
  }
}
