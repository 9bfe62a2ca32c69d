# erc20-events: a Dafny model

`erc20-events` is a pair of Node.js scripts for the USDT (Tether) ERC-20 token.
`index.js` fetches the token contract's logs for a block range. It keeps the
`Transfer` events and turns each one into a record: the log's identifying fields,
the decoded event values, and the same values with every big integer divided by the
token's `1e6` precision and written as a decimal string. `transfer-erc20.js` builds
the unsigned `transfer` transaction that a Ledger device signs. The parts of that
transaction are the ABI call data of `transfer(to, amount)`, the gas price, the
fixed gas limit `0x15f90`, the token contract's address for the chosen chain, and
the `v` field `0x0<chainId>`.

The model is split into these modules:

- `Results`: the `Option` and `Result` wrappers, and the error conditions the scripts
  can raise.
- `Numerals`: decimal and hexadecimal digit strings, and byte strings in hexadecimal.
- `ScaledDecimal`: bignumber.js's exact `dividedBy(10^k).toString()` for an integer.
- `UsdtConf`: the `USDT_CONF` table, which the two scripts declare identically. It
  holds the human-readable ABI in the parsed form ethers builds from it, and the
  contract's deployments. The module also has the lookups into the table and
  `eventNameToTopic`.
- `EventValues`: `formatEventValues`. Its key-trimming `reduce` is a method with a
  loop. Its `traverse(...).map` is a recursive function over decoded values.
- `TransferLogs`: the filter and map of `getLog`, as a function of the logs the node
  returned.
- `AbiCodec`: `getCalldata`. The function is looked up by name and each argument is
  coerced to its declared type, by the rules of ethers v4's `bigNumberify` and
  `getAddress`. The call data is a 4-byte selector followed by one
  32-byte word per argument. The encoding is proved to decode back to the coerced
  arguments.
- `RawTx`: the field record of `getRawTx` and its serialisation. Also the scaling of a
  whole USDT amount to six decimals (`new BN(n).times(1e6).toString()`).

Hashing (keccak-256 for selectors and topics), `parseLog`, `parseUnits` and the
transaction library's `serialize` are parameters of the functions that use them.
They cannot be seen from the scripts. The `Transfer` topic and the `transfer`
selector are therefore stated in terms of whatever hash is given.

A few quirks of the code are kept as written:

- The `data` field is `'0x' + calldata`, and `calldata` already starts with `0x`, so
  the field starts with `0x0x`.
- The gas price field is `'0x'` glued to the decimal digits of the wei amount. Read
  as hexadecimal, it equals the wei amount only when that amount is below 10.
- The `v` field is the template `0x0${chainId}`. Read as hexadecimal, it equals the
  chain id only for chains 0 to 9.
- The script passes chain 4 (Rinkeby), but the table lists only chains 1, 3 and 5. The
  network lookup therefore fails for the script's own call.
- `Interface.functions` is a plain JavaScript object, so a method name such as
  `toString` or `constructor` finds the member every object inherits. The not-found
  test then passes and `fn.encode(args)` throws a TypeError instead of
  `method[<name>] not found.`.
- `new BN(n).times(1e6).toString()` switches to exponential notation once the
  product has more than 21 digits, that is for a whole amount of at least `10^15`.
  The encoder refuses that string, so such a transfer cannot be built.
- A log that `parseLog` cannot decode makes the whole `getLog` call fail. The
  `.map(...)` callback dereferences `evt.name`, so the failure propagates rather than
  the log being skipped.

## Model

| member | source | states |
|---|---|---|
| UsdtConf.FindFunction | transfer-erc20.js:46 | `Interface.functions[name]` over the declared functions: is None exactly when no declared function has the name; otherwise returns the first declaration with that name. Names inherited from `Object.prototype` are handled by `AbiCodec.CalldataBytes` |
| UsdtConf.UsdtFunctionLookup | transfer-erc20.js:12-19 | a function name is found in the table exactly when it is one of its six functions |
| UsdtConf.InheritedNotDeclared | transfer-erc20.js:46 | the twelve names every JavaScript object inherits are not among the table's functions, so the declared-function lookup finds none of them |
| UsdtConf.UsdtTransferDecl | transfer-erc20.js:16 | `transfer` is found, with inputs `(address, uint256)` and the canonical signature `transfer(address,uint256)` |
| UsdtConf.UsdtNamesUnique | index.js:9-23 | the names of the table's functions are pairwise distinct, and so are the names of its events |
| UsdtConf.FindEvent | index.js:44 | `Interface.events[name]`: is None exactly when no declared event has the name; otherwise returns the first declaration with that name |
| UsdtConf.EventNameToTopic | index.js:42-46 | is `undefined` (None) exactly when no event has the name; otherwise returns the hash of the canonical signature of an event with that name |
| UsdtConf.UsdtEventLookup | index.js:21-22 | the topic lookup is defined exactly for `Transfer` and `Approval` |
| UsdtConf.UsdtEventTopics | index.js:21-22 | the topic of `Transfer` is the hash of `Transfer(address,address,uint256)`; the topic of `Approval` is the hash of `Approval(address,address,uint256)` |
| UsdtConf.TransferSignature | index.js:21 | the canonical signature of the `Transfer` event is `Transfer(address,address,uint256)` |
| UsdtConf.ApprovalSignature | index.js:22 | the canonical signature of the `Approval` event is `Approval(address,address,uint256)` |
| UsdtConf.ResolveNetwork | transfer-erc20.js:60 | `networks[chainId]`: succeeds exactly for a listed chain, with that chain's entry; otherwise fails with `NetworkNotDeclared(chainId)` |
| UsdtConf.UsdtNetworkLookup | index.js:26-39 | the lookup succeeds for chains 1, 3 and 5 only; chain 4 fails; the mainnet address is `0xdac17f958d2ee523a2206206994597c13d831ec7` |
| EventValues.ScaleBigNumbers | index.js:55-60 | the result holds no big integer at any depth; a big integer becomes a string that reads back, at the same precision, as the original integer; strings and booleans are unchanged; an object keeps its keys |
| EventValues.ScaleWithoutBigNumbers | index.js:56 | a value holding no big integer comes out of the traversal unchanged |
| EventValues.ScaleIdempotent | index.js:55-60 | formatting an already formatted value changes nothing |
| EventValues.ScaleNested | index.js:55-60 | a nested entry is scaled like a top-level value, at the same precision |
| EventValues.ScaleDefaultPrecision | index.js:48 | at the default precision `1e0`, a big integer becomes its own decimal rendering |
| EventValues.TrimmedValues | index.js:49-54 | keeps exactly the keys that are neither all digits nor `length`, each with its value unchanged |
| EventValues.TrimValues | index.js:49-54 | the loop over the keys produces exactly the trimmed map |
| EventValues.FormattedValues | index.js:48-62 | has exactly the keys that are neither all digits nor `length`; each of those values is the traversal's image of the input value |
| EventValues.FormatEventValues | index.js:48-62 | the method's result is the formatted map, at the given precision or at `1e0` by default |
| EventValues.ArrayKeyExamples | index.js:50 | `0`, `12` and `length` are dropped; `from`, `to`, `value`, `1a`, `Length` and the empty key are kept |
| EventValues.FormattedKeepsOtherValues | index.js:55-60 | a kept entry with no big integer in it (an address, say) appears in the result unchanged |
| EventValues.FormattedTransferValue | index.js:94-104 | a `value` of `100000000` base units is reported as `"100"` at `usdPrecision` |
| ScaledDecimal.FormatScaledRoundTrip | index.js:57-58 | the quotient string reads back, at precision `10^k`, as the original integer: the division loses nothing |
| ScaledDecimal.FormatScaled | index.js:57-58 | the quotient string is never empty and starts with `-` exactly for a negative integer |
| ScaledDecimal.FormatScaledCanonical | index.js:57-58 | the quotient string is canonical: its whole part starts with a digit, has no leading zero unless it is `0` itself, and there is no `-` before zero |
| ScaledDecimal.IntegerString | transfer-erc20.js:89 | bignumber.js's `toString` of an integer: its decimal rendering up to 21 digits; beyond that, a sign for a negative number, then a leading non-zero digit and an `e` |
| ScaledDecimal.Exponential | transfer-erc20.js:89 | the exponential notation of a number starts with a non-zero digit and holds an `e` |
| ScaledDecimal.FormatScaledFraction | index.js:57-58 | when the quotient has a point, it is followed by 1 to `k` digits, and the string never ends in `0` |
| ScaledDecimal.FormatScaledByOne | index.js:57 | dividing by `1e0` gives the integer's decimal rendering |
| ScaledDecimal.FormatScaledOfMultiple | index.js:57-58 | dividing `n * 10^k` by `10^k` gives the decimal rendering of `n` |
| ScaledDecimal.HundredUsdt | index.js:94-104 | `100000000` divided by `1e6` is `"100"` |
| TransferLogs.SelectTransferLogs | index.js:89-92 | the kept logs are exactly the non-null entries with topics that contain the `Transfer` topic; there are no more kept logs than entries; every kept log carries the topic |
| TransferLogs.SelectConcat | index.js:90-92 | the filter keeps order: filtering two runs of logs gives each run's kept logs in turn |
| TransferLogs.SelectOne | index.js:90-92 | a single entry is kept, as its log, exactly when it passes the test |
| TransferLogs.BuildRecords | index.js:92-106 | succeeds exactly when every kept log decodes; then returns one record per kept log; otherwise fails at the first log that does not decode, with that log's index |
| TransferLogs.BuildRecord | index.js:95-105 | the record copies the log's hash, index, block, address and topics, holds the event's name and decoded values, and holds those values formatted at `1e6` |
| TransferLogs.BuildRecordsElements | index.js:92-106 | the record at each position is the record of the kept log at that position |
| TransferLogs.TransferEventsRecords | index.js:95-105 | succeeds exactly when every kept log decodes; then each record copies its log's hash, index, block, address and topics, holds the event's name and decoded values, and holds those values formatted at `1e6` |
| TransferLogs.TransferEvents | index.js:90-106 | on success there are no more events than logs, and the topics of every event contain the `Transfer` topic |
| TransferLogs.GetLog | index.js:85-108 | on success there are no more events than logs, and the topics of every event contain the hash of `Transfer(address,address,uint256)` |
| TransferLogs.NoTransferLogs | index.js:89-92 | the result is the empty array, not an error, exactly when no entry carries the topic |
| TransferLogs.BuildRecordsConcat | index.js:92-106 | building the records of two runs of kept logs gives each run's records in turn |
| TransferLogs.TransferEventsConcat | index.js:88-108 | when both block ranges decode, the events of two runs of logs are the events of each run in turn |
| TransferLogs.GetLogTopic | index.js:85-89 | `getLog` filters on the hash of `Transfer(address,address,uint256)` |
| TransferLogs.TransferValueReported | index.js:103-104 | a decoded transfer of `100000000` base units is reported with `values.value == "100"`, and `rawValues` keeps the big integer |
| AbiCodec.Coerce | transfer-erc20.js:48 | the coerced value fits its type; a `uint256` accepts exactly the integers in `[0, 2^256)` that `bigNumberify` reads from the argument (a number of magnitude below `2^53`, or a string); an address accepts exactly a string of 40 hexadecimal digits, with or without `0x`, and holds those 20 bytes; a rejection names the argument's position |
| AbiCodec.AddressBytes | transfer-erc20.js:48 | an address string is accepted exactly when it is 40 hexadecimal digits, in either case, with or without `0x`; it then yields 20 bytes |
| AbiCodec.AddressPrefixOptional | transfer-erc20.js:48 | an address reads the same with and without its `0x` prefix |
| AbiCodec.BigNumberOfString | transfer-erc20.js:48 | `bigNumberify` of a string: a negative result comes only from a string that starts with `-` |
| AbiCodec.EmptyNumeralsAreZero | transfer-erc20.js:48 | `""`, `0x` and `-` each read as zero |
| AbiCodec.BigNumberOfDecimal | transfer-erc20.js:48 | the decimal rendering of any integer, signed, reads back as that integer |
| AbiCodec.BigNumberOfHex | transfer-erc20.js:48 | `0x` plus the lower-case hexadecimal of a natural number reads back as that number |
| AbiCodec.ExponentialRefused | transfer-erc20.js:48 | a string in exponential notation, with or without a sign, is refused |
| AbiCodec.CoerceAll | transfer-erc20.js:48 | succeeds exactly when every argument coerces, with the coerced values in order |
| AbiCodec.CoerceAllRejects | transfer-erc20.js:48 | a rejection names the first argument that does not coerce; every argument before it coerces |
| AbiCodec.DecodeValue | transfer-erc20.js:48 | a decoded word fits its type |
| AbiCodec.DecodeEncodeValue | transfer-erc20.js:48 | a value that fits its type encodes to one 32-byte word, which decodes back to the value |
| AbiCodec.DecodeEncodeValues | transfer-erc20.js:48 | a sequence of fitting values encodes to 32 bytes per value, and decodes back to the sequence |
| AbiCodec.EncodeValue | transfer-erc20.js:48 | an integer, or an address of 20 bytes, encodes to one 32-byte word |
| AbiCodec.EncodeValues | transfer-erc20.js:48 | a sequence of integers and 20-byte addresses encodes to 32 bytes per value |
| AbiCodec.CalldataBytes | transfer-erc20.js:45-51 | an unknown name fails with `method[<name>] not found.`, and an inherited object member fails with a TypeError; for a declared function it succeeds exactly when the arguments match the inputs in number and all coerce, a count mismatch fails with both counts and a rejected argument with its error; on success the bytes are the selector of the canonical signature followed by one word per input, which decode to the coerced arguments |
| AbiCodec.GetCalldata | transfer-erc20.js:45-51 | fails exactly when the encoding fails, with the same error; on success returns `0x` followed by lower-case hexadecimal that reads back as the encoded bytes |
| AbiCodec.UsdtCalldataUnknownMethod | transfer-erc20.js:46-47 | `getCalldata` throws `method[<name>] not found.` exactly for the names that are neither among the six functions of the table nor inherited object members; an inherited member name throws a TypeError |
| AbiCodec.TransferArguments | transfer-erc20.js:54 | `[to, amount]` coerces to the address bytes and the amount |
| AbiCodec.TransferCalldata | transfer-erc20.js:54 | the call data of `transfer` is 68 bytes: the selector of `transfer(address,uint256)`, 12 zero bytes, the 20 address bytes, then a big-endian word that reads as the amount |
| RawTx.BuildRawTx | transfer-erc20.js:53-67 | succeeds exactly when the call data encodes, `parseUnits` accepts the gas price and the chain is listed; the three failures come in that order, each with its error; on success every one of the ten fields is given: `nonce` is `0x` plus the nonce in lower-case hexadecimal, `gasPrice` is `0x` plus the decimal digits of the wei amount, the gas limit is `0x15f90`, `to` is the chain's contract address, `value`, `r` and `s` are `0x00`, `chainId` is passed through, `v` is `0x0${chainId}` and `data` is `0x` plus the call data |
| RawTx.GetRawTx | transfer-erc20.js:53-72 | succeeds exactly when the field record builds and serialises; otherwise returns the first failure; on success returns hexadecimal that reads back as the serialised bytes |
| RawTx.NonceField | transfer-erc20.js:57 | `nonce` is `0x` and lower-case hexadecimal digits, with no leading zero except in `0x0`, and reads back as the nonce |
| RawTx.GasPriceField | transfer-erc20.js:58 | `gasPrice` is `0x` followed by the decimal digits of the wei amount; read as hexadecimal it equals the wei amount exactly when that is below 10 |
| RawTx.GasLimitValue | transfer-erc20.js:43 | `0x15f90` is 90000 |
| RawTx.VFieldReadsAsChainId | transfer-erc20.js:65 | `0x0${chainId}`, read as hexadecimal, is the chain id exactly for chains below 10 |
| RawTx.VField | transfer-erc20.js:65 | `v` is `0x0` followed by a decimal rendering that reads back as the chain id |
| RawTx.DataField | transfer-erc20.js:66 | `data` starts with `0x0x`, and the call data bytes in hexadecimal follow those four characters |
| RawTx.RawTxNetworks | transfer-erc20.js:60 | given valid call data and gas price, the record builds exactly for chains 1, 3 and 5; the script's chain 4 fails with `NetworkNotDeclared(4)` |
| RawTx.ScaleAmount | transfer-erc20.js:89 | for an amount of at most 15 digits, the string is the decimal rendering of `n * 10^6`; for a longer amount it is bignumber.js's exponential form: a leading non-zero digit and an `e` |
| RawTx.ScaledAmountRoundTrip | transfer-erc20.js:89 | the encoder reads the scaled amount exactly when the amount has at most 15 digits, and then reads it as `n * 10^6`; `formatEventValues` at `1e6` reports `n * 10^6` as `n` again |
| RawTx.ScaleAmountAppendsZeros | transfer-erc20.js:89 | for a positive amount of at most 15 digits, the scaled string is its decimal digits followed by six zeros |
| RawTx.LargeAmountRejected | transfer-erc20.js:87-92 | an amount of more than 15 digits makes `getRawTx` fail; with a valid address, the failure is the rejection of the amount argument |
| RawTx.HundredUsdtAmount | transfer-erc20.js:83-89 | the script's 100 USDT become `"100000000"` |
| Numerals.BytesOfHexRoundTrip | transfer-erc20.js:68 | the hexadecimal of a byte string, as `toString('hex')` writes it, reads back as the bytes |
| Numerals.HexOfBytes | transfer-erc20.js:68 | `toString('hex')` writes two lower-case hexadecimal digits per byte |
| Numerals.LowerHex | transfer-erc20.js:57 | `toString(16)` of a natural number is lower-case hexadecimal digits, never empty, with no leading zero except in `0` |
| Numerals.LowerHexRoundTrip | transfer-erc20.js:57 | `toString(16)` reads back, with or without `0x`, as the number |

## Left out

- Fetching the logs, the JSON-RPC provider, the Ledger transport, the signing device, reading the nonce and broadcasting. These are I/O. The logs, the nonce and the other inputs are parameters; the signature merge after `eth.signTransaction` is not modelled.
- The address filter on logs is done by the node: `getLogs` is asked for the contract's address. The model starts from whatever logs the node returned.
- The keccak-256 hash behind selectors and topics is a parameter, and so are `Interface.parseLog`, `ethers.utils.parseUnits` (the wei amount, or None when it throws) and the `ethereumjs-tx` serialisation (None when it throws). How the transaction library reads the `0x0x` data, the decimal gas price and the `v` template is not part of this model.
- The `ethers` lookups by full signature (`functions['transfer(address,uint256)']`) are left out; the scripts only look names up.
- AbiCodec.AddressBytes: the EIP-55 checksum test and the ICAP (`XE…`) form of `getAddress` are left out. An address argument is accepted as 40 hexadecimal digits in either case, with or without `0x`.
- AbiCodec.ArgInteger: argument coercion covers only what the scripts pass, strings and integer numbers. Fractional numbers (which `bigNumberify` refuses), BigNumber objects, hex-string objects and arrays as arguments are left out.
- ScaledDecimal.FormatScaled writes plain notation only. bignumber.js switches to exponential notation when the quotient's decimal exponent is at least 21 or at most -7: for a quotient of at least `1e21`, or a non-zero quotient below `1e-6`. With an integer divided by at most `1e6`, a non-zero quotient is at least `1e-6`, so only the large case can occur; a token value of at least `1e27` base units reaches it at `1e6`. Its 20-decimal-place division limit never matters for precisions up to `1e20`.
- EventValues.Value has no array node. ethers decodes this table's events into addresses and integers only. Entries are a map, so the key order of the JavaScript object is not kept.
- RawTx.ScaleAmount models whole amounts (`int`) only; fractional USDT amounts passed to `new BN(...)` are left out. For an amount of more than 15 digits it states the shape of the exponential string (a leading non-zero digit and an `e`), not each of its characters.
- The nonce is a natural number; `Number(nonce)` of a non-integer or a negative value is left out.
- TransferLogs.TransferEventsRecords states that `eventName` is the decoder's name. The record does not promise `"Transfer"`, because the code takes whatever `parseLog` returns.
- The top-level invocations (`getLog(8965690, 8965695)`, `transfer()`) and their console output are left out, and so is the `console.log` inside `getRawTx`.
