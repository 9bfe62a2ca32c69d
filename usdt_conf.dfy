/**
 * The `USDT_CONF` table that both scripts declare (the same table twice): the token's
 * human-readable ABI, held here in the parsed form ethers builds from it, and the
 * token contract's deployment per chain. Also the two lookups into the ABI that the
 * scripts make through an ethers `Interface`, and the network lookup.
 */
module UsdtConf {
  import opened Results

  /** The two Solidity types the table uses; `uint` is the alias of `uint256`. */
  datatype AbiType = Address | Uint256

  datatype Param = Param(name: string, typ: AbiType)

  datatype EventParam = EventParam(name: string, typ: AbiType, indexed: bool)

  datatype Mutability = View | NonPayable

  datatype FunctionDecl = FunctionDecl(name: string, inputs: seq<Param>, outputs: seq<Param>, mutability: Mutability)

  datatype EventDecl = EventDecl(name: string, inputs: seq<EventParam>)

  /** An interface: its functions and its events, in declaration order. */
  datatype Abi = Abi(functions: seq<FunctionDecl>, events: seq<EventDecl>)

  /** One deployment: the block the contract was created in and its address. */
  datatype Network = Network(block: nat, address: string)

  const TotalSupplyDecl := FunctionDecl("totalSupply", [], [Param("totalSupply", Uint256)], View)
  const BalanceOfDecl := FunctionDecl("balanceOf", [Param("who", Address)], [Param("balance", Uint256)], View)
  const AllowanceDecl :=
    FunctionDecl("allowance", [Param("owner", Address), Param("spender", Address)], [Param("allowance", Uint256)], View)
  const TransferDecl := FunctionDecl("transfer", [Param("to", Address), Param("value", Uint256)], [], NonPayable)
  const TransferFromDecl :=
    FunctionDecl("transferFrom", [Param("from", Address), Param("to", Address), Param("value", Uint256)], [], NonPayable)
  const ApproveDecl := FunctionDecl("approve", [Param("spender", Address), Param("value", Uint256)], [], NonPayable)

  const TransferEvent :=
    EventDecl("Transfer", [EventParam("from", Address, true), EventParam("to", Address, true), EventParam("value", Uint256, false)])
  const ApprovalEvent :=
    EventDecl("Approval", [EventParam("owner", Address, true), EventParam("spender", Address, true), EventParam("value", Uint256, false)])

  /** `USDT_CONF.abi`: the view methods, the transaction methods and the events, in that order. */
  const UsdtAbi: Abi := Abi(
    [TotalSupplyDecl, BalanceOfDecl, AllowanceDecl, TransferDecl, TransferFromDecl, ApproveDecl],
    [TransferEvent, ApprovalEvent])

  /** `USDT_CONF.networks`: mainnet, Ropsten and Goerli, keyed by chain id. */
  const UsdtNetworks: map<int, Network> := map[
    1 := Network(4634748, "0xdac17f958d2ee523a2206206994597c13d831ec7"),
    3 := Network(6414181, "0x7A434FBdAca6D9Bee580FE2c285c9859BC63FB67"),
    5 := Network(1318894, "0xaCCEd4e43D89177de0b77fD4C0f53ac215F02627")]

  const FunctionNames: set<string> := {"totalSupply", "balanceOf", "allowance", "transfer", "transferFrom", "approve"}

  const EventNames: set<string> := {"Transfer", "Approval"}

  /**
   * The members every JavaScript object inherits from `Object.prototype`. The
   * `functions` and `events` tables of an ethers `Interface` are plain objects, so
   * indexing them with one of these names yields that member, not `undefined`.
   */
  const ObjectMemberNames: set<string> := {
    "constructor", "hasOwnProperty", "isPrototypeOf", "propertyIsEnumerable", "toLocaleString", "toString",
    "valueOf", "__proto__", "__defineGetter__", "__defineSetter__", "__lookupGetter__", "__lookupSetter__"}

  function TypeName(t: AbiType): string
  {
    match t
    case Address => "address"
    case Uint256 => "uint256"
  }

  /** The type names joined by commas, as a canonical signature lists them. */
  function TypeList(ts: seq<AbiType>): string
  {
    if ts == [] then ""
    else if |ts| == 1 then TypeName(ts[0])
    else TypeName(ts[0]) + "," + TypeList(ts[1..])
  }

  function ParamTypes(ps: seq<Param>): (ts: seq<AbiType>)
    ensures |ts| == |ps| && forall i :: 0 <= i < |ps| ==> ts[i] == ps[i].typ
  {
    if ps == [] then [] else [ps[0].typ] + ParamTypes(ps[1..])
  }

  function EventParamTypes(ps: seq<EventParam>): (ts: seq<AbiType>)
    ensures |ts| == |ps| && forall i :: 0 <= i < |ps| ==> ts[i] == ps[i].typ
  {
    if ps == [] then [] else [ps[0].typ] + EventParamTypes(ps[1..])
  }

  /** `name(type,type,...)`: what the selector of a function is hashed from. */
  function FunctionSignature(f: FunctionDecl): string
  {
    f.name + "(" + TypeList(ParamTypes(f.inputs)) + ")"
  }

  /** `Name(type,type,...)`: what the topic of an event is hashed from. */
  function EventSignature(e: EventDecl): string
  {
    e.name + "(" + TypeList(EventParamTypes(e.inputs)) + ")"
  }

  /**
   * The first declared function called `name`, as `Interface.functions[name]` finds it
   * among the table's own entries (the inherited members are `ObjectMemberNames`).
   */
  function FindFunction(fs: seq<FunctionDecl>, name: string): (r: Option<FunctionDecl>)
    ensures r.None? <==> forall i :: 0 <= i < |fs| ==> fs[i].name != name
    ensures r.Some? ==> exists i :: 0 <= i < |fs| && fs[i] == r.value
                                    && forall j :: 0 <= j < i ==> fs[j].name != name
    ensures r.Some? ==> r.value.name == name
  {
    if fs == [] then None
    else if fs[0].name == name then Some(fs[0])
    else FindFunction(fs[1..], name)
  }

  /** The first declared event called `name`, as `Interface.events[name]` finds it. */
  function FindEvent(es: seq<EventDecl>, name: string): (r: Option<EventDecl>)
    ensures r.None? <==> forall i :: 0 <= i < |es| ==> es[i].name != name
    ensures r.Some? ==> exists i :: 0 <= i < |es| && es[i] == r.value
                                    && forall j :: 0 <= j < i ==> es[j].name != name
    ensures r.Some? ==> r.value.name == name
  {
    if es == [] then None
    else if es[0].name == name then Some(es[0])
    else FindEvent(es[1..], name)
  }

  /**
   * `eventNameToTopic(abi, name)`: the topic of the event called `name`, that is
   * `topicOf` (keccak-256 of the text, as a hex string) applied to its canonical
   * signature, or `undefined` (None) when no event has that name. An inherited member
   * (`events.toString`, say) has no `topic` either, so it gives `undefined` too.
   */
  function EventNameToTopic(abi: Abi, name: string, topicOf: string -> string): (r: Option<string>)
    ensures r.Some? <==> exists i :: 0 <= i < |abi.events| && abi.events[i].name == name
    ensures r.Some? ==> exists e :: e in abi.events && e.name == name && r.value == topicOf(EventSignature(e))
  {
    match FindEvent(abi.events, name)
    case None => None
    case Some(e) => Some(topicOf(EventSignature(e)))
  }

  /** `USDT_CONF.networks[chainId]`, which is `undefined` for a chain the table does not list. */
  function ResolveNetwork(chainId: int): (r: Result<Network>)
    ensures r.Success? <==> chainId in UsdtNetworks
    ensures r.Success? ==> r.value == UsdtNetworks[chainId]
    ensures r.Failure? ==> r.error == NetworkNotDeclared(chainId)
  {
    if chainId in UsdtNetworks then Success(UsdtNetworks[chainId]) else Failure(NetworkNotDeclared(chainId))
  }

  /** The names of the functions, in declaration order. */
  function FunctionNameList(fs: seq<FunctionDecl>): (names: seq<string>)
    ensures |names| == |fs| && forall i :: 0 <= i < |fs| ==> names[i] == fs[i].name
  {
    if fs == [] then [] else [fs[0].name] + FunctionNameList(fs[1..])
  }

  /** Each function name and each event name occurs once in the table. */
  lemma UsdtNamesUnique()
    ensures forall i, j :: 0 <= i < j < |UsdtAbi.functions| ==> UsdtAbi.functions[i].name != UsdtAbi.functions[j].name
    ensures forall i, j :: 0 <= i < j < |UsdtAbi.events| ==> UsdtAbi.events[i].name != UsdtAbi.events[j].name
  {
  }

  /** A function name is found exactly when it is one of the six declared functions. */
  lemma UsdtFunctionLookup(name: string)
    ensures FindFunction(UsdtAbi.functions, name).Some? <==> name in FunctionNames
  {
    var fs := UsdtAbi.functions;
    var names := FunctionNameList(fs);
    assert names == ["totalSupply", "balanceOf", "allowance", "transfer", "transferFrom", "approve"];
    assert (exists i :: 0 <= i < |fs| && fs[i].name == name) <==> name in names;
  }

  lemma InheritedNamesDisjoint()
    ensures FunctionNames * ObjectMemberNames == {}
  {
  }

  /** No inherited object member is a function of the table. */
  lemma InheritedNotDeclared(name: string)
    requires name in ObjectMemberNames
    ensures name !in FunctionNames && FindFunction(UsdtAbi.functions, name).None?
  {
    InheritedNamesDisjoint();
    assert name !in FunctionNames * ObjectMemberNames;
    UsdtFunctionLookup(name);
  }

  /** `transfer` is found, with two inputs: an address and a `uint256`. */
  lemma UsdtTransferDecl()
    ensures FindFunction(UsdtAbi.functions, "transfer") == Some(TransferDecl)
    ensures ParamTypes(TransferDecl.inputs) == [Address, Uint256]
    ensures FunctionSignature(TransferDecl) == "transfer(address,uint256)"
  {
    UsdtNamesUnique();
    assert UsdtAbi.functions[3] == TransferDecl;
  }

  lemma EventTypeList()
    ensures TypeList([Address, Address, Uint256]) == "address,address,uint256"
  {
    var ts := [Address, Address, Uint256];
    assert ts[1..] == [Address, Uint256] && ts[1..][1..] == [Uint256];
    assert TypeList([Uint256]) == "uint256";
    assert TypeList([Address, Uint256]) == "address,uint256";
  }

  /** The canonical signature of `Transfer`. */
  lemma TransferSignature()
    ensures EventSignature(TransferEvent) == "Transfer(address,address,uint256)"
  {
    assert EventParamTypes(TransferEvent.inputs) == [Address, Address, Uint256];
    EventTypeList();
    var t := TypeList(EventParamTypes(TransferEvent.inputs));
    assert t == "address,address,uint256";
    assert "Transfer" + "(" + t + ")" == "Transfer(address,address,uint256)";
  }

  /** The canonical signature of `Approval`. */
  lemma ApprovalSignature()
    ensures EventSignature(ApprovalEvent) == "Approval(address,address,uint256)"
  {
    assert EventParamTypes(ApprovalEvent.inputs) == [Address, Address, Uint256];
    EventTypeList();
    var t := TypeList(EventParamTypes(ApprovalEvent.inputs));
    assert t == "address,address,uint256";
    assert "Approval" + "(" + t + ")" == "Approval(address,address,uint256)";
  }

  /** The topic lookup answers for `Transfer` and `Approval` and is `undefined` for every other name. */
  lemma UsdtEventLookup(name: string, topicOf: string -> string)
    ensures EventNameToTopic(UsdtAbi, name, topicOf).Some? <==> name in EventNames
  {
    var es := UsdtAbi.events;
    assert es[0].name == "Transfer" && es[1].name == "Approval";
    assert (exists i :: 0 <= i < |es| && es[i].name == name) <==> name in ["Transfer", "Approval"];
  }

  /** Each event's topic is the hash of its canonical signature. */
  lemma UsdtEventTopics(topicOf: string -> string)
    ensures EventNameToTopic(UsdtAbi, "Transfer", topicOf) == Some(topicOf("Transfer(address,address,uint256)"))
    ensures EventNameToTopic(UsdtAbi, "Approval", topicOf) == Some(topicOf("Approval(address,address,uint256)"))
  {
    var es := UsdtAbi.events;
    assert "Transfer"[0] != "Approval"[0];
    assert FindEvent(es, "Transfer") == Some(TransferEvent);
    assert FindEvent(es, "Approval") == Some(ApprovalEvent) by {
      assert es[1..] == [ApprovalEvent];
    }
    TransferSignature();
    ApprovalSignature();
  }

  /** The network lookup succeeds for chains 1, 3 and 5 only; chain 4 (Rinkeby) is not listed. */
  lemma UsdtNetworkLookup(chainId: int)
    ensures ResolveNetwork(chainId).Success? <==> chainId == 1 || chainId == 3 || chainId == 5
    ensures ResolveNetwork(4) == Failure(NetworkNotDeclared(4))
    ensures ResolveNetwork(1).Success? && ResolveNetwork(1).value.address == "0xdac17f958d2ee523a2206206994597c13d831ec7"
  {
  }
}
