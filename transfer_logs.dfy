/**
 * The filter and map of `getLog`, as a function of the logs the node returned: keep
 * the logs whose topics contain the `Transfer` topic, in their order, and turn each
 * one into a record with its decoded and its formatted values.
 */
module TransferLogs {
  import opened Results
  import opened UsdtConf
  import opened EventValues

  /** A raw log as `getLogs` returns it; `topics` may be missing. */
  datatype Log = Log(
    address: string,
    topics: Option<seq<string>>,
    data: string,
    blockNumber: nat,
    blockHash: string,
    transactionHash: string,
    logIndex: nat)

  /** What `interface.parseLog(log)` returns: the event's name and its decoded values. */
  datatype ParsedLog = ParsedLog(name: string, values: map<string, Value>)

  /** One element of the array `getLog` resolves to. */
  datatype TransferRecord = TransferRecord(
    txHash: string,
    logIdx: nat,
    blockNumber: nat,
    blockHash: string,
    contract: string,
    eventName: string,
    topics: Option<seq<string>>,
    rawValues: map<string, Value>,
    values: map<string, Value>)

  /** The filter's test: the entry is not null, has topics, and `topic` is one of them, at any position. */
  predicate IsTransferLog(entry: Option<Log>, topic: string)
  {
    entry.Some? && entry.value.topics.Some? && topic in entry.value.topics.value
  }

  /** `logs.filter(...)`: the entries that pass the test, in their original order. */
  function SelectTransferLogs(logs: seq<Option<Log>>, topic: string): (kept: seq<Log>)
    ensures |kept| <= |logs|
    ensures forall l :: l in kept <==> exists i :: 0 <= i < |logs| && logs[i] == Some(l) && IsTransferLog(logs[i], topic)
    ensures forall l :: l in kept ==> l.topics.Some? && topic in l.topics.value
  {
    if logs == [] then []
    else
      var rest := SelectTransferLogs(logs[1..], topic);
      assert forall i :: 1 <= i < |logs| ==> logs[i] == logs[1..][i - 1];
      if IsTransferLog(logs[0], topic) then [logs[0].value] + rest else rest
  }

  /** Selection keeps order: selecting from two runs of logs is selecting from each in turn. */
  lemma {:induction false} SelectConcat(a: seq<Option<Log>>, b: seq<Option<Log>>, topic: string)
    ensures SelectTransferLogs(a + b, topic) == SelectTransferLogs(a, topic) + SelectTransferLogs(b, topic)
    decreases |a|
  {
    if a != [] {
      assert (a + b)[1..] == a[1..] + b;
      SelectConcat(a[1..], b, topic);
    } else {
      assert a + b == b;
    }
  }

  /** A single entry is kept, as its log, exactly when it passes the test. */
  lemma SelectOne(entry: Option<Log>, topic: string)
    ensures SelectTransferLogs([entry], topic) == if IsTransferLog(entry, topic) then [entry.value] else []
  {
    assert [entry][1..] == [];
  }

  /** The record of a kept log: the copied fields, the decoded values and the values formatted at `1e6`. */
  function BuildRecord(l: Log, evt: ParsedLog): (rec: TransferRecord)
    ensures IsRecordOf(rec, l, evt)
  {
    TransferRecord(
      l.transactionHash, l.logIndex, l.blockNumber, l.blockHash, l.address,
      evt.name, l.topics, evt.values, FormattedValues(evt.values, UsdPrecision))
  }

  /**
   * `.map(log => ...)`: one record per kept log, in order. A log the decoder cannot
   * decode makes the whole call fail (`evt.name` of `null`, or the decoder's throw),
   * at the first such log.
   */
  function BuildRecords(kept: seq<Log>, parseLog: Log -> Option<ParsedLog>): (r: Result<seq<TransferRecord>>)
    ensures r.Success? <==> forall i :: 0 <= i < |kept| ==> parseLog(kept[i]).Some?
    ensures r.Success? ==> |r.value| == |kept|
    ensures r.Failure? ==> exists i :: 0 <= i < |kept| && parseLog(kept[i]).None?
                                       && r.error == LogNotDecoded(kept[i].logIndex)
                                       && forall j :: 0 <= j < i ==> parseLog(kept[j]).Some?
  {
    if kept == [] then Success([])
    else
      match parseLog(kept[0])
      case None => Failure(LogNotDecoded(kept[0].logIndex))
      case Some(evt) =>
        match BuildRecords(kept[1..], parseLog)
        case Failure(e) => Failure(e)
        case Success(recs) => Success([BuildRecord(kept[0], evt)] + recs)
  }

  /** The record at each position is the record of the kept log at that position. */
  lemma {:induction false} BuildRecordsElements(kept: seq<Log>, parseLog: Log -> Option<ParsedLog>)
    requires BuildRecords(kept, parseLog).Success?
    ensures var recs := BuildRecords(kept, parseLog).value;
      |recs| == |kept| && forall i :: 0 <= i < |kept| ==> recs[i] == BuildRecord(kept[i], parseLog(kept[i]).value)
    decreases |kept|
  {
    if kept != [] {
      BuildRecordsElements(kept[1..], parseLog);
      var recs := BuildRecords(kept, parseLog).value;
      var rest := BuildRecords(kept[1..], parseLog).value;
      assert recs == [BuildRecord(kept[0], parseLog(kept[0]).value)] + rest;
      forall i | 1 <= i < |kept|
        ensures recs[i] == BuildRecord(kept[i], parseLog(kept[i]).value)
      {
        assert recs[i] == rest[i - 1] && kept[i] == kept[1..][i - 1];
      }
    }
  }

  /**
   * The filter and the map of `getLog`, given the topic of `Transfer`: there are no more
   * events than logs, and every event's topics contain the topic.
   */
  function TransferEvents(logs: seq<Option<Log>>, topic: string, parseLog: Log -> Option<ParsedLog>)
    : (r: Result<seq<TransferRecord>>)
    ensures r.Success? ==> |r.value| <= |logs|
    ensures r.Success? ==> forall i :: 0 <= i < |r.value| ==> r.value[i].topics.Some? && topic in r.value[i].topics.value
  {
    var kept := SelectTransferLogs(logs, topic);
    var r := BuildRecords(kept, parseLog);
    if r.Success? then
      BuildRecordsElements(kept, parseLog);
      assert forall i :: 0 <= i < |kept| ==> kept[i] in kept;
      r
    else r
  }

  /**
   * The body of `getLog` after the fetch: the filter topic is `eventNameToTopic(abi,
   * 'Transfer')`. Were it `undefined`, no topic would equal it and no log would be kept.
   */
  function GetLog(logs: seq<Option<Log>>, topicOf: string -> string, parseLog: Log -> Option<ParsedLog>)
    : (r: Result<seq<TransferRecord>>)
    ensures r.Success? ==> |r.value| <= |logs|
    ensures r.Success? ==> forall i :: 0 <= i < |r.value| ==>
      r.value[i].topics.Some? && topicOf("Transfer(address,address,uint256)") in r.value[i].topics.value
  {
    UsdtEventTopics(topicOf);
    match EventNameToTopic(UsdtAbi, "Transfer", topicOf)
    case None => Success([])
    case Some(topic) => TransferEvents(logs, topic, parseLog)
  }

  /** The filter topic is the hash of `Transfer(address,address,uint256)`. */
  lemma GetLogTopic(logs: seq<Option<Log>>, topicOf: string -> string, parseLog: Log -> Option<ParsedLog>)
    ensures GetLog(logs, topicOf, parseLog) == TransferEvents(logs, topicOf("Transfer(address,address,uint256)"), parseLog)
  {
    UsdtEventTopics(topicOf);
  }

  /**
   * `rec` is the record of log `l` decoded as `evt`: the identifying fields copied from
   * the log, the event's name, its decoded values as `rawValues`, and
   * `formatEventValues(rawValues, 1e6)` as `values`.
   */
  predicate IsRecordOf(rec: TransferRecord, l: Log, evt: ParsedLog)
  {
    rec.txHash == l.transactionHash && rec.logIdx == l.logIndex && rec.blockNumber == l.blockNumber
    && rec.blockHash == l.blockHash && rec.contract == l.address && rec.topics == l.topics
    && rec.eventName == evt.name && rec.rawValues == evt.values
    && rec.values == FormattedValues(rec.rawValues, UsdPrecision)
  }

  /**
   * Every kept log yields exactly one record, in order, and the call succeeds exactly
   * when every kept log decodes.
   */
  lemma TransferEventsRecords(logs: seq<Option<Log>>, topic: string, parseLog: Log -> Option<ParsedLog>)
    ensures TransferEvents(logs, topic, parseLog).Success?
            <==> forall l :: l in SelectTransferLogs(logs, topic) ==> parseLog(l).Some?
    ensures TransferEvents(logs, topic, parseLog).Success? ==>
      var kept := SelectTransferLogs(logs, topic);
      var recs := TransferEvents(logs, topic, parseLog).value;
      |recs| == |kept| && forall i :: 0 <= i < |kept| ==> IsRecordOf(recs[i], kept[i], parseLog(kept[i]).value)
  {
    var kept := SelectTransferLogs(logs, topic);
    var r := TransferEvents(logs, topic, parseLog);
    assert (forall l :: l in kept ==> parseLog(l).Some?) <==> forall i :: 0 <= i < |kept| ==> parseLog(kept[i]).Some?;
    if r.Success? {
      BuildRecordsElements(kept, parseLog);
    }
  }

  /** The result is the empty array, not an error, exactly when no log carries the topic. */
  lemma NoTransferLogs(logs: seq<Option<Log>>, topic: string, parseLog: Log -> Option<ParsedLog>)
    ensures TransferEvents(logs, topic, parseLog) == Success([])
            <==> forall i :: 0 <= i < |logs| ==> !IsTransferLog(logs[i], topic)
  {
    var kept := SelectTransferLogs(logs, topic);
    if kept != [] {
      assert kept[0] in kept;
    }
    forall i | 0 <= i < |logs| && IsTransferLog(logs[i], topic)
      ensures kept != []
    {
      assert logs[i].value in kept;
    }
  }

  /** Building the records of two runs of kept logs is building each run's records in turn. */
  lemma {:induction false} BuildRecordsConcat(a: seq<Log>, b: seq<Log>, parseLog: Log -> Option<ParsedLog>)
    requires BuildRecords(a, parseLog).Success? && BuildRecords(b, parseLog).Success?
    ensures BuildRecords(a + b, parseLog) == Success(BuildRecords(a, parseLog).value + BuildRecords(b, parseLog).value)
    decreases |a|
  {
    if a == [] {
      assert a + b == b;
      assert BuildRecords(a, parseLog).value == [];
      assert [] + BuildRecords(b, parseLog).value == BuildRecords(b, parseLog).value;
    } else {
      assert (a + b)[0] == a[0] && (a + b)[1..] == a[1..] + b;
      BuildRecordsConcat(a[1..], b, parseLog);
      var head := BuildRecord(a[0], parseLog(a[0]).value);
      var x, y := BuildRecords(a[1..], parseLog).value, BuildRecords(b, parseLog).value;
      assert BuildRecords(a, parseLog).value == [head] + x;
      assert BuildRecords(a + b, parseLog).value == [head] + (x + y);
      assert [head] + (x + y) == [head] + x + y;
    }
  }

  /**
   * The records of two runs of logs are the records of each run in turn, when both
   * runs decode: running `getLog` block range by block range gives the same events.
   */
  lemma TransferEventsConcat(a: seq<Option<Log>>, b: seq<Option<Log>>, topic: string, parseLog: Log -> Option<ParsedLog>)
    requires TransferEvents(a, topic, parseLog).Success? && TransferEvents(b, topic, parseLog).Success?
    ensures TransferEvents(a + b, topic, parseLog)
            == Success(TransferEvents(a, topic, parseLog).value + TransferEvents(b, topic, parseLog).value)
  {
    SelectConcat(a, b, topic);
    BuildRecordsConcat(SelectTransferLogs(a, topic), SelectTransferLogs(b, topic), parseLog);
  }

  /** A decoded transfer of `100000000` base units is reported with `values.value == "100"`. */
  lemma TransferValueReported(l: Log, evt: ParsedLog)
    requires "value" in evt.values && evt.values["value"] == BigNum(100000000)
    ensures "value" in BuildRecord(l, evt).values && BuildRecord(l, evt).values["value"] == Str("100")
    ensures BuildRecord(l, evt).rawValues["value"] == BigNum(100000000)
  {
    FormattedTransferValue(evt.values);
  }
}
