/**
  The ABI adaptation layer of the Qtum client library: it turns call
  arguments into calldata, return data into a list of values, and raw
  transaction logs into one record per event. The contract-ABI codec itself
  (encodeMethod, decodeParams, logDecoder) is an external library; here it is
  a function parameter whose results, including its failures, are passed
  through unchanged.
*/
module Abi {
  import opened Wrappers

  // ---------------------------------------------------------------------
  // Data model
  // ---------------------------------------------------------------------

  /** One declared parameter of a method or event: an entry of `inputs` or `outputs`. */
  datatype Param = Param(name: string, typ: string)

  /** A method or event descriptor of a contract interface; only the fields this layer reads. */
  datatype AbiMethod = AbiMethod(name: string, inputs: seq<Param>, outputs: seq<Param>)

  /** A raw log entry as the RPC client delivers it: hex strings, possibly without "0x". */
  datatype TransactionLog = TransactionLog(address: string, data: string, topics: seq<string>)

  /**
    A JavaScript value as far as this layer tells values apart: reading a
    missing property gives `Undefined`, the log decoder tags entries with a
    string, and every value the codec decodes is opaque (of type V).
  */
  datatype JsValue<V> = Undefined | Text(text: string) | Opaque(value: V)

  /** A plain JavaScript object: its own properties by key. */
  type JsObject<V> = map<string, JsValue<V>>

  /** An "array-like" object returned by the codec: its indexed properties. */
  type ArrayLike<V> = map<nat, JsValue<V>>

  /** Whatever the external codec throws; it is never inspected here. */
  datatype CodecFailure = CodecFailure(message: string)

  /** The failures of log decoding: a codec failure, or an event with no descriptor. */
  datatype LogError<V> = Codec(failure: CodecFailure) | MissingEventAbi(eventType: JsValue<V>)

  /** Property read `o[key]`. */
  function Get<V>(o: JsObject<V>, key: string): JsValue<V>
  {
    if key in o then o[key] else Undefined
  }

  /** Indexed read `a[i]` on an array-like object. */
  function At<V>(a: ArrayLike<V>, i: nat): JsValue<V>
  {
    if i in a then a[i] else Undefined
  }

  // ---------------------------------------------------------------------
  // Hex prefix normalisation
  // ---------------------------------------------------------------------

  /** A hex string that carries the "0x" prefix (case-sensitive). */
  predicate HasHex0x(s: string)
  {
    "0x" <= s
  }

  /**
    ensureHex0x: the string itself when its first two characters are '0'
    and 'x', otherwise "0x" in front of it. Indexing past the end of a
    JavaScript string gives undefined, which equals neither character.
  */
  function EnsureHex0x(hexstr: string): (r: string)
    ensures HasHex0x(r)
    ensures HasHex0x(hexstr) ==> r == hexstr
    ensures !HasHex0x(hexstr) ==> r == "0x" + hexstr
  {
    if |hexstr| > 0 && hexstr[0] == '0' && |hexstr| > 1 && hexstr[1] == 'x' then
      assert hexstr[..2] == "0x";
      hexstr
    else
      "0x" + hexstr
  }

  /** Normalising twice is normalising once. */
  lemma EnsureHex0xIdempotent(s: string)
    ensures EnsureHex0x(EnsureHex0x(s)) == EnsureHex0x(s)
  {
  }

  /** The prefix test is case-sensitive, and the empty string becomes "0x". */
  lemma EnsureHex0xExamples()
    ensures EnsureHex0x("") == "0x"
    ensures EnsureHex0x("0") == "0x0"
    ensures EnsureHex0x("0X12") == "0x0X12"
    ensures EnsureHex0x("0x12") == "0x12"
    ensures EnsureHex0x("abc123") == "0xabc123"
  {
  }

  /** `s.slice(2)`: the string without its first two characters ("" when shorter). */
  function Slice2(s: string): (r: string)
    ensures |s| >= 2 ==> s[..2] + r == s
    ensures |s| < 2 ==> r == ""
    ensures HasHex0x(s) ==> "0x" + r == s
  {
    if |s| >= 2 then
      assert s == s[..2] + s[2..];
      s[2..]
    else
      ""
  }

  /**
    Stripping two characters (encodeInputs) and prepending "0x"
    (decodeOutputs, EnsureHex0x) undo each other on hex strings.
  */
  lemma Slice2UndoesEnsureHex0x(s: string)
    ensures !HasHex0x(s) ==> Slice2(EnsureHex0x(s)) == s
    ensures "0x" + Slice2(EnsureHex0x(s)) == EnsureHex0x(s)
    ensures HasHex0x(s) ==> EnsureHex0x("0x" + Slice2(s)) == s
  {
  }

  // ---------------------------------------------------------------------
  // encodeInputs
  // ---------------------------------------------------------------------

  /** The argument list of a call: an omitted one defaults to the empty list. */
  function ArgList<V>(args: Option<seq<JsValue<V>>>): seq<JsValue<V>>
  {
    match args
    case Some(a) => a
    case None => []
  }

  /**
    encodeInputs: encode the call with the codec and drop the first two
    characters (the "0x") of its output. Omitted arguments (`None`) are the
    empty list. A codec failure is passed through unchanged.
  */
  function EncodeInputs<V>(m: AbiMethod, args: Option<seq<JsValue<V>>>,
                           encodeMethod: (AbiMethod, seq<JsValue<V>>) -> Result<string, CodecFailure>)
    : (r: Result<string, CodecFailure>)
    ensures encodeMethod(m, ArgList(args)).Err? ==> r == encodeMethod(m, ArgList(args))
    ensures encodeMethod(m, ArgList(args)).Ok? ==> r.Ok?
    ensures encodeMethod(m, ArgList(args)).Ok? ==>
      |r.value| == if |encodeMethod(m, ArgList(args)).value| < 2 then 0 else |encodeMethod(m, ArgList(args)).value| - 2
    ensures encodeMethod(m, ArgList(args)).Ok? ==>
      forall i :: 0 <= i < |r.value| ==> r.value[i] == encodeMethod(m, ArgList(args)).value[i + 2]
    ensures encodeMethod(m, ArgList(args)).Ok? && HasHex0x(encodeMethod(m, ArgList(args)).value) ==>
      "0x" + r.value == encodeMethod(m, ArgList(args)).value
  {
    match encodeMethod(m, ArgList(args))
    case Err(e) => Err(e)
    case Ok(calldata) => Ok(Slice2(calldata))
  }

  // ---------------------------------------------------------------------
  // decodeOutputs
  // ---------------------------------------------------------------------

  /** `params.map((p) => p.type)`. */
  function TypesOf(params: seq<Param>): (types: seq<string>)
    ensures |types| == |params|
    ensures forall i :: 0 <= i < |params| ==> types[i] == params[i].typ
  {
    if params == [] then [] else [params[0].typ] + TypesOf(params[1..])
  }

  /**
    decodeOutputs: decode "0x" + outputData against the declared output
    types, in order, and copy the array-like result into a sequence with one
    element per declared output (an index the codec did not fill reads as
    Undefined). A codec failure is passed through unchanged.
  */
  method DecodeOutputs<V>(m: AbiMethod, outputData: string,
                          decodeParams: (seq<string>, string) -> Result<ArrayLike<V>, CodecFailure>)
    returns (r: Result<seq<JsValue<V>>, CodecFailure>)
    ensures decodeParams(TypesOf(m.outputs), "0x" + outputData).Err? ==>
      r == Err(decodeParams(TypesOf(m.outputs), "0x" + outputData).error)
    ensures decodeParams(TypesOf(m.outputs), "0x" + outputData).Ok? ==> r.Ok? && |r.value| == |m.outputs|
    ensures decodeParams(TypesOf(m.outputs), "0x" + outputData).Ok? ==>
      forall i :: 0 <= i < |r.value| ==> r.value[i] == At(decodeParams(TypesOf(m.outputs), "0x" + outputData).value, i)
  {
    var types := TypesOf(m.outputs);
    var result := decodeParams(types, "0x" + outputData);
    if result.Err? {
      return Err(result.error);
    }
    var values: seq<JsValue<V>> := [];
    for i := 0 to |types|
      invariant |values| == i
      invariant forall j :: 0 <= j < i ==> values[j] == At(result.value, j)
    {
      values := values + [At(result.value, i)];
    }
    return Ok(values);
  }

  // ---------------------------------------------------------------------
  // decodeLogs: normalising the raw logs
  // ---------------------------------------------------------------------

  /** `topics.map(ensureHex0x)`. */
  function NormalizeTopics(topics: seq<string>): (r: seq<string>)
    ensures |r| == |topics|
    ensures forall i :: 0 <= i < |topics| ==> r[i] == EnsureHex0x(topics[i])
  {
    if topics == [] then [] else [EnsureHex0x(topics[0])] + NormalizeTopics(topics[1..])
  }

  /** The prefixed copy of one log entry that is handed to the log decoder. */
  function NormalizeLog(log: TransactionLog): (r: TransactionLog)
    ensures Normalized(r)
    ensures |r.topics| == |log.topics|
    ensures Normalized(log) ==> r == log
  {
    TransactionLog(EnsureHex0x(log.address), EnsureHex0x(log.data), NormalizeTopics(log.topics))
  }

  /** Every hex string of a log entry carries the "0x" prefix. */
  predicate Normalized(log: TransactionLog)
  {
    HasHex0x(log.address) && HasHex0x(log.data) &&
    forall i :: 0 <= i < |log.topics| ==> HasHex0x(log.topics[i])
  }

  /** `logs.map(...)`: the normalised log list, entry by entry, in order. */
  function NormalizeLogs(logs: seq<TransactionLog>): (r: seq<TransactionLog>)
    ensures |r| == |logs|
    ensures forall i :: 0 <= i < |logs| ==>
      && r[i].address == EnsureHex0x(logs[i].address)
      && r[i].data == EnsureHex0x(logs[i].data)
      && |r[i].topics| == |logs[i].topics|
      && (forall j :: 0 <= j < |logs[i].topics| ==> r[i].topics[j] == EnsureHex0x(logs[i].topics[j]))
    ensures forall i :: 0 <= i < |r| ==> Normalized(r[i])
  {
    if logs == [] then []
    else
      var rest := NormalizeLogs(logs[1..]);
      assert forall i :: 1 <= i < |logs| ==> logs[i] == logs[1..][i - 1];
      [NormalizeLog(logs[0])] + rest
  }

  /** Normalising topics leaves exactly the already-prefixed lists unchanged. */
  lemma NormalizeTopicsFixed(topics: seq<string>)
    ensures NormalizeTopics(topics) == topics <==> forall i :: 0 <= i < |topics| ==> HasHex0x(topics[i])
  {
  }

  /** The normalised list is a fixed point exactly when every string was already prefixed. */
  lemma {:induction false} NormalizeLogsFixed(logs: seq<TransactionLog>)
    ensures NormalizeLogs(logs) == logs <==> forall i :: 0 <= i < |logs| ==> Normalized(logs[i])
  {
    var r := NormalizeLogs(logs);
    if forall i :: 0 <= i < |logs| ==> Normalized(logs[i]) {
      forall i | 0 <= i < |logs| ensures r[i] == logs[i] {
        NormalizeTopicsFixed(logs[i].topics);
      }
    } else {
      var i :| 0 <= i < |logs| && !Normalized(logs[i]);
      assert !Normalized(logs[i]);
      assert Normalized(r[i]);
    }
  }

  /** Normalising the log list twice is normalising it once. */
  lemma NormalizeLogsIdempotent(logs: seq<TransactionLog>)
    ensures NormalizeLogs(NormalizeLogs(logs)) == NormalizeLogs(logs)
  {
  }

  /** An unprefixed address, data payload and topic are each prefixed on their own. */
  lemma NormalizeLogExample()
    ensures NormalizeLogs([TransactionLog("abc123", "", ["deadbeef", "0x01"])])
         == [TransactionLog("0xabc123", "0x", ["0xdeadbeef", "0x01"])]
  {
    assert HasHex0x("0x01") by { assert "0x01"[..2] == "0x"; }
    assert !HasHex0x("deadbeef") by { assert "deadbeef"[0] != "0x"[0]; }
    assert !HasHex0x("abc123") by { assert "abc123"[0] != "0x"[0]; }
    var t := NormalizeTopics(["deadbeef", "0x01"]);
    assert t == [t[0], t[1]];
    assert t[0] == "0x" + "deadbeef" == "0xdeadbeef";
    assert EnsureHex0x("abc123") == "0xabc123";
    assert EnsureHex0x("") == "0x";
  }

  // ---------------------------------------------------------------------
  // decodeLogs: matching events with descriptors
  // ---------------------------------------------------------------------

  /** The tag the log decoder puts on a parsed entry: its `_eventName` property. */
  function EventType<V>(parsed: JsObject<V>): JsValue<V>
  {
    Get(parsed, "_eventName")
  }

  /** `method.name === type`: strict equality, so only a string can match. */
  predicate NameMatches<V>(m: AbiMethod, eventType: JsValue<V>)
  {
    eventType.Text? && eventType.text == m.name
  }

  /**
    `methods.find((method) => method.name === type)`: the first descriptor
    with that name, None when there is none.
  */
  function FindEventAbi<V>(methods: seq<AbiMethod>, eventType: JsValue<V>): (r: Option<AbiMethod>)
    ensures r.None? <==> forall i :: 0 <= i < |methods| ==> !NameMatches(methods[i], eventType)
    ensures r.Some? ==> r.value in methods && NameMatches(r.value, eventType)
    ensures forall i :: 0 <= i < |methods| && NameMatches(methods[i], eventType) &&
                        (forall j :: 0 <= j < i ==> !NameMatches(methods[j], eventType))
                    ==> r == Some(methods[i])
  {
    if methods == [] then None
    else if NameMatches(methods[0], eventType) then Some(methods[0])
    else
      var r := FindEventAbi(methods[1..], eventType);
      assert forall i :: 1 <= i < |methods| ==> methods[i] == methods[1..][i - 1];
      r
  }

  /** The parsed entry has a descriptor to be decoded with. */
  predicate Matched<V>(methods: seq<AbiMethod>, parsed: JsObject<V>)
  {
    FindEventAbi(methods, EventType(parsed)).Some?
  }

  // ---------------------------------------------------------------------
  // decodeLogs: rebuilding one record
  // ---------------------------------------------------------------------

  /** The names of the declared inputs. */
  function InputNames(inputs: seq<Param>): set<string>
  {
    set i | 0 <= i < |inputs| :: inputs[i].name
  }

  /**
    The record decodeLogs returns for one parsed entry: the event type under
    "type" and, for every declared input, the entry's property of that name.
    An input named "type" (reserved in Solidity) would overwrite the tag.
  */
  function DecodedRecord<V>(eventType: JsValue<V>, inputs: seq<Param>, parsed: JsObject<V>)
    : (rec: JsObject<V>)
    ensures rec.Keys == {"type"} + InputNames(inputs)
    ensures forall i :: 0 <= i < |inputs| ==> rec[inputs[i].name] == Get(parsed, inputs[i].name)
    ensures "type" !in InputNames(inputs) ==> rec["type"] == eventType
  {
    var names := InputNames(inputs);
    map k | k in {"type"} + names :: if k in names then Get(parsed, k) else eventType
  }

  /** Adding one more input to the record is one more property assignment. */
  lemma DecodedRecordStep<V>(eventType: JsValue<V>, inputs: seq<Param>, i: nat, parsed: JsObject<V>)
    requires i < |inputs|
    ensures DecodedRecord(eventType, inputs[..i + 1], parsed)
         == DecodedRecord(eventType, inputs[..i], parsed)[inputs[i].name := Get(parsed, inputs[i].name)]
  {
  }

  /**
    The body of the callback: `decodedLog = { type }`, then one property
    assignment per declared input, in order.
  */
  method BuildDecodedLog<V>(eventType: JsValue<V>, inputs: seq<Param>, parsed: JsObject<V>)
    returns (rec: JsObject<V>)
    ensures rec == DecodedRecord(eventType, inputs, parsed)
  {
    rec := map["type" := eventType];
    assert InputNames(inputs[..0]) == {};
    for i := 0 to |inputs|
      invariant rec == DecodedRecord(eventType, inputs[..i], parsed)
    {
      DecodedRecordStep(eventType, inputs, i, parsed);
      rec := rec[inputs[i].name := Get(parsed, inputs[i].name)];
    }
    assert inputs[..|inputs|] == inputs;
  }

  // ---------------------------------------------------------------------
  // decodeLogs: the whole batch
  // ---------------------------------------------------------------------

  /**
    `parsedLogs.map(callback)`: one record per parsed entry, in order; the
    first entry whose event has no descriptor throws and aborts the batch.
  */
  function ParsedRecords<V>(methods: seq<AbiMethod>, parsed: seq<JsObject<V>>)
    : (r: Result<seq<JsObject<V>>, LogError<V>>)
    ensures r.Ok? ==> |r.value| == |parsed|
    ensures r.Err? ==> r.error.MissingEventAbi?
  {
    if parsed == [] then Ok([])
    else
      var eventType := EventType(parsed[0]);
      match FindEventAbi(methods, eventType)
      case None => Err(MissingEventAbi(eventType))
      case Some(logAbi) =>
        match ParsedRecords(methods, parsed[1..])
        case Err(e) => Err(e)
        case Ok(rest) => Ok([DecodedRecord(eventType, logAbi.inputs, parsed[0])] + rest)
  }

  /** The batch succeeds exactly when every parsed entry has a descriptor. */
  lemma {:induction false} ParsedRecordsSucceeds<V>(methods: seq<AbiMethod>, parsed: seq<JsObject<V>>)
    ensures ParsedRecords(methods, parsed).Ok? <==> forall i :: 0 <= i < |parsed| ==> Matched(methods, parsed[i])
  {
    if parsed != [] {
      ParsedRecordsSucceeds(methods, parsed[1..]);
      assert forall i :: 1 <= i < |parsed| ==> parsed[i] == parsed[1..][i - 1];
    }
  }

  /**
    On success there is exactly one record per parsed entry, in order, built
    from the first descriptor with the entry's event name.
  */
  lemma {:induction false} ParsedRecordsContents<V>(methods: seq<AbiMethod>, parsed: seq<JsObject<V>>)
    requires ParsedRecords(methods, parsed).Ok?
    ensures |ParsedRecords(methods, parsed).value| == |parsed|
    ensures forall i :: 0 <= i < |parsed| ==>
      && Matched(methods, parsed[i])
      && ParsedRecords(methods, parsed).value[i]
         == DecodedRecord(EventType(parsed[i]), FindEventAbi(methods, EventType(parsed[i])).value.inputs, parsed[i])
  {
    if parsed != [] {
      var tail := parsed[1..];
      var eventType := EventType(parsed[0]);
      var logAbi := FindEventAbi(methods, eventType).value;
      ParsedRecordsContents(methods, tail);
      var rest := ParsedRecords(methods, tail).value;
      var all := ParsedRecords(methods, parsed).value;
      assert all == [DecodedRecord(eventType, logAbi.inputs, parsed[0])] + rest;
      forall i | 1 <= i < |parsed|
        ensures Matched(methods, parsed[i])
        ensures all[i] == DecodedRecord(EventType(parsed[i]), FindEventAbi(methods, EventType(parsed[i])).value.inputs, parsed[i])
      {
        assert parsed[i] == tail[i - 1] && all[i] == rest[i - 1];
      }
    }
  }

  /** The batch fails naming the event of the first entry that has no descriptor. */
  lemma {:induction false} ParsedRecordsFailsAtFirstUnmatched<V>(methods: seq<AbiMethod>, parsed: seq<JsObject<V>>, k: nat)
    requires k < |parsed| && !Matched(methods, parsed[k])
    requires forall j :: 0 <= j < k ==> Matched(methods, parsed[j])
    ensures ParsedRecords(methods, parsed) == Err(MissingEventAbi(EventType(parsed[k])))
  {
    if k > 0 {
      var tail := parsed[1..];
      assert tail[k - 1] == parsed[k];
      forall j | 0 <= j < k - 1 ensures Matched(methods, tail[j]) {
        assert tail[j] == parsed[j + 1];
      }
      ParsedRecordsFailsAtFirstUnmatched(methods, tail, k - 1);
      assert Matched(methods, parsed[0]);
    }
  }

  /** Records already built, in front of the outcome for the rest of the batch. */
  function Prepend<V>(done: seq<JsObject<V>>, rest: Result<seq<JsObject<V>>, LogError<V>>)
    : Result<seq<JsObject<V>>, LogError<V>>
  {
    match rest
    case Ok(s) => Ok(done + s)
    case Err(e) => Err(e)
  }

  /** Nothing built yet: the outcome is that of the whole batch. */
  lemma PrependNothing<V>(rest: Result<seq<JsObject<V>>, LogError<V>>)
    ensures Prepend([], rest) == rest
  {
    if rest.Ok? { assert [] + rest.value == rest.value; }
  }

  /** One step of the batch loop: entry `i` has a descriptor and its record is appended. */
  lemma PrependStep<V>(done: seq<JsObject<V>>, methods: seq<AbiMethod>, parsed: seq<JsObject<V>>, i: nat)
    requires i < |parsed| && Matched(methods, parsed[i])
    ensures Prepend(done, ParsedRecords(methods, parsed[i..]))
         == Prepend(done + [DecodedRecord(EventType(parsed[i]), FindEventAbi(methods, EventType(parsed[i])).value.inputs, parsed[i])],
                    ParsedRecords(methods, parsed[i + 1..]))
  {
    assert parsed[i..][0] == parsed[i] && parsed[i..][1..] == parsed[i + 1..];
    var rec := DecodedRecord(EventType(parsed[i]), FindEventAbi(methods, EventType(parsed[i])).value.inputs, parsed[i]);
    match ParsedRecords(methods, parsed[i + 1..]) {
      case Err(_) =>
      case Ok(rest) => assert done + [rec] + rest == done + ([rec] + rest);
    }
  }

  /** The batch loop stops at entry `i` when it has no descriptor. */
  lemma PrependStop<V>(done: seq<JsObject<V>>, methods: seq<AbiMethod>, parsed: seq<JsObject<V>>, i: nat)
    requires i < |parsed| && !Matched(methods, parsed[i])
    ensures Prepend(done, ParsedRecords(methods, parsed[i..])) == Err(MissingEventAbi(EventType(parsed[i])))
  {
  }

  /**
    decodeLogs: prefix every hex string of every log, hand the list to the
    log decoder built from `methods`, and turn each parsed entry into a
    record. A codec failure is passed through; an event without descriptor
    fails the whole batch.
  */
  method DecodeLogs<V>(methods: seq<AbiMethod>, logs: seq<TransactionLog>,
                       logDecoder: (seq<AbiMethod>, seq<TransactionLog>) -> Result<seq<JsObject<V>>, CodecFailure>)
    returns (r: Result<seq<JsObject<V>>, LogError<V>>)
    ensures logDecoder(methods, NormalizeLogs(logs)).Err? ==>
      r == Err(Codec(logDecoder(methods, NormalizeLogs(logs)).error))
    ensures logDecoder(methods, NormalizeLogs(logs)).Ok? ==>
      r == ParsedRecords(methods, logDecoder(methods, NormalizeLogs(logs)).value)
  {
    var rawlogs := NormalizeLogs(logs);
    var parsedLogs := logDecoder(methods, rawlogs);
    if parsedLogs.Err? {
      return Err(Codec(parsedLogs.error));
    }
    var parsed := parsedLogs.value;
    var records: seq<JsObject<V>> := [];
    assert parsed[0..] == parsed;
    PrependNothing(ParsedRecords(methods, parsed));
    for i := 0 to |parsed|
      invariant ParsedRecords(methods, parsed) == Prepend(records, ParsedRecords(methods, parsed[i..]))
    {
      var eventType := EventType(parsed[i]);
      var logAbi := FindEventAbi(methods, eventType);
      if logAbi.None? {
        PrependStop(records, methods, parsed, i);
        return Err(MissingEventAbi(eventType));
      }
      var decodedLog := BuildDecodedLog(eventType, logAbi.value.inputs, parsed[i]);
      PrependStep(records, methods, parsed, i);
      records := records + [decodedLog];
    }
    assert parsed[|parsed|..] == [];
    assert records + [] == records;
    return Ok(records);
  }
}
