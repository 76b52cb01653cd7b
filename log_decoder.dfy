/**
 * `decodeLogs(logs)`: for each log, looks up its event selector (topic 0
 * without "0x"), decodes the data against the non-indexed inputs, and
 * walks the declared inputs with one cursor over the topics and one over
 * the decoded data.
 */
module LogDecoder {
  import opened Wrappers
  import opened JsStrings
  import opened Abi
  import opened Address

  /** A log entry: `{ address, topics, data }`. */
  datatype Log = Log(address: string, topics: seq<string>, data: string)

  /** The result of a matched log: `{ name, events, address }`. */
  datatype DecodedLog = DecodedLog(name: string, events: seq<DecodedParam>, address: string)

  /** The types of the non-indexed inputs, in declared order. */
  function NonIndexedTypes(inputs: seq<Param>): (r: seq<string>)
    ensures |r| <= |inputs|
    decreases |inputs|
  {
    if inputs == [] then []
    else
      var last := inputs[|inputs| - 1];
      NonIndexedTypes(inputs[..|inputs| - 1]) + if last.indexed then [] else [last.abiType]
  }

  /** How many inputs are indexed. */
  function CountIndexed(inputs: seq<Param>): (r: nat)
    ensures r <= |inputs|
    decreases |inputs|
  {
    if inputs == [] then 0
    else CountIndexed(inputs[..|inputs| - 1]) + if inputs[|inputs| - 1].indexed then 1 else 0
  }

  /** The non-indexed types of a prefix of the inputs are a prefix of all non-indexed types. */
  lemma {:induction false} NonIndexedPrefix(inputs: seq<Param>, n: nat)
    requires n <= |inputs|
    ensures var t := NonIndexedTypes(inputs); |NonIndexedTypes(inputs[..n])| <= |t| && t[..|NonIndexedTypes(inputs[..n])|] == NonIndexedTypes(inputs[..n])
    decreases |inputs| - n
  {
    if n < |inputs| {
      NonIndexedPrefix(inputs, n + 1);
      assert inputs[..n + 1][..n] == inputs[..n];
    } else {
      assert inputs[..n] == inputs;
    }
  }

  /** Every input is either indexed or non-indexed. */
  lemma {:induction false} CountsAddUp(inputs: seq<Param>)
    ensures CountIndexed(inputs) + |NonIndexedTypes(inputs)| == |inputs|
    decreases |inputs|
  {
    if inputs != [] {
      CountsAddUp(inputs[..|inputs| - 1]);
    }
  }

  /**
   * The data cursor when input `k` (non-indexed) is reached: the number of
   * non-indexed inputs before it. The value there was decoded with that
   * input's own type.
   */
  function DataPos(inputs: seq<Param>, k: nat): (n: nat)
    requires k < |inputs| && !inputs[k].indexed
    ensures n < |NonIndexedTypes(inputs)| && NonIndexedTypes(inputs)[n] == inputs[k].abiType
  {
    NonIndexedPrefix(inputs, k + 1);
    assert inputs[..k + 1][..k] == inputs[..k];
    |NonIndexedTypes(inputs[..k])|
  }

  /** The topic cursor when input `k` is reached: 1 plus the number of indexed inputs before it. */
  function TopicPos(inputs: seq<Param>, k: nat): (r: nat)
    requires k <= |inputs|
    ensures 1 <= r <= k + 1
  {
    1 + CountIndexed(inputs[..k])
  }

  /** Counting over a longer prefix never gives less. */
  lemma {:induction false} CountsGrow(inputs: seq<Param>, a: nat, b: nat)
    requires a <= b <= |inputs|
    ensures CountIndexed(inputs[..a]) <= CountIndexed(inputs[..b])
    ensures |NonIndexedTypes(inputs[..a])| <= |NonIndexedTypes(inputs[..b])|
    decreases b - a
  {
    if a < b {
      CountsGrow(inputs, a, b - 1);
      assert inputs[..b][..b - 1] == inputs[..b - 1];
    }
  }

  /** Later non-indexed inputs read later decoded values: declared order is kept and no value is read twice. */
  lemma DataPosIncreasing(inputs: seq<Param>, k1: nat, k2: nat)
    requires k1 < k2 < |inputs| && !inputs[k1].indexed && !inputs[k2].indexed
    ensures DataPos(inputs, k1) < DataPos(inputs, k2)
  {
    CountsGrow(inputs, k1 + 1, k2);
    assert inputs[..k1 + 1][..k1] == inputs[..k1];
  }

  /** Later indexed inputs read later topics: declared order is kept and no topic is read twice. */
  lemma TopicPosIncreasing(inputs: seq<Param>, k1: nat, k2: nat)
    requires k1 < k2 < |inputs| && inputs[k1].indexed && inputs[k2].indexed
    ensures TopicPos(inputs, k1) < TopicPos(inputs, k2)
  {
    CountsGrow(inputs, k1 + 1, k2);
    assert inputs[..k1 + 1][..k1] == inputs[..k1];
  }

  /** Every decoded value is read by some non-indexed input. */
  lemma {:induction false} DataPosOnto(inputs: seq<Param>, n: nat)
    requires n < |NonIndexedTypes(inputs)|
    ensures exists k :: 0 <= k < |inputs| && !inputs[k].indexed && DataPos(inputs, k) == n
    decreases |inputs|
  {
    var init := inputs[..|inputs| - 1];
    var last := |inputs| - 1;
    if n < |NonIndexedTypes(init)| {
      DataPosOnto(init, n);
      var k :| 0 <= k < |init| && !init[k].indexed && DataPos(init, k) == n;
      assert inputs[..k] == init[..k];
    } else {
      assert inputs[..last] == init;
    }
  }

  /** Every topic after the selector, up to the number of indexed inputs, is read by some indexed input. */
  lemma {:induction false} TopicPosOnto(inputs: seq<Param>, t: nat)
    requires 1 <= t <= CountIndexed(inputs)
    ensures exists k :: 0 <= k < |inputs| && inputs[k].indexed && TopicPos(inputs, k) == t
    decreases |inputs|
  {
    var init := inputs[..|inputs| - 1];
    var last := |inputs| - 1;
    if t <= CountIndexed(init) {
      TopicPosOnto(init, t);
      var k :| 0 <= k < |init| && init[k].indexed && TopicPos(init, k) == t;
      assert inputs[..k] == init[..k];
    } else {
      assert inputs[..last] == init;
    }
  }

  /** `topics[i]`, which is `undefined` past the end. */
  function TopicAt(topics: seq<string>, i: nat): (r: Value)
    ensures r.Missing? <==> i >= |topics|
    ensures i < |topics| ==> r == Text(topics[i])
  {
    if i < |topics| then Text(topics[i]) else Missing
  }

  /** The integer types whose values a log turns into base-10 text: this exact list. */
  predicate IsLogIntegerType(abiType: string) {
    abiType == "uint256" || abiType == "uint8" || abiType == "int"
  }

  /**
   * The canonical form of one log value. An "address" goes through
   * `handleZeros`, which throws on `undefined` (a topic read past the end)
   * and on a boolean; the codec never gives an array for "address".
   */
  function LogValue(abiType: string, v: Value, toDecimal: Value -> string): (r: Result<Value, Error>)
    ensures abiType == "address" ==> (r.Success? <==> v.Text?) && (r.Failure? ==> r.error == TypeError)
    ensures abiType == "address" && v.Text? ==> r == Success(Text(NormalizeAddress(v.s)))
    ensures IsLogIntegerType(abiType) ==> r == Success(Text(toDecimal(v)))
    ensures abiType != "address" && !IsLogIntegerType(abiType) ==> r == Success(v)
  {
    if abiType == "address" then
      if v.Text? then Success(Text(NormalizeAddress(v.s))) else Failure(TypeError)
    else if IsLogIntegerType(abiType) then Success(Text(toDecimal(v)))
    else Success(v)
  }

  /**
   * The value input `k` reads, off the closed-form cursor positions: an
   * indexed input takes the topic at `TopicPos`, a non-indexed one the
   * decoded value at `DataPos`.
   */
  function RawValue(inputs: seq<Param>, k: nat, topics: seq<string>, decoded: seq<Value>): (r: Value)
    requires k < |inputs| && |decoded| == |NonIndexedTypes(inputs)|
    ensures inputs[k].indexed ==> (r.Missing? <==> TopicPos(inputs, k) >= |topics|)
    ensures inputs[k].indexed && TopicPos(inputs, k) < |topics| ==> r == Text(topics[TopicPos(inputs, k)])
    ensures !inputs[k].indexed ==> r == decoded[DataPos(inputs, k)]
  {
    if inputs[k].indexed then TopicAt(topics, TopicPos(inputs, k)) else decoded[DataPos(inputs, k)]
  }

  /** The decoded parameter for input `k`: its raw value, canonicalized by its declared type. */
  function LogParam(inputs: seq<Param>, k: nat, topics: seq<string>, decoded: seq<Value>, toDecimal: Value -> string)
    : (r: Result<DecodedParam, Error>)
    requires k < |inputs| && |decoded| == |NonIndexedTypes(inputs)|
    ensures r.Success? ==> r.value.name == inputs[k].name && r.value.abiType == inputs[k].abiType
    ensures r.Failure? ==> r.error == TypeError
  {
    var p := inputs[k];
    match LogValue(p.abiType, RawValue(inputs, k, topics, decoded), toDecimal)
    case Success(v) => Success(DecodedParam(p.name, v, p.abiType))
    case Failure(e) => Failure(e)
  }

  /** The outcome of every input of a log, in declared order. */
  function ParamResults(inputs: seq<Param>, topics: seq<string>, decoded: seq<Value>, toDecimal: Value -> string)
    : (rs: seq<Result<DecodedParam, Error>>)
    requires |decoded| == |NonIndexedTypes(inputs)|
    ensures |rs| == |inputs| && forall k :: 0 <= k < |inputs| ==> rs[k] == LogParam(inputs, k, topics, decoded, toDecimal)
  {
    seq(|inputs|, k requires 0 <= k < |inputs| => LogParam(inputs, k, topics, decoded, toDecimal))
  }

  /** Run the per-input outcomes in order: all the values, or the error of the first that throws. */
  function Collect(results: seq<Result<DecodedParam, Error>>): (r: Result<seq<DecodedParam>, Error>)
    ensures r.Success? ==> |r.value| == |results|
    decreases |results|
  {
    if results == [] then Success([])
    else
      match Collect(results[..|results| - 1])
      case Failure(e) => Failure(e)
      case Success(params) =>
        match results[|results| - 1]
        case Failure(e) => Failure(e)
        case Success(p) => Success(params + [p])
  }

  /**
   * `Collect` succeeds exactly when every outcome does, and then returns
   * their values in order; otherwise it returns the error of the first
   * outcome that failed.
   */
  lemma {:induction false} CollectMeaning(results: seq<Result<DecodedParam, Error>>)
    ensures var r := Collect(results);
      && (r.Success? <==> forall k :: 0 <= k < |results| ==> results[k].Success?)
      && (r.Success? ==> |r.value| == |results| && forall k :: 0 <= k < |results| ==> results[k] == Success(r.value[k]))
      && (r.Failure? ==> exists k :: (&& 0 <= k < |results| && results[k] == Failure(r.error)
                                      && forall i :: 0 <= i < k ==> results[i].Success?))
    decreases |results|
  {
    if results != [] {
      var init, n := results[..|results| - 1], |results| - 1;
      CollectMeaning(init);
      assert forall k :: 0 <= k < n ==> results[k] == init[k];
      var r := Collect(results);
      if Collect(init).Failure? {
        var k :| 0 <= k < n && init[k] == Failure(Collect(init).error) && forall i :: 0 <= i < k ==> init[i].Success?;
        assert results[k] == Failure(r.error);
      } else if results[n].Failure? {
        assert results[n] == Failure(r.error);
      } else {
        assert r.value == Collect(init).value + [results[n].value];
      }
    }
  }

  /** Once every earlier outcome succeeded, one more success appends its value. */
  lemma CollectStep(results: seq<Result<DecodedParam, Error>>, j: nat, params: seq<DecodedParam>)
    requires j < |results| && Collect(results[..j]) == Success(params) && results[j].Success?
    ensures Collect(results[..j + 1]) == Success(params + [results[j].value])
  {
    assert results[..j + 1][..j] == results[..j];
  }

  /** Once every earlier outcome succeeded, a failing outcome is the error of the whole run. */
  lemma CollectFailAt(results: seq<Result<DecodedParam, Error>>, j: nat)
    requires j < |results| && Collect(results[..j]).Success? && results[j].Failure?
    ensures Collect(results) == Failure(results[j].error)
  {
    CollectMeaning(results[..j]);
    CollectMeaning(results);
    assert forall i :: 0 <= i < j ==> results[i] == results[..j][i];
  }

  /** All decoded parameters of a log, or the error of the first that throws. */
  function DecodeEvents(inputs: seq<Param>, topics: seq<string>, decoded: seq<Value>, toDecimal: Value -> string)
    : (r: Result<seq<DecodedParam>, Error>)
    requires |decoded| == |NonIndexedTypes(inputs)|
    ensures r.Success? <==> forall k :: 0 <= k < |inputs| ==> LogParam(inputs, k, topics, decoded, toDecimal).Success?
    ensures r.Failure? ==> r.error == TypeError
    ensures r.Success? ==> |r.value| == |inputs| && forall k :: 0 <= k < |inputs| ==>
      LogParam(inputs, k, topics, decoded, toDecimal) == Success(r.value[k])
  {
    var results := ParamResults(inputs, topics, decoded, toDecimal);
    CollectMeaning(results);
    Collect(results)
  }

  /** The event selector of a log: `topics[0].slice(2)`. */
  function EventSelector(log: Log): (r: string)
    requires |log.topics| > 0
    ensures |log.topics[0]| >= 2 ==> log.topics[0] == log.topics[0][..2] + r
    ensures |log.topics[0]| < 2 ==> r == ""
  {
    SliceFrom(log.topics[0], 2)
  }

  /**
   * What decoding one log yields. `Success(None)` is `undefined` (selector
   * not registered); `Failure(TypeError)` is reading `topics[0]` of an
   * empty topic list or normalizing a missing address; `Failure(DecodeFailed)`
   * is the codec throwing.
   */
  function DecodeLogSpec(methodIDs: map<string, AbiEntry>, log: Log, codec: Codec, toDecimal: Value -> string)
    : (r: Result<Option<DecodedLog>, Error>)
    ensures |log.topics| == 0 ==> r == Failure(TypeError)
    ensures |log.topics| > 0 ==> (r == Success(None) <==> EventSelector(log) !in methodIDs)
    ensures |log.topics| > 0 && EventSelector(log) in methodIDs ==>
      var e := methodIDs[EventSelector(log)];
      var decoded := codec(NonIndexedTypes(e.inputs), SliceFrom(log.data, 2));
      && (decoded.None? <==> r == Failure(DecodeFailed))
      && (decoded.Some? ==>
            (&& (r.Success? <==> forall k :: 0 <= k < |e.inputs| ==> LogParam(e.inputs, k, log.topics, decoded.value, toDecimal).Success?)
             && (r.Failure? ==> r.error == TypeError)
             && (r.Success? ==>
                   && r.value.Some? && r.value.value.name == e.name && r.value.value.address == log.address
                   && |r.value.value.events| == |e.inputs|
                   && forall k :: 0 <= k < |e.inputs| ==>
                        LogParam(e.inputs, k, log.topics, decoded.value, toDecimal) == Success(r.value.value.events[k]))))
  {
    if |log.topics| == 0 then Failure(TypeError)
    else if EventSelector(log) !in methodIDs then Success(None)
    else
      var e := methodIDs[EventSelector(log)];
      match codec(NonIndexedTypes(e.inputs), SliceFrom(log.data, 2))
      case None => Failure(DecodeFailed)
      case Some(decoded) =>
        match DecodeEvents(e.inputs, log.topics, decoded, toDecimal)
        case Failure(err) => Failure(err)
        case Success(events) => Success(Some(DecodedLog(e.name, events, log.address)))
  }

  /**
   * Only a missing address throws: with a conforming decoding, parameter
   * `k` fails exactly when it is an indexed "address" whose topic lies past
   * the end of the topic list.
   */
  lemma LogParamFails(inputs: seq<Param>, k: nat, topics: seq<string>, decoded: seq<Value>, toDecimal: Value -> string)
    requires k < |inputs| && Conforms(NonIndexedTypes(inputs), decoded)
    ensures LogParam(inputs, k, topics, decoded, toDecimal).Failure?
      <==> inputs[k].indexed && inputs[k].abiType == "address" && TopicPos(inputs, k) >= |topics|
  {
    if !inputs[k].indexed && inputs[k].abiType == "address" {
      assert decoded[DataPos(inputs, k)].Text?;
    }
  }

  /** An indexed "address" input whose topic holds a padded address yields that address. */
  lemma TopicAddressParam(inputs: seq<Param>, k: nat, topics: seq<string>, decoded: seq<Value>,
                          toDecimal: Value -> string, a: string)
    requires k < |inputs| && |decoded| == |NonIndexedTypes(inputs)|
    requires inputs[k].indexed && inputs[k].abiType == "address" && |a| == 40
    requires TopicPos(inputs, k) < |topics| && topics[TopicPos(inputs, k)] == "0x" + Zeros(24) + a
    ensures LogParam(inputs, k, topics, decoded, toDecimal) == Success(DecodedParam(inputs[k].name, Text("0x" + a), "address"))
  {
    TopicYieldsAddress(a);
  }

  /** A non-indexed input of an allow-listed integer type yields the decimal text of its decoded value. */
  lemma DataIntegerParam(inputs: seq<Param>, k: nat, topics: seq<string>, decoded: seq<Value>, toDecimal: Value -> string)
    requires k < |inputs| && |decoded| == |NonIndexedTypes(inputs)|
    requires !inputs[k].indexed && IsLogIntegerType(inputs[k].abiType)
    ensures LogParam(inputs, k, topics, decoded, toDecimal)
      == Success(DecodedParam(inputs[k].name, Text(toDecimal(decoded[DataPos(inputs, k)])), inputs[k].abiType))
  {
  }

  /** The first callback over the inputs: push the type of every non-indexed input. */
  method CollectDataTypes(inputs: seq<Param>) returns (dataTypes: seq<string>)
    ensures dataTypes == NonIndexedTypes(inputs)
  {
    dataTypes := [];
    var j := 0;
    while j < |inputs|
      invariant 0 <= j <= |inputs|
      invariant dataTypes == NonIndexedTypes(inputs[..j])
    {
      assert inputs[..j + 1][..j] == inputs[..j];
      if !inputs[j].indexed {
        dataTypes := dataTypes + [inputs[j].abiType];
      }
      j := j + 1;
    }
    assert inputs[..j] == inputs;
  }

  /** The type-driven step of the second callback: `handleZeros` for "address", `BN` text for the allow-list. */
  method CanonicalizeLogValue(abiType: string, value: Value, toDecimal: Value -> string) returns (r: Result<Value, Error>)
    ensures r == LogValue(abiType, value, toDecimal)
  {
    if abiType == "address" {
      if !value.Text? {
        return Failure(TypeError);
      }
      var normalized := HandleZeros(value.s);
      return Success(Text(normalized));
    } else if abiType == "uint256" || abiType == "uint8" || abiType == "int" {
      return Success(Text(toDecimal(value)));
    }
    return Success(value);
  }

  /**
   * The second callback over the inputs: a topic cursor from 1 and a data
   * cursor from 0, each advanced by the inputs that read it.
   */
  method MergeParams(inputs: seq<Param>, topics: seq<string>, decodedData: seq<Value>, toDecimal: Value -> string)
    returns (r: Result<seq<DecodedParam>, Error>)
    requires |decodedData| == |NonIndexedTypes(inputs)|
    ensures r == DecodeEvents(inputs, topics, decodedData, toDecimal)
  {
    ghost var results := ParamResults(inputs, topics, decodedData, toDecimal);
    var decodedParams: seq<DecodedParam> := [];
    var dataIndex, topicsIndex := 0, 1;
    var j := 0;
    while j < |inputs|
      invariant 0 <= j <= |inputs|
      invariant dataIndex == |NonIndexedTypes(inputs[..j])|
      invariant topicsIndex == TopicPos(inputs, j)
      invariant Collect(results[..j]) == Success(decodedParams)
    {
      var param;
      param, dataIndex, topicsIndex := DecodeParamAt(inputs, j, topics, decodedData, toDecimal, dataIndex, topicsIndex);
      if param.Failure? {
        CollectFailAt(results, j);
        return Failure(param.error);
      }
      CollectStep(results, j, decodedParams);
      decodedParams := decodedParams + [param.value];
      j := j + 1;
    }
    assert results[..j] == results;
    r := Success(decodedParams);
  }

  /**
   * The body of the second callback for input `j`: read the value at the
   * cursor its kind selects, advance that cursor, and canonicalize the value.
   */
  method DecodeParamAt(inputs: seq<Param>, j: nat, topics: seq<string>, decodedData: seq<Value>, toDecimal: Value -> string,
                       dataIndex: nat, topicsIndex: nat)
    returns (r: Result<DecodedParam, Error>, nextData: nat, nextTopic: nat)
    requires j < |inputs| && |decodedData| == |NonIndexedTypes(inputs)|
    requires dataIndex == |NonIndexedTypes(inputs[..j])| && topicsIndex == TopicPos(inputs, j)
    ensures r == LogParam(inputs, j, topics, decodedData, toDecimal)
    ensures nextData == |NonIndexedTypes(inputs[..j + 1])| && nextTopic == TopicPos(inputs, j + 1)
  {
    CursorStep(inputs, j);
    var param := inputs[j];
    var value: Value;
    nextData, nextTopic := dataIndex, topicsIndex;
    if param.indexed {
      value := if topicsIndex < |topics| then Text(topics[topicsIndex]) else Missing;
      nextTopic := topicsIndex + 1;
    } else {
      value := decodedData[dataIndex];
      nextData := dataIndex + 1;
    }
    var canonical := CanonicalizeLogValue(param.abiType, value, toDecimal);
    ParamAtCursor(inputs, j, topics, decodedData, toDecimal, value);
    if canonical.Failure? {
      return Failure(canonical.error), nextData, nextTopic;
    }
    r := Success(DecodedParam(param.name, canonical.value, param.abiType));
  }

  /**
   * One step of the cursor loop: input `j` reads the value at the current
   * cursor, and exactly the cursor it reads moves on by one.
   */
  lemma CursorStep(inputs: seq<Param>, j: nat)
    requires j < |inputs|
    ensures TopicPos(inputs, j + 1) == TopicPos(inputs, j) + if inputs[j].indexed then 1 else 0
    ensures |NonIndexedTypes(inputs[..j + 1])| == |NonIndexedTypes(inputs[..j])| + if inputs[j].indexed then 0 else 1
    ensures !inputs[j].indexed ==> DataPos(inputs, j) == |NonIndexedTypes(inputs[..j])|
  {
    assert inputs[..j + 1][..j] == inputs[..j];
  }

  /** The parameter at the cursor is the canonical form of the value the cursor reads. */
  lemma ParamAtCursor(inputs: seq<Param>, j: nat, topics: seq<string>, decoded: seq<Value>, toDecimal: Value -> string,
                      value: Value)
    requires j < |inputs| && |decoded| == |NonIndexedTypes(inputs)|
    requires inputs[j].indexed ==> value == TopicAt(topics, TopicPos(inputs, j))
    requires !inputs[j].indexed ==> value == decoded[DataPos(inputs, j)]
    ensures var v := LogValue(inputs[j].abiType, value, toDecimal);
      && (v.Failure? ==> LogParam(inputs, j, topics, decoded, toDecimal).Failure?)
      && (v.Success? ==> LogParam(inputs, j, topics, decoded, toDecimal) == Success(DecodedParam(inputs[j].name, v.value, inputs[j].abiType)))
  {
  }

  /** `decodeLogs` on one log: the callback `index.js` maps over the logs. */
  method DecodeLog(methodIDs: map<string, AbiEntry>, log: Log, codec: Codec, toDecimal: Value -> string)
    returns (r: Result<Option<DecodedLog>, Error>)
    ensures r == DecodeLogSpec(methodIDs, log, codec, toDecimal)
  {
    if |log.topics| == 0 {
      return Failure(TypeError);
    }
    var methodID := SliceFrom(log.topics[0], 2);
    if methodID !in methodIDs {
      return Success(None);
    }
    var event := methodIDs[methodID];
    var dataTypes := CollectDataTypes(event.inputs);
    var decoded := codec(dataTypes, SliceFrom(log.data, 2));
    if decoded.None? {
      return Failure(DecodeFailed);
    }
    var decodedParams := MergeParams(event.inputs, log.topics, decoded.value, toDecimal);
    if decodedParams.Failure? {
      return Failure(decodedParams.error);
    }
    return Success(Some(DecodedLog(event.name, decodedParams.value, log.address)));
  }

  /**
   * `decodeLogs(logs)`: one result per log, each decoded on its own; an
   * unmatched log gives `undefined` and does not stop the others. A throw
   * while decoding any log ends the whole call with that error.
   */
  method DecodeLogs(methodIDs: map<string, AbiEntry>, logs: seq<Log>, codec: Codec, toDecimal: Value -> string)
    returns (r: Result<seq<Option<DecodedLog>>, Error>)
    ensures r.Success? <==> forall i :: 0 <= i < |logs| ==> DecodeLogSpec(methodIDs, logs[i], codec, toDecimal).Success?
    ensures r.Success? ==> |r.value| == |logs| && forall i :: 0 <= i < |logs| ==>
      DecodeLogSpec(methodIDs, logs[i], codec, toDecimal) == Success(r.value[i])
    ensures r.Failure? ==>
      exists i :: (&& 0 <= i < |logs|
                   && DecodeLogSpec(methodIDs, logs[i], codec, toDecimal) == Failure(r.error)
                   && forall i' :: 0 <= i' < i ==> DecodeLogSpec(methodIDs, logs[i'], codec, toDecimal).Success?)
  {
    var results: seq<Option<DecodedLog>> := [];
    var i := 0;
    while i < |logs|
      invariant 0 <= i <= |logs|
      invariant |results| == i
      invariant forall k :: 0 <= k < i ==> DecodeLogSpec(methodIDs, logs[k], codec, toDecimal) == Success(results[k])
    {
      var d := DecodeLog(methodIDs, logs[i], codec, toDecimal);
      if d.Failure? {
        return Failure(d.error);
      }
      results := results + [d.value];
      i := i + 1;
    }
    return Success(results);
  }
}
