/**
 * `decodeMethod(data)`: looks up the 8 characters after the "0x" prefix of
 * call data in the index and decodes the rest of the data against the
 * entry's declared inputs.
 */
module MethodDecoder {
  import opened Wrappers
  import opened JsStrings
  import opened Abi

  /** The result of a matched call: `{ name, params }`. */
  datatype DecodedCall = DecodedCall(name: string, params: seq<DecodedParam>)

  /** The type names whose values are turned into base-10 strings: those starting with "uint" or "int". */
  predicate IsIntegerType(abiType: string) {
    StartsWith(abiType, "uint") || StartsWith(abiType, "int")
  }

  /**
   * The canonical form of one decoded value: base-10 text for an integer
   * type, element by element for an array value; anything else as decoded.
   */
  function CallValue(abiType: string, v: Value, toDecimal: Value -> string): (r: Value)
    ensures !IsIntegerType(abiType) ==> r == v
    ensures IsIntegerType(abiType) && !v.Items? ==> r == Text(toDecimal(v))
    ensures IsIntegerType(abiType) && v.Items? ==>
      r.Items? && |r.items| == |v.items| && forall i :: 0 <= i < |r.items| ==> r.items[i] == Text(toDecimal(v.items[i]))
  {
    var isUint := IndexOf(abiType, "uint") == 0;
    var isInt := IndexOf(abiType, "int") == 0;
    IndexOfZeroIsPrefix(abiType, "uint");
    IndexOfZeroIsPrefix(abiType, "int");
    if isUint || isInt then
      if v.Items? then Items(seq(|v.items|, i requires 0 <= i < |v.items| => Text(toDecimal(v.items[i]))))
      else Text(toDecimal(v))
    else v
  }

  /** The selector part of call data: `data.slice(2, 10)`. */
  function CallSelector(data: string): (r: string)
    ensures |r| <= 8
    ensures |data| >= 10 ==> r == data[2..10]
    ensures 2 <= |data| < 10 ==> r == data[2..]
    ensures |data| < 2 ==> r == ""
  {
    Slice(data, 2, 10)
  }

  /**
   * `decodeMethod(data)` against the index `methodIDs`. `Success(None)` is
   * JavaScript's `undefined` (no entry for the selector); `Failure` is the
   * codec throwing on the payload.
   */
  function DecodeMethod(methodIDs: map<string, AbiEntry>, data: string, codec: Codec, toDecimal: Value -> string)
    : (r: Result<Option<DecodedCall>, Error>)
    ensures r == Success(None) <==> CallSelector(data) !in methodIDs
    ensures CallSelector(data) in methodIDs ==>
      var e := methodIDs[CallSelector(data)];
      var decoded := codec(TypesOf(e.inputs), SliceFrom(data, 10));
      && (decoded.None? <==> r == Failure(DecodeFailed))
      && (decoded.Some? ==>
            (&& r.Success? && r.value.Some?
             && r.value.value.name == e.name
             && |r.value.value.params| == |e.inputs|
             && forall i :: 0 <= i < |e.inputs| ==>
                  && r.value.value.params[i].name == e.inputs[i].name
                  && r.value.value.params[i].abiType == e.inputs[i].abiType
                  && r.value.value.params[i].value == CallValue(e.inputs[i].abiType, decoded.value[i], toDecimal)))
  {
    var methodID := CallSelector(data);
    if methodID !in methodIDs then Success(None)
    else
      var abiItem := methodIDs[methodID];
      match codec(TypesOf(abiItem.inputs), SliceFrom(data, 10))
      case None => Failure(DecodeFailed)
      case Some(decoded) =>
        Success(Some(DecodedCall(abiItem.name, seq(|decoded|, i requires 0 <= i < |decoded| =>
          DecodedParam(abiItem.inputs[i].name,
                       CallValue(abiItem.inputs[i].abiType, decoded[i], toDecimal),
                       abiItem.inputs[i].abiType)))))
  }

  /**
   * Call data made of "0x", the 8-character selector of a registered entry
   * and a payload is routed to that entry: the result names it, or the
   * codec's failure is passed on.
   */
  lemma CallDataFindsEntry(methodIDs: map<string, AbiEntry>, sha3: string -> string, e: AbiEntry,
                           payload: string, codec: Codec, toDecimal: Value -> string)
    requires !IsEvent(e) && IsDigest(sha3(Signature(e)))
    requires Selector(sha3, e) in methodIDs && methodIDs[Selector(sha3, e)] == e
    ensures var r := DecodeMethod(methodIDs, "0x" + Selector(sha3, e) + payload, codec, toDecimal);
      r != Success(None)
      && (r.Success? ==> r.value.value.name == e.name && |r.value.value.params| == |e.inputs|)
      && (r.Failure? <==> codec(TypesOf(e.inputs), payload).None?)
  {
    var data := "0x" + Selector(sha3, e) + payload;
    assert CallSelector(data) == data[2..10] == Selector(sha3, e);
    assert SliceFrom(data, 10) == payload;
  }

  /**
   * Against an index in which every key is its entry's selector, a match
   * names a named entry whose own selector is the data's selector.
   */
  lemma MatchIsRegisteredEntry(methodIDs: map<string, AbiEntry>, sha3: string -> string, data: string,
                               codec: Codec, toDecimal: Value -> string)
    requires forall k :: k in methodIDs ==> Named(methodIDs[k]) && Selector(sha3, methodIDs[k]) == k
    requires DecodeMethod(methodIDs, data, codec, toDecimal).Success?
    requires DecodeMethod(methodIDs, data, codec, toDecimal).value.Some?
    ensures exists e :: (&& e in methodIDs.Values && Named(e) && Selector(sha3, e) == CallSelector(data)
                         && DecodeMethod(methodIDs, data, codec, toDecimal).value.value.name == e.name)
  {
    var e := methodIDs[CallSelector(data)];
    assert e in methodIDs.Values;
  }
}
