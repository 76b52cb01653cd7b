/**
 * The ABI entries the registry stores, the values the external codec
 * produces, and the derivation of a selector from an entry's canonical
 * signature (the "Function Selector" and "Events" sections of the Solidity
 * Contract ABI Specification).
 */
module Abi {
  import opened Wrappers
  import opened JsStrings

  /** One declared input: `{ name, type, indexed }`. `indexed` is false when absent. */
  datatype Param = Param(name: string, abiType: string, indexed: bool)

  /**
   * One interface entry: `{ name, type, inputs }`. `kind` is the entry's JSON
   * `type` field ("function", "event", "constructor", "fallback", or absent
   * as ""). A missing name is the empty string: both are falsy in JavaScript.
   */
  datatype AbiEntry = AbiEntry(name: string, kind: string, inputs: seq<Param>)

  /**
   * A value handed back by the external codec, or JavaScript `undefined`
   * (`Missing`) when a topic is read past the end of the topic list.
   */
  datatype Value = Missing | Bool(b: bool) | Text(s: string) | Items(items: seq<Value>)

  /** One decoded parameter: `{ name, value, type }`. */
  datatype DecodedParam = DecodedParam(name: string, value: Value, abiType: string)

  /** The errors the operations throw. */
  datatype Error =
    | InvalidInput(message: string)  // `new Error("Expected ABI array, got " + typeof x)`
    | TypeError                      // a property read on `undefined`
    | DecodeFailed                   // thrown by the external codec

  /** Only entries with a truthy name are indexed. */
  predicate Named(e: AbiEntry) {
    e.name != ""
  }

  predicate IsEvent(e: AbiEntry) {
    e.kind == "event"
  }

  /** `inputs.map(input => input.type)`. */
  function TypesOf(inputs: seq<Param>): (r: seq<string>)
    ensures |r| == |inputs|
    ensures forall i :: 0 <= i < |r| ==> r[i] == inputs[i].abiType
  {
    seq(|inputs|, i requires 0 <= i < |inputs| => inputs[i].abiType)
  }

  /** The canonical signature `name(type1,type2,...)`. */
  function Signature(e: AbiEntry): (r: string)
    ensures |r| >= |e.name| + 2 && r[..|e.name|] == e.name && r[|e.name|] == '(' && r[|r| - 1] == ')'
  {
    e.name + "(" + Join(TypesOf(e.inputs), ",") + ")"
  }

  /** What the hash capability promises at most: "0x" followed by 64 characters. */
  predicate IsDigest(h: string) {
    |h| == 66 && h[..2] == "0x"
  }

  /**
   * The registry key of an entry: the digest of its signature without the
   * "0x" prefix for an event, the 8 characters after the prefix otherwise.
   */
  function Selector(sha3: string -> string, e: AbiEntry): (r: string)
    ensures var h := sha3(Signature(e));
      IsDigest(h) ==> (IsEvent(e) ==> |r| == 64 && h == "0x" + r) && (!IsEvent(e) ==> |r| == 8 && StartsWith(h, "0x" + r))
  {
    var h := sha3(Signature(e));
    if IsEvent(e) then SliceFrom(h, 2) else Slice(h, 2, 10)
  }

  /**
   * Two named entries whose names hold no "(" and whose input types are
   * non-empty and hold no "," have the same signature only when they have
   * the same name and the same input types; so two such entries share a
   * selector only through the same kind of signature or a hash collision.
   */
  lemma SignatureInjective(a: AbiEntry, b: AbiEntry)
    requires Lacks(a.name, '(') && Lacks(b.name, '(')
    requires forall i :: 0 <= i < |a.inputs| ==> a.inputs[i].abiType != "" && Lacks(a.inputs[i].abiType, ',')
    requires forall i :: 0 <= i < |b.inputs| ==> b.inputs[i].abiType != "" && Lacks(b.inputs[i].abiType, ',')
    requires Signature(a) == Signature(b)
    ensures a.name == b.name && TypesOf(a.inputs) == TypesOf(b.inputs)
  {
    var s := Signature(a);
    var ta, tb := TypesOf(a.inputs), TypesOf(b.inputs);
    NameEndsAtParen(a);
    NameEndsAtParen(b);
    assert a.name == s[..|a.name|] == b.name;
    var n := |a.name| + 1;
    assert Join(ta, [',']) == s[n..|s| - 1] == Join(tb, [',']);
    JoinInjective(ta, tb, ',');
  }

  /** The first "(" of a signature ends the name. */
  lemma NameEndsAtParen(e: AbiEntry)
    requires Lacks(e.name, '(')
    ensures var s := Signature(e);
      IndexOf(s, "(") == |e.name| && s[..|e.name|] == e.name
      && s[|e.name| + 1..|s| - 1] == Join(TypesOf(e.inputs), ",")
  {
    var s := Signature(e);
    assert OccursAt(s, "(", |e.name|);
    forall k: nat | k < |e.name| ensures !OccursAt(s, "(", k) {
      assert s[k..k + 1] == [e.name[k]];
    }
  }

  /** `decodeParameters` gives one value per type, and a string for every "address". */
  ghost predicate Conforms(types: seq<string>, values: seq<Value>) {
    |values| == |types| && forall i :: 0 <= i < |values| && types[i] == "address" ==> values[i].Text?
  }

  /**
   * The external codec `web3.eth.abi.decodeParameters(types, hex)` after the
   * `__length__` key is dropped and `Object.values` is taken: `None` when it
   * throws on a malformed payload.
   */
  type Codec = f: (seq<string>, string) -> Option<seq<Value>>
    | forall types, hex :: f(types, hex).Some? ==> Conforms(types, f(types, hex).value)
    witness (types: seq<string>, hex: string) => None
}
