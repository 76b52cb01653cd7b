# Ethereum ABI decoder — Dafny model

This project models `abi-decoder`, a small registry and decoder for Ethereum
contract ABI data (selectors as in the "Function Selector" and "Events"
sections of the Solidity Contract ABI Specification). It has four parts:

- **Selector derivation** (`Abi`). The canonical signature is
  `name(type1,type2,...)`. A function's selector is the 8 hex characters after
  the `0x` of the signature's Keccak-256 digest. An event's selector is the whole
  digest without the `0x`.
- **The registry** (`Registry`). A `Registry` class holds the module's two
  pieces of state: `savedABIs` is the append-only list of every entry added, and
  `methodIDs` maps each selector to its entry. `AddABI` and `RemoveABI` change
  them in place. Each is proved equal to a fold over the argument (`IndexAll`,
  `RemoveAll`). The lemmas about those folds give last-write-wins, "unnamed
  entries add no key", "other keys are untouched" and the add-then-remove law.
  The invariant `Valid()` holds at all times: every key is the selector of the
  named, previously added entry stored under it.
- **Call decoding** (`MethodDecoder`). `DecodeMethod` looks up `data.slice(2, 10)`.
  It stringifies every value whose type starts with `uint` or `int`, element by
  element for arrays.
- **Log decoding** (`LogDecoder`, `Address`). `DecodeLogs` and its per-log
  callback `DecodeLog` walk the declared inputs. A topic cursor starts at 1 and a
  data cursor starts at 0. They are proved against a closed-form reference
  (`TopicPos`, `DataPos`, `LogParam`), in which input `k` reads the topic after
  the indexed inputs before it, or the decoded value after the non-indexed
  inputs before it. `HandleZeros` is the padding loop of `handleZeros`, proved
  against `NormalizeAddress`.

JavaScript string behaviour is written out in `JsStrings`. `Slice` clamps like
`slice`, `IndexOf` returns -1 or the first match like `indexOf`, and `Join`
behaves like `join`.

The three foreign pieces are parameters:

- The Keccak-256 hash is the `sha3` constant of a `Registry`.
- `web3.eth.abi.decodeParameters` is a `Codec`. It returns `None` when it throws.
  Otherwise it returns one value per type, and a string for every `"address"`.
- `BN(...).toString()` is a `toDecimal: Value -> string` function.

The decoders take the index `methodIDs` (what `getMethodIDs()` returns) as an
argument instead of reading a module global.

JavaScript `undefined` results and thrown errors are made explicit:

- `Success(None)` is the `undefined` that a failed lookup returns.
- `Failure(InvalidInput(...))` is the `Error` thrown for a non-array argument.
- `Failure(TypeError)` is a property read on `undefined`: `topics[0]` of a log
  with no topics, or `handleZeros` given a missing topic.
- `Failure(DecodeFailed)` is the codec throwing.

In three places the code behaves in a way a reader might not expect:

- Adding then removing the same entries restores the index only when none of
  their selectors was already present. Removing works by selector, so it also
  deletes a colliding entry registered earlier. `AddThenRemove` states the exact
  law, and `AddThenRemoveRestores` states exactly when the index comes back unchanged.
- `handleZeros` drops the first two characters whenever `"0x"` occurs anywhere
  in its input, not only when it is a prefix (`InnerMarkerStripsFirstTwo`).
- An indexed `"address"` input whose topic lies past the end of the topic list
  makes the whole `decodeLogs` call throw: `handleZeros(undefined)` raises a
  TypeError. Other inputs read `undefined` and carry on (`LogParamFails`).

## Model

| member | source | states |
|---|---|---|
| `JsStrings.IndexOf` | index.js:104 | `indexOf` returns -1 exactly when the pattern occurs nowhere; otherwise it returns an index where it occurs, with no occurrence before it |
| `JsStrings.IndexOfZeroIsPrefix` | index.js:80-81 | `type.indexOf(p) == 0` holds exactly when `type` starts with `p` |
| `JsStrings.Slice` | index.js:69 | `slice(b, e)` clamps both bounds to the length: it is `s[b..e]` when both bounds are in range, `s[b..]` when only `e` is past the end, empty when `b` is past the end or `e <= b`, and each character is `s[b + i]` |
| `JsStrings.SliceFrom` | index.js:119 | `slice(b)` is `s[b..]` when `b` is in range and empty past the end |
| `JsStrings.Zeros` | index.js:109 | a run of exactly `n` `'0'` characters |
| `JsStrings.Join` | index.js:22 | `join(sep)` starts with the first part; `JoinShape` places the first separator and `JoinInjective` shows the parts can be read back |
| `JsStrings.JoinInjective` | index.js:22 | joining non-empty parts that contain no separator is injective: equal joins mean equal parts |
| `JsStrings.JoinShape` | index.js:22 | a join of such parts is empty only for no parts; for two or more parts, the first separator sits right after the first part and the rest is the join of the remaining parts |
| `Abi.TypesOf` | index.js:72 | one type per input, the i-th being the i-th input's `type` |
| `Abi.Signature` | index.js:22 | the canonical signature starts with the entry's name, then `(`, and ends with `)`; `NameEndsAtParen` and `SignatureInjective` state the rest |
| `Abi.Selector` | index.js:22-28 | given a digest of `0x` plus 64 characters: an event's selector is the 64 characters after `0x`, and any other entry's selector is the 8 characters after `0x` |
| `Abi.NameEndsAtParen` | index.js:22 | in a signature, the first `(` comes right after the name, and the text between it and the final `)` is the joined input types |
| `Abi.SignatureInjective` | index.js:22 | two entries share a signature only if they have the same name and the same input types (for names without `(` and non-empty types without `,`) |
| `Registry.IndexAllKeys` | index.js:20-30 | after an add, a key is present exactly when it was present before or it is the selector of a named entry of the argument; unnamed entries add no key |
| `Registry.IndexAllLastWins` | index.js:20-30 | the entry stored under a selector is the last named entry of the argument with that selector |
| `Registry.IndexAllUntouched` | index.js:20-30 | a key that no named entry of the argument selects keeps its presence and its value |
| `Registry.LastWriter` | index.js:20-30 | a selector registered by the argument has a last named entry writing it, and no later named entry writes it |
| `Registry.RemoveAllKeys` | index.js:43-57 | after a remove, a key is present exactly when it was present before and no named entry of the argument selects it; surviving keys keep their values |
| `Registry.AddThenRemove` | index.js:16-62 | adding and then removing the same entries leaves the old index minus every key they select, with the other values unchanged |
| `Registry.AddThenRemoveRestores` | index.js:16-62 | add then remove restores the index exactly when none of the entries' selectors was registered before |
| `Registry.IndexAllWellKeyed` | index.js:20-32 | adding preserves the invariant: every key maps to a named, previously added entry whose own selector is that key |
| `Registry.RemoveAllWellKeyed` | index.js:43-57 | removing preserves the same invariant against the unchanged `savedABIs` |
| `Registry.WellKeyedBound` | index.js:20-32 | under the invariant, the keys are selectors of added named entries, so there are no more keys than distinct such selectors |
| `Registry.IndexAll` | index.js:20-30 | the `addABI` loop over the argument never removes a key; `IndexAllKeys`, `IndexAllLastWins` and `IndexAllUntouched` state which keys it adds and what they hold |
| `Registry.RemoveAll` | index.js:43-57 | the `removeABI` loop over the argument only deletes keys and leaves every surviving value unchanged; `RemoveAllKeys` states which keys go |
| `Registry.Registry.constructor` | index.js:7-10 | the state starts with no saved entries and an empty index |
| `Registry.Registry.GetABIs` | index.js:12-14 | `getABIs()` returns `savedABIs` |
| `Registry.Registry.GetMethodIDs` | index.js:64-66 | `getMethodIDs()` returns an index in which every key is the selector of a named entry found in `getABIs()` |
| `Registry.Registry.AddABI` | index.js:16-37 | a non-array throws "Expected ABI array, got " + typeof and changes nothing; otherwise the index becomes `IndexAll` of the old index, `savedABIs` becomes the old list plus the whole argument, and the invariant is kept |
| `Registry.Registry.RemoveABI` | index.js:39-62 | a non-array throws and changes nothing; otherwise the index becomes `RemoveAll` of the old index; `savedABIs` never changes |
| `Address.StripPrefix` | index.js:103-106 | the first two characters are dropped exactly when `"0x"` occurs anywhere in the input |
| `Address.Fit` | index.js:108-112 | the stripped input is brought to exactly 40 characters; `NormalizeAddressShape` states that it is left-padded with `'0'` or cut to its rightmost 40 |
| `Address.NormalizeAddress` | index.js:102-115 | the value `handleZeros` returns has exactly 42 characters; `NormalizeAddressShape` states what they are |
| `Address.NormalizeAddressShape` | index.js:102-115 | the result is `0x` plus 40 characters: the stripped input left-padded with `'0'` when it is shorter, or its rightmost 40 characters when it is longer |
| `Address.HandleZeros` | index.js:102-115 | the padding loop returns exactly `NormalizeAddress` of its input |
| `Address.NormalizeIdempotent` | index.js:102-115 | normalizing a normalized address changes nothing |
| `Address.CanonicalIsFixed` | index.js:102-115 | `0x` plus exactly 40 characters is returned unchanged |
| `Address.TopicYieldsAddress` | index.js:102-115 | a 32-byte topic holding an address (`0x`, 24 zeros, 40 characters) yields `0x` plus those 40 characters |
| `Address.ShortInputIsPadded` | index.js:108-109 | `"0x1"` becomes `0x`, 39 zeros and `1` |
| `Address.InnerMarkerStripsFirstTwo` | index.js:104-105 | `"ab0xcd"` loses `ab` although `0x` is not its prefix |
| `Address.UnprefixedIsKept` | index.js:104 | 40 characters without an `x` come back unchanged behind `0x` |
| `MethodDecoder.CallValue` | index.js:79-91 | values of types starting with `uint` or `int` become `toDecimal` text, element by element for arrays with the same length; other values pass through |
| `MethodDecoder.CallSelector` | index.js:69 | the call selector has at most 8 characters: exactly the 8 after `0x` when the call data has at least 10, everything after the first two characters when it has 2 to 9, and empty when it has fewer than 2 |
| `MethodDecoder.DecodeMethod` | index.js:68-100 | `undefined` exactly when `data.slice(2, 10)` is not a key; a codec throw otherwise propagates; on success the result has the entry's name and one parameter per input, with the input's name and type and the canonical value of the decoded value at that position |
| `MethodDecoder.CallDataFindsEntry` | index.js:68-100 | call data `0x` + selector + payload for a registered function always reaches that entry: its name and parameter count come back, or the codec's failure on the payload |
| `MethodDecoder.MatchIsRegisteredEntry` | index.js:69-77 | against a well-keyed index, a match names a named entry whose own selector equals the data's selector |
| `LogDecoder.CountsAddUp` | index.js:127-134 | the indexed count plus the number of non-indexed types is the number of inputs |
| `LogDecoder.CountIndexed` | index.js:145-148 | the number of indexed inputs, which `topicsIndex++` counts, is at most the number of inputs; `CountsAddUp` and `TopicPos` build on it |
| `LogDecoder.NonIndexedPrefix` | index.js:127-134 | the non-indexed types of a prefix of the inputs are a prefix of all non-indexed types |
| `LogDecoder.NonIndexedTypes` | index.js:127-134 | the data types are at most as many as the inputs; `CountsAddUp` and `NonIndexedPrefix` state how they relate to the inputs |
| `LogDecoder.CountsGrow` | index.js:145-152 | both cursor counts are monotone along the inputs |
| `LogDecoder.DataPos` | index.js:149-152 | the data cursor at a non-indexed input is in range, and the value there was decoded with that input's own type |
| `LogDecoder.TopicPos` | index.js:145-148 | the topic cursor at input `k` lies between 1 and `k + 1`: it starts after the selector topic and moves at most once per input |
| `LogDecoder.DataPosIncreasing` | index.js:149-152 | later non-indexed inputs read strictly later decoded values |
| `LogDecoder.TopicPosIncreasing` | index.js:145-148 | later indexed inputs read strictly later topics |
| `LogDecoder.DataPosOnto` | index.js:135-152 | every decoded value is read by some non-indexed input |
| `LogDecoder.TopicPosOnto` | index.js:145-148 | topics 1 to the number of indexed inputs are each read by some indexed input |
| `LogDecoder.TopicAt` | index.js:146 | `topics[i]` is `undefined` exactly when `i` is past the end, and otherwise exactly the text `topics[i]`; `LogParamFails` and `TopicAddressParam` state what becomes of it |
| `LogDecoder.RawValue` | index.js:145-152 | an indexed input reads `undefined` exactly when its topic cursor is past the end, and otherwise the text of the topic at that cursor; a non-indexed input reads the decoded value at its data cursor |
| `LogDecoder.LogValue` | index.js:154-159 | `"address"` goes through `NormalizeAddress` and throws when the value is not a string; exactly `uint256`, `uint8` and `int` become `toDecimal` text; anything else passes through |
| `LogDecoder.LogParam` | index.js:140-159 | a decoded parameter keeps its input's name and type, and the only error is a `TypeError` |
| `LogDecoder.LogParamFails` | index.js:145-159 | with a conforming decoding, a parameter throws exactly when it is an indexed `"address"` whose topic index is past the end of the topics |
| `LogDecoder.DecodeEvents` | index.js:139-162 | success exactly when every parameter decodes; the result is then one parameter per input, each equal to its closed-form `LogParam` |
| `LogDecoder.EventSelector` | index.js:119 | a log's selector is its first topic after the leading two characters, or empty for a topic shorter than two |
| `LogDecoder.DecodeLogSpec` | index.js:118-170 | no topics throws; `undefined` exactly when `topics[0].slice(2)` is not a key; a codec throw propagates; a parameter that throws gives a `TypeError`; a match carries the entry's name, the log's address and one closed-form event per input |
| `LogDecoder.Collect` | index.js:139-162 | a successful run pushes one parameter per input; `CollectMeaning` states that it stops at the first throw with that error |
| `LogDecoder.CollectMeaning` | index.js:139-162 | running the per-input outcomes in order succeeds exactly when each succeeds, then gives their values in order; otherwise it gives the error of the first outcome that fails, all earlier ones having succeeded |
| `LogDecoder.CollectStep` | index.js:161 | after successful inputs, one more success pushes its parameter at the end |
| `LogDecoder.CollectFailAt` | index.js:154-156 | after successful inputs, a throwing input ends the whole run with its error |
| `LogDecoder.CursorStep` | index.js:145-152 | each input advances exactly the cursor it reads, by one, and a non-indexed input reads at the data cursor |
| `LogDecoder.TopicAddressParam` | index.js:145-156 | an indexed `"address"` input whose topic is `0x`, 24 zeros and 40 characters yields `0x` and those 40 characters |
| `LogDecoder.DataIntegerParam` | index.js:149-158 | a non-indexed `uint256`, `uint8` or `int` input yields the `toDecimal` text of the decoded value at its data position |
| `LogDecoder.DecodeParamAt` | index.js:140-159 | one pass of the second callback yields exactly the closed-form `LogParam` of that input and moves the cursors to their closed-form positions for the next input |
| `LogDecoder.CollectDataTypes` | index.js:127-134 | the push loop yields the non-indexed types in declared order |
| `LogDecoder.CanonicalizeLogValue` | index.js:154-159 | the type-driven step equals `LogValue` |
| `LogDecoder.MergeParams` | index.js:139-162 | the two-cursor loop yields exactly `DecodeEvents` of the closed-form positions |
| `LogDecoder.DecodeLog` | index.js:118-170 | the per-log callback yields exactly `DecodeLogSpec` |
| `LogDecoder.DecodeLogs` | index.js:117-172 | one result per log, each equal to that log's `DecodeLogSpec`, when no log throws; otherwise the error of the first log that throws |

## Left out

- Keccak-256 (`web3.utils.sha3`) is an arbitrary function given to the registry. Only `Selector` and `CallDataFindsEntry` assume its output has the shape `0x` plus 64 characters.
- `web3.eth.abi.decodeParameters`, with its `__length__`/`Object.values` massaging, is an arbitrary `Codec`. Its only promise is one value per type and a string for `"address"`. Payload validation is not modelled.
- `BN` arbitrary-precision conversion is an arbitrary, total `toDecimal`. Base-10 rendering is not modelled, and neither are failures of `BN` itself: the model never makes it throw.
- An indexed `uint256`, `uint8` or `int` log input hands its raw topic text (`"0x…"`, index.js:146) to `new BN(value).toString(10)` (index.js:158), which reads that text as a base-10 number. The model passes the `Text` value to `toDecimal` and promises nothing about the result; this is why `DataIntegerParam` has no indexed counterpart.
- Construction of the `Web3` instance and the export wiring are plumbing and are not modelled.
- Dynamic typing beyond `Array.isArray` is not modelled. An argument is either an array of well-formed entries or a non-array with its `typeof`. So entries missing `inputs`, which make `index.js` throw part-way through an add, are not modelled.
- Lengths and offsets are counted in Unicode characters, not in the UTF-16 code units JavaScript's `length`, `slice` and `indexOf` count. So `handleZeros`'s 40/42-character results and the offsets of `slice(2, 10)` and `slice(2)` are modelled exactly only for ASCII (hex) text; characters outside the Basic Multilingual Plane are not.
- Entry names are strings, and `""` stands for a missing name: both are falsy, so neither is indexed.
- Keys that name `Object.prototype` members (`toString`, `constructor`, `__proto__`) make a JavaScript object lookup succeed without a registered entry. The model's index is a plain map, so this is not modelled.
- `getABIs` and `getMethodIDs` return the live array and object, which a caller could mutate. The model returns values, so this aliasing is not modelled.
- `LogValue` treats a boolean or an array given to `handleZeros` as a throw. Booleans do throw. An array would not, but the codec never yields one for `"address"`.
- The decoders read a `methodIDs` map passed to them rather than the `Registry` object. The order of calls and mutations between decoders and the registry is the caller's.
