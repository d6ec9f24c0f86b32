# Contract ABI glue of the Qtum JavaScript client, in Dafny

This project models `src/abi.ts`, the layer of the client library that sits
between application code and the contract-ABI codec (`ethjs-abi`):

- `ensureHex0x` puts a `0x` prefix on a hex string that lacks one;
- `encodeInputs` encodes a method call and strips the leading `0x` from the
  codec's output;
- `decodeOutputs` decodes return data against the method's declared output
  types and copies the codec's array-like result into a plain list;
- `decodeLogs` prefixes every hex string of the raw logs, lets the codec's
  log decoder parse them, finds the first descriptor whose name equals each
  parsed event's name (failing the whole batch when there is none) and
  rebuilds each entry as a record of `type` plus one field per declared
  input.

The codec's three primitives are parameters of the model (total functions
returning `Ok` or `Err(CodecFailure)`), so the proofs hold for every codec;
their failures are passed through unchanged. JavaScript values are
`JsValue<V>`: `Undefined` (a missing property), `Text` (the decoder's
`_eventName` tag) or an opaque decoded value of type `V`. Objects are
`map<string, JsValue<V>>`, the codec's array-like results `map<nat, JsValue<V>>`.

Files: `wrappers.dfy` (Option and Result), `abi.dfy` (module `Abi`, the
whole of `src/abi.ts`). `decodeOutputs`, the property-assignment loop that
builds a decoded log and the batch loop of `decodeLogs` are methods with
loops, each proved equal to a pure specification (`At` on the codec's
result, `DecodedRecord`, `ParsedRecords`); the rest are functions.

`encodeInputs` removes exactly the first two characters of the codec's
output: it does not check that they are `0x`, and it strips nothing else.

## Model

| member | source | states |
|---|---|---|
| `Abi.EnsureHex0x` | src/abi.ts:16-22 | the result always starts with `0x`; a string that already starts with `0x` (case-sensitive) is returned unchanged, any other (the empty string included) gets `0x` in front |
| `Abi.EnsureHex0xIdempotent` | src/abi.ts:16-22 | normalising twice gives the same string as normalising once |
| `Abi.EnsureHex0xExamples` | src/abi.ts:17-21 | `""` becomes `0x`, `0` becomes `0x0`, `0X12` is prefixed (case-sensitive test), `0x12` is kept, `abc123` becomes `0xabc123` |
| `Abi.Slice2` | src/abi.ts:26 | `slice(2)`: the result is the string after its first two characters, empty when the string is shorter; on a `0x` string, `0x` plus the result gives the string back |
| `Abi.Slice2UndoesEnsureHex0x` | src/abi.ts:16-26 | stripping two characters after prefixing gives back an unprefixed string; prefixing is undone by stripping and redone by `0x` + the stripped text |
| `Abi.EncodeInputs` | src/abi.ts:24-28 | omitted arguments mean the empty list; a codec failure is returned unchanged; otherwise the result is the encoder's output minus its first two characters (length and every character), and `0x` + result equals a `0x`-prefixed output |
| `Abi.TypesOf` | src/abi.ts:31 | the type list has one entry per declared output, each the `type` of the output at the same position |
| `Abi.DecodeOutputs` | src/abi.ts:30-46 | the decoder gets the outputs' types in declared order and `0x` + the payload; its failure is passed through; on success the result has exactly one value per declared output and value `i` is the decoder's `result[i]` (Undefined when absent) |
| `Abi.NormalizeTopics` | src/abi.ts:64 | the topic list keeps its length and order, each topic replaced by its `0x`-prefixed form |
| `Abi.NormalizeLog` | src/abi.ts:61-65 | the per-log callback: address, data and every topic of the copy carry `0x`, the topic count is kept, and an entry whose strings are all prefixed is handed on unchanged |
| `Abi.NormalizeLogs` | src/abi.ts:60-66 | the normalised log list has one entry per input entry, in order; address and data are `ensureHex0x` of the originals, topics are mapped through `ensureHex0x` with count and order kept; every string of every entry then carries `0x` |
| `Abi.NormalizeTopicsFixed` | src/abi.ts:64 | normalising a topic list leaves it unchanged if and only if every topic already starts with `0x` |
| `Abi.NormalizeLogsFixed` | src/abi.ts:60-66 | normalising the logs leaves them unchanged if and only if every address, data and topic already starts with `0x` |
| `Abi.NormalizeLogsIdempotent` | src/abi.ts:60-66 | normalising the logs twice is normalising them once |
| `Abi.NormalizeLogExample` | src/abi.ts:59-66 | the log with address `abc123`, empty data and topics `deadbeef`, `0x01` is handed on as `0xabc123`, `0x`, `0xdeadbeef`, `0x01`: each string is prefixed on its own |
| `Abi.FindEventAbi` | src/abi.ts:74 | `find` by strict name equality: None exactly when no descriptor has the event's name; otherwise the descriptor at the first index whose name matches |
| `Abi.DecodedRecord` | src/abi.ts:48-54 | a decoded log's keys are exactly `type` and the declared input names; each input name holds the parsed entry's property of that name; `type` holds the event name unless an input is itself called `type` |
| `Abi.DecodedRecordStep` | src/abi.ts:85-87 | one more declared input adds exactly one property assignment to the record |
| `Abi.BuildDecodedLog` | src/abi.ts:80-89 | starting from `{ type }` and assigning one property per declared input in order yields exactly `DecodedRecord` |
| `Abi.ParsedRecords` | src/abi.ts:71-90 | `parsedLogs.map(callback)` with the throw inside: a success holds exactly one record per parsed entry, and the only failure it raises is the missing-ABI error |
| `Abi.ParsedRecordsSucceeds` | src/abi.ts:71-78 | the batch of parsed entries decodes if and only if every entry's event name matches some descriptor |
| `Abi.ParsedRecordsContents` | src/abi.ts:71-90 | on success there is exactly one record per parsed entry, in order, each built from the first descriptor with the entry's event name |
| `Abi.ParsedRecordsFailsAtFirstUnmatched` | src/abi.ts:74-78 | when entry `k` is the first whose event has no descriptor, the batch fails with the missing-ABI error naming that entry's event |
| `Abi.DecodeLogs` | src/abi.ts:56-91 | the log decoder is given exactly the normalised logs; its failure is passed through; otherwise the result is the lookup-or-fail decoding of its parsed entries described by the three lemmas above |

## Left out

- The `ethjs-abi` codec (`encodeMethod`, `decodeParams`, `logDecoder`): an external library whose code is not part of this model; it is a function parameter, and nothing is stated about its encoding or its own errors. In particular the codec's own round trip (encoding a call with no inputs and decoding zero values) is not modelled.
- `logDecoder(methods)` returning a decoder that is then applied: modelled as one two-argument function. The only work between the two calls is the log normalisation, which is pure and cannot fail, so merging the calls changes no outcome; a `logDecoder(methods)` that throws is a decoder that fails on every list.
- Abi.Slice2: strings are modelled as sequences of Unicode scalar values, while `slice(2)` drops two UTF-16 code units; the model agrees with `slice(2)` whenever the first two characters lie in the Basic Multilingual Plane (the codec emits ASCII hex). This does not affect `EnsureHex0x` or the name comparison, which look at `0`, `x` and whole strings only.
- Abi.EncodeInputs: "minus its first two characters" counts Unicode scalar values, as Abi.Slice2 does, so it agrees with `slice(2)` only when the encoder's first two characters lie in the Basic Multilingual Plane.
- JavaScript exceptions are modelled as `Err` results; the text of the missing-ABI message is not modelled, only the event value it names.
- The full `IABIMethod` and `ITransactionLog` types: only the fields this file reads (name, inputs, outputs with name and type; address, data, topics) are modelled.
- JavaScript object semantics beyond own properties (prototype lookups, numeric-string keys, `Array.prototype` behaviour of the array-like result): objects are finite maps and a missing key reads as Undefined.
- The `_eventName` tag is read as the ordinary property `_eventName` of the parsed entry; whatever kind of value it is, only a string equal to a descriptor's name matches.
- Validation of hex digits: the code never checks them, and neither does the model.
