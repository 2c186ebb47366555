# Referenced transactions for a hardware wallet (refTx.js), in Dafny

This project models the referenced-transaction helpers of trezor-connect
(`src/js/core/methods/tx/refTx.js`). Before a hardware wallet signs a
Bitcoin-family transaction, it must see the previous transactions that the
legacy (non-segwit) inputs spend. The file does two jobs:

- `getReferencedTransactions` lists the ids of the previous transactions to
  fetch. It keeps the non-segwit inputs, returns `[]` early when none are
  left, removes duplicates by the reversed-byte hex of the previous hash
  (keeping the first), and returns that same hex string for each.
- `transformReferencedTransactions` turns each parsed bitcoinjs-lib-zcash
  transaction into the flat record the device reads: `lock_time`, `version`,
  `hash`, `inputs`, `bin_outputs`, `extra_data`, `timestamp`,
  `version_group_id` and `expiry`. `extra_data` comes from
  `getJoinSplitData`. For a Zcash transaction of version 2 or later, that is
  the trailing `joinsplitByteLength()` bytes of the serialized transaction.
  For any other transaction it is `null`.

The whole file is pure, so the model uses only datatypes, functions and
lemmas. There are five modules:

- `Wrappers`: `Option`, which stands for `null`/`undefined`.
- `BufferUtils`: the bytes of a buffer, plus models of the two imported
  helpers `reverseBuffer` (`Reverse`) and `uniq` (`Uniq`, a left-to-right
  scan with a set of keys already seen). Next to `Uniq` is an independent
  reference definition, `FirstOccurrences`.
- `NodeBuffer`: Node's `Buffer.toString('hex')` (`ToHex`) and
  `Buffer.slice(start)` (`SliceFrom`). A negative start counts back from the
  end, and the start is clamped to the buffer. It also has a strict hex
  decoder (`FromHex`), used to show that the hex encoding loses nothing.
- `JsParseInt`: `parseInt(s, 16)` as defined in section 19.2.5 of ECMA-262.
  Leading white space is skipped and one sign is read. Then a `0x`/`0X`
  prefix is dropped, and the longest run of hex digits that follows is read.
  With no digit, the result is `NaN`.
- `RefTx`: the transaction and record datatypes and the three operations of
  the file.

The parser's methods `toBuffer()`, `joinsplitByteLength()` and `getId()`
become fields of `Transaction`: `serialized`, `joinsplitByteLength` and `id`.

Two behaviours of the code are worth stating directly:

- The code raises no error when `joinsplitByteLength()` exceeds the length of
  the serialized buffer. Node's `slice` clamps the start, and
  `GetJoinSplitData` states what comes out in each case.
- The code raises no error for a version group id that is not hex either.
  `parseInt` reads the leading hex digits after the optional white space,
  sign and `0x`, so `"0x12zz"` gives 18
  (`ParseIntStopsAtNonDigit`). Only a string with no hex digit
  there gives `NaN` (`ParseInt16`, `ParseIntNoDigits`).
  `parseInt("0x03C48270", 16)`, the Zcash Overwinter group id, is 63210096
  (`ParseIntOverwinterGroupId`).

## Model

| member | source | states |
|---|---|---|
| BufferUtils.Reverse | src/js/core/methods/tx/refTx.js:5 | `reverseBuffer` keeps the length, and byte i of the result is byte n-1-i of the input |
| BufferUtils.ReverseInvolution | src/js/core/methods/tx/refTx.js:51 | reversing a hash twice gives back the original bytes |
| BufferUtils.ReverseInjective | src/js/core/methods/tx/refTx.js:25 | different hashes stay different after reversal |
| BufferUtils.Keys | src/js/core/methods/tx/refTx.js:25 | the `.map` over the deduplicated inputs keeps the length, and entry i is the key of element i |
| BufferUtils.UniqFrom | src/js/core/methods/tx/refTx.js:25 | every kept element comes from the input and has a key not yet seen; no two kept elements share a key |
| BufferUtils.UniqFromKeys | src/js/core/methods/tx/refTx.js:25 | a key is kept exactly when it is a key of the input and was not seen before (both directions) |
| BufferUtils.Uniq | src/js/core/methods/tx/refTx.js:25 | `uniq(array, fun)` is first-occurrence deduplication (the reference definition `FirstOccurrences`); it keeps every key of the input and no key twice |
| BufferUtils.UniqFromIsFirstOccurrences | src/js/core/methods/tx/refTx.js:25 | the left-to-right scan equals the reference definition: an element is kept exactly when no earlier element has its key |
| BufferUtils.UniqFromOfDistinct | src/js/core/methods/tx/refTx.js:25 | when all keys already differ, `uniq` removes nothing |
| BufferUtils.KeysOfUniqFrom | src/js/core/methods/tx/refTx.js:25 | the keys of the deduplicated elements are the deduplicated keys, in the same order |
| NodeBuffer.ToHex | src/js/core/methods/tx/refTx.js:51-52 | `toString('hex')` writes 2n lower-case digits for n bytes, high nibble first |
| NodeBuffer.FromHexToHex | src/js/core/methods/tx/refTx.js:58 | decoding the hex of a buffer gives back the buffer |
| NodeBuffer.ToHexInjective | src/js/core/methods/tx/refTx.js:25 | two buffers with the same hex string are equal, so deduplicating by hex is deduplicating by bytes |
| NodeBuffer.SliceFrom | src/js/core/methods/tx/refTx.js:34 | `slice(start)` always returns a suffix: of length len-start for 0 <= start <= len, of length -start for -len <= start < 0, the whole buffer below -len, empty above len |
| JsParseInt.TrimStart | src/js/core/methods/tx/refTx.js:63 | `parseInt` skips exactly the leading ECMAScript white space |
| JsParseInt.HexDigitsPrefix | src/js/core/methods/tx/refTx.js:63 | the digits read are the longest prefix made only of hex digits |
| JsParseInt.ParseInt16 | src/js/core/methods/tx/refTx.js:63 | `parseInt(s, 16)` is a number exactly when a hex digit follows the white space, the optional sign and the optional `0x`, and is negative only after a `-`; its value is given by ParseIntDigits, ParseIntPrefixed and ParseIntSigned, and `NaN` by ParseIntNoDigits |
| JsParseInt.ParseIntDigits | src/js/core/methods/tx/refTx.js:63 | hex digits followed by a non-digit parse to the value of the digits (except a lone `0` before `x`, which is a prefix) |
| JsParseInt.ParseIntPrefixed | src/js/core/methods/tx/refTx.js:63 | after a `0x`/`0X` prefix, the digits up to the first non-digit give the value |
| JsParseInt.ParseIntSigned | src/js/core/methods/tx/refTx.js:63 | one `-` or `+`, then nothing, `0x` or `0X`, then digits, gives the value of the digits with that sign |
| JsParseInt.ParseIntNoDigits | src/js/core/methods/tx/refTx.js:63 | with no hex digit after the optional prefix, the result is `NaN` |
| JsParseInt.ParseIntStopsAtNonDigit | src/js/core/methods/tx/refTx.js:63 | a partly-hex group id is not rejected: `parseInt("0x12zz", 16)` is 18 |
| JsParseInt.HexValueOfToHex | src/js/core/methods/tx/refTx.js:63 | the hex string of a buffer has, as a number, the buffer's big-endian value |
| JsParseInt.ParseIntOfToHex | src/js/core/methods/tx/refTx.js:63 | `parseInt` of the hex of a non-empty buffer, with or without `0x`, is its big-endian value |
| JsParseInt.ParseIntOverwinterGroupId | src/js/core/methods/tx/refTx.js:63 | `parseInt("0x03C48270", 16)` is 63210096 |
| RefTx.ReversedHex | src/js/core/methods/tx/refTx.js:51 | `reverseBuffer(hash).toString('hex')` has two characters per byte of the hash and decodes to the reversed hash |
| RefTx.ReversedHexInjective | src/js/core/methods/tx/refTx.js:25 | two inputs get the same id exactly when their previous hashes are equal |
| RefTx.UtxoId | src/js/core/methods/tx/refTx.js:25 | the key of an input (and the id returned for it) decodes to its previous hash in reversed byte order |
| RefTx.LegacyInputs | src/js/core/methods/tx/refTx.js:21 | the filter keeps only non-segwit inputs, all of them, and never adds any |
| RefTx.LegacyInputsAppend | src/js/core/methods/tx/refTx.js:21 | filtering a concatenation filters each part |
| RefTx.GetReferencedTransactions | src/js/core/methods/tx/refTx.js:20-26 | the result is the list of ids of the non-segwit inputs, each kept at its first occurrence (the reference definition `FirstOccurrences`), early return included |
| RefTx.ReferencedWithoutEarlyReturn | src/js/core/methods/tx/refTx.js:22-25 | the early `return []` gives the same result as deduplicating and mapping the empty list |
| RefTx.ReferencedEmptyIffAllSegwit | src/js/core/methods/tx/refTx.js:21-24 | the result is empty exactly when every input is segwit, including when there are no inputs |
| RefTx.ReferencedIdOrigin | src/js/core/methods/tx/refTx.js:21-25 | the i-th id is the reversed-hex hash of some non-segwit input |
| RefTx.ReferencedIdsFromLegacyInputs | src/js/core/methods/tx/refTx.js:21-25 | every returned id is the reversed-hex hash of a non-segwit input, so segwit inputs never contribute |
| RefTx.LegacyInputReferenced | src/js/core/methods/tx/refTx.js:21-25 | the id of a given non-segwit input is in the result |
| RefTx.ReferencedIdsCoverLegacyInputs | src/js/core/methods/tx/refTx.js:21-25 | the id of every non-segwit input is in the result |
| RefTx.ReferencedIdsDistinct | src/js/core/methods/tx/refTx.js:25 | no id is returned twice |
| RefTx.SegwitInputIgnored | src/js/core/methods/tx/refTx.js:21 | adding a segwit input anywhere does not change the result |
| RefTx.ReferencedDistinctHashes | src/js/core/methods/tx/refTx.js:25 | when the non-segwit inputs spend different transactions, there is one id per such input, in input order |
| RefTx.GetJoinSplitData | src/js/core/methods/tx/refTx.js:28-36 | `null` exactly when version < 2 or the transaction is not Zcash; otherwise a suffix of the serialization, of length `joinsplitByteLength()` when that fits, and as Node's clamping gives when it does not |
| RefTx.TransformInputs | src/js/core/methods/tx/refTx.js:47 | one device input per transaction input |
| RefTx.TransformOutputs | src/js/core/methods/tx/refTx.js:55 | one device output per transaction output |
| RefTx.TransformInput | src/js/core/methods/tx/refTx.js:48-53 | `prev_index` and `sequence` are copied; `prev_hash` decodes to the reversed hash and `script_sig` to the script |
| RefTx.TransformOutput | src/js/core/methods/tx/refTx.js:56-59 | `amount` is copied; `script_pubkey` decodes to the script |
| RefTx.ExtraData | src/js/core/methods/tx/refTx.js:41-42 | `null` exactly when version < 2 or not Zcash; otherwise it decodes to the join-split data, and when the length fits it is the hex of the last `joinsplitByteLength()` bytes, with twice that many characters |
| RefTx.TransformTransaction | src/js/core/methods/tx/refTx.js:40-66 | lock time, version, id, timestamp and expiry are copied; input k and output k are the transformed input and output k; `extra_data` is `ExtraData`; `version_group_id` is present exactly for Zcash, whatever the version, and is then `parseInt(versionGroupId, 16)`; without it there is no `extra_data` |
| RefTx.TransformReferencedTransactions | src/js/core/methods/tx/refTx.js:39-40 | one record per transaction, record i being the transform of transaction i |
| RefTx.TransformAppend | src/js/core/methods/tx/refTx.js:40 | each transaction is transformed on its own, so order is kept and nothing is filtered |
| RefTx.TransformInputLossless | src/js/core/methods/tx/refTx.js:47-54 | index, sequence, hash and script of an input can be read back from its device form |
| RefTx.TransformOutputLossless | src/js/core/methods/tx/refTx.js:55-60 | amount and script of an output can be read back from its device form |
| RefTx.TransformInputsLossless | src/js/core/methods/tx/refTx.js:47-54 | the device inputs decode back to the transaction's inputs, in order |
| RefTx.TransformOutputsLossless | src/js/core/methods/tx/refTx.js:55-60 | the device outputs decode back to the transaction's outputs, in order |
| RefTx.TransformReferencedLossless | src/js/core/methods/tx/refTx.js:39-66 | record i copies lock time, version, id, timestamp and expiry of transaction i, its inputs and outputs decode back to the transaction's, and its `extra_data` and `version_group_id` are those of the transaction |
| RefTx.TransformedInputFields | src/js/core/methods/tx/refTx.js:49-52 | `prev_index` and `sequence` are copied, `prev_hash` is the hex of the reversed hash (2 characters per byte), `script_sig` is the hex of the script |
| RefTx.VersionGroupIdOfHex | src/js/core/methods/tx/refTx.js:63 | a version group id written as `0x` plus the hex of some bytes becomes their big-endian value |
| RefTx.PlainVersionOne | src/js/core/methods/tx/refTx.js:61-63 | a non-Zcash version-1 transaction has neither `extra_data` nor `version_group_id` |
| RefTx.TwoOutputsExample | src/js/core/methods/tx/refTx.js:55-60 | outputs 1000/`ab` and 2500/`cd` become the same amounts and scripts, in the same order |
| RefTx.PrevHashExample | src/js/core/methods/tx/refTx.js:51 | a previous hash stored as 01 02 03 is shown as `030201` |

## Left out

- The bitcoinjs-lib-zcash parser is not part of this model. `toBuffer()`, `joinsplitByteLength()` and `getId()` are fields of `Transaction`. Nothing ties them to the other fields, so `GetJoinSplitData` also covers a join-split length longer than the buffer.
- The bodies of `uniq` and `reverseBuffer` (utils/bufferUtils) are not part of this model. `Uniq` and `Reverse` are the behaviour the file relies on: first occurrence by key, and a reversed copy.
- JavaScript numbers are modelled as unbounded integers. Integer widths (uint32 lock time, index and sequence; int32 version; 64-bit amounts) are not enforced, because these values are copied unchanged.
- The version group id is decoded by `parseInt`, not copied. Its value is unbounded here: the uint32 range of the field is not checked, and no rounding to a JavaScript double is modelled (see the ParseInt16 line below).
- ParseInt16: `-0` is modelled as 0. Precision loss above 2^53 is not modelled.
- The difference between `null` and `undefined` for `timestamp` and `expiry` is not modelled. Both are `None`.
- Flow type annotations and imports are not modelled. `versionGroupId` is taken to be a string, as line 63 passes it to `parseInt`.
- The device protocol that consumes the records, and the fetching of transactions between the two operations, are outside this file.
