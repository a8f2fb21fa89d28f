# Revert-reason decoder of the FISCO BCOS Java SDK, in Dafny

When a transaction fails, the node's receipt carries a non-zero status and an
output in hex text. If the contract reverted with a reason, that output is the
4-byte `Error(string)` selector followed by the ABI encoding of the reason
string. `RevertMessageParser` recognises such outputs and extracts the reason.
It accepts two selectors: `08c379a0`, the Keccak-256 one, and `c703cb12`, the
SM3 one used on national-cryptography chains. Any failure to decode becomes
the negative result `(false, null)`; it never raises an error.

The model is three modules of pure functions and lemmas, as the Java class is
(static methods, no state):

- `Hex` (hex.dfy): `startsWith`, `Hex.trimPrefix`, hex digits, fixed-width
  words and byte strings in hex, each parser with its formatter and the
  round trip between them.
- `Abi` (abi.dfy): the Solidity contract ABI layout of a one-element tuple
  holding a dynamic `string`. It is a 32-byte offset word, a 32-byte length
  word at that offset, then the bytes right-padded to whole words. `DecodeString`
  is the decoder. `EncodeString` is the canonical encoding, the reference the
  decoder is proved against.
- `RevertMessageParser` (revert_message_parser.dfy): the two selector
  constants, `isOutputStartWithRevertMethod`, `hasRevertMessage`, both
  `tryResolveRevertMessage` overloads, and their properties.

Modelling choices:

- A Java `null` output is `None` in an `Option<string>`. The status is an `int`.
- The `Tuple2<Boolean, String>` result is the datatype `Resolution(found,
  message)`. It can represent a half-populated pair, as the Java type can.
  `TryResolveRevertMessage` proves that it never returns one.
- The reason is kept as the bytes the ABI decoder recovers. Turning them into a
  Java `String` (UTF-8) is not modelled.
- `Hex.trimPrefix` is not part of this model. It is assumed to remove one
  leading lower-case `"0x"` and nothing else.
- `FunctionReturnDecoder` is not part of this model either. `Abi.DecodeString`
  follows the ABI layout: it reads the offset word, the length word at twice
  that many hex characters, then twice `length` hex characters of data. It
  fails when the text is too short for what the words announce, or when a
  character it reads is not a hex digit (either case is accepted). It does not
  inspect the padding or anything after the data. Rejecting a non-hex
  character, and reading the offset and length as unbounded numbers, are
  assumptions about a decoder whose source is not part of this model (see
  "## Left out").
- Dafny functions are total, so "never throws" is the fact that
  `TryResolveRevertMessage` has no precondition. Its contract says that every
  decode failure gives `(false, None)`.

## Model

| member | source | states |
|---|---|---|
| `Hex.TrimPrefix` | sdk-transaction/src/main/java/org/fisco/bcos/sdk/v3/transaction/codec/decode/RevertMessageParser.java:64 | the output with one leading "0x" removed when it has one, unchanged otherwise |
| `Hex.TrimPrefixAddsBack` | sdk-transaction/src/main/java/org/fisco/bcos/sdk/v3/transaction/codec/decode/RevertMessageParser.java:64 | trimming "0x" + t gives back exactly t |
| `Hex.TrimPrefixOnce` | sdk-transaction/src/main/java/org/fisco/bcos/sdk/v3/transaction/codec/decode/RevertMessageParser.java:91 | only one prefix is removed: "0x0x" + t trims to "0x" + t |
| `Hex.Digit` | sdk-transaction/src/main/java/org/fisco/bcos/sdk/v3/transaction/codec/decode/RevertMessageParser.java:95-96 | the digit written for a value below 16 is a lower-case hex digit that reads back as that value |
| `Hex.ParseNatDefined` | sdk-transaction/src/main/java/org/fisco/bcos/sdk/v3/transaction/codec/decode/RevertMessageParser.java:95-96 | an ABI word reads as a number exactly when every character is a hex digit (both directions) |
| `Hex.ParseBytesDefined` | sdk-transaction/src/main/java/org/fisco/bcos/sdk/v3/transaction/codec/decode/RevertMessageParser.java:95-96 | hex text reads as bytes exactly when it has an even number of characters, all hex digits (both directions) |
| `Hex.ParseFormatNat` | sdk-transaction/src/main/java/org/fisco/bcos/sdk/v3/transaction/codec/decode/RevertMessageParser.java:95-96 | a number below 16^w written in w digits reads back as the same number |
| `Hex.ParseFormatBytes` | sdk-transaction/src/main/java/org/fisco/bcos/sdk/v3/transaction/codec/decode/RevertMessageParser.java:95-96 | bytes written as hex read back as the same bytes |
| `Hex.FormatNatIsHex` | sdk-transaction/src/main/java/org/fisco/bcos/sdk/v3/transaction/codec/decode/RevertMessageParser.java:92 | a formatted word consists of hex digits only |
| `Hex.FormatBytesIsHex` | sdk-transaction/src/main/java/org/fisco/bcos/sdk/v3/transaction/codec/decode/RevertMessageParser.java:92 | formatted bytes consist of hex digits only |
| `Abi.PadLength` | sdk-transaction/src/main/java/org/fisco/bcos/sdk/v3/transaction/codec/decode/RevertMessageParser.java:92 | the padding after n bytes is under one word and brings n to a whole number of 32-byte words |
| `Abi.DecodeString` | sdk-transaction/src/main/java/org/fisco/bcos/sdk/v3/transaction/codec/decode/RevertMessageParser.java:93-96 | decoding fails on text shorter than one word; a decoded message occupies twice its length in hex characters beyond the first word |
| `Abi.EncodeString` | sdk-transaction/src/main/java/org/fisco/bcos/sdk/v3/transaction/codec/decode/RevertMessageParser.java:92 | the canonical encoding is two words plus the message padded to whole words |
| `Abi.EncodeStringIsHex` | sdk-transaction/src/main/java/org/fisco/bcos/sdk/v3/transaction/codec/decode/RevertMessageParser.java:92 | an encoding is hex text throughout |
| `Abi.EncodeStringWords` | sdk-transaction/src/main/java/org/fisco/bcos/sdk/v3/transaction/codec/decode/RevertMessageParser.java:92 | an encoding is a whole number of 64-character words |
| `Abi.DecodeStringReads` | sdk-transaction/src/main/java/org/fisco/bcos/sdk/v3/transaction/codec/decode/RevertMessageParser.java:95-96 | when the offset word, the length word it points to and the data after it all read, the decoder returns that data |
| `Abi.DecodeStringLayout` | sdk-transaction/src/main/java/org/fisco/bcos/sdk/v3/transaction/codec/decode/RevertMessageParser.java:95-96 | conversely, a decoded message had its length in the word at the named offset and its bytes right after it |
| `Abi.DecodeEncode` | sdk-transaction/src/main/java/org/fisco/bcos/sdk/v3/transaction/codec/decode/RevertMessageParser.java:95-102 | decoding the encoding of any message, followed by any text, gives the message back |
| `Abi.TruncatedFails` | sdk-transaction/src/main/java/org/fisco/bcos/sdk/v3/transaction/codec/decode/RevertMessageParser.java:104-108 | an encoding cut anywhere before its last data byte fails to decode |
| `Abi.BadOffsetWordFails` | sdk-transaction/src/main/java/org/fisco/bcos/sdk/v3/transaction/codec/decode/RevertMessageParser.java:104-108 | a non-hex character in the offset word makes decoding fail |
| `Abi.BadLengthWordFails` | sdk-transaction/src/main/java/org/fisco/bcos/sdk/v3/transaction/codec/decode/RevertMessageParser.java:104-108 | a non-hex character in the length word the offset word points to makes decoding fail |
| `Abi.OffsetOutOfRangeFails` | sdk-transaction/src/main/java/org/fisco/bcos/sdk/v3/transaction/codec/decode/RevertMessageParser.java:104-108 | an offset pointing past the end of the text makes decoding fail |
| `RevertMessageParser.IsOutputStartWithRevertMethod` | sdk-transaction/src/main/java/org/fisco/bcos/sdk/v3/transaction/codec/decode/RevertMessageParser.java:63-66 | true exactly when the output without "0x" has at least 8 characters and its first 8 are one of the two selectors |
| `RevertMessageParser.HasRevertMessage` | sdk-transaction/src/main/java/org/fisco/bcos/sdk/v3/transaction/codec/decode/RevertMessageParser.java:73-78 | true exactly when the status is non-zero, the output is present and non-empty, and its trimmed form begins with a selector |
| `RevertMessageParser.Payload` | sdk-transaction/src/main/java/org/fisco/bcos/sdk/v3/transaction/codec/decode/RevertMessageParser.java:91 | the text handed to the decoder is what follows a selector in the trimmed output |
| `RevertMessageParser.TryResolveRevertMessage` | sdk-transaction/src/main/java/org/fisco/bcos/sdk/v3/transaction/codec/decode/RevertMessageParser.java:85-109 | found exactly when a message is present (never half-populated); (false, None) whenever hasRevertMessage is false or decoding fails; a found message is the decoder's result on the payload; (true, m) whenever hasRevertMessage holds and the payload decodes to m |
| `RevertMessageParser.TryResolveReceipt` | sdk-transaction/src/main/java/org/fisco/bcos/sdk/v3/transaction/codec/decode/RevertMessageParser.java:117-119 | the receipt overload equals the (status, output) one; success or empty-output receipts give (false, None); a found message came from a selector-tagged output |
| `RevertMessageParser.SelectorIsNotPrefix` | sdk-transaction/src/main/java/org/fisco/bcos/sdk/v3/transaction/codec/decode/RevertMessageParser.java:46-48 | neither selector begins with "0x", so a bare selector is never trimmed |
| `RevertMessageParser.OnlyTheTwoSelectors` | sdk-transaction/src/main/java/org/fisco/bcos/sdk/v3/transaction/codec/decode/RevertMessageParser.java:46-66 | an 8-character prefix after "0x" (or bare, when it does not start with "0x") is accepted if and only if it is one of the two selectors |
| `RevertMessageParser.EmptyOutputHasNoMessage` | sdk-transaction/src/main/java/org/fisco/bcos/sdk/v3/transaction/codec/decode/RevertMessageParser.java:74-76 | a null or empty output never has a message and resolves to (false, None), whatever the status |
| `RevertMessageParser.SuccessHasNoMessage` | sdk-transaction/src/main/java/org/fisco/bcos/sdk/v3/transaction/codec/decode/RevertMessageParser.java:77 | status 0 never has a message and resolves to (false, None), whatever the output |
| `RevertMessageParser.PayloadAfterSelector` | sdk-transaction/src/main/java/org/fisco/bcos/sdk/v3/transaction/codec/decode/RevertMessageParser.java:91 | for sel + rest with either selector, the output is tagged and the decoder receives exactly rest |
| `RevertMessageParser.PayloadAfterPrefixedSelector` | sdk-transaction/src/main/java/org/fisco/bcos/sdk/v3/transaction/codec/decode/RevertMessageParser.java:91 | the same for "0x" + sel + rest |
| `RevertMessageParser.SelectorsResolveAlike` | sdk-transaction/src/main/java/org/fisco/bcos/sdk/v3/transaction/codec/decode/RevertMessageParser.java:91 | the two selectors followed by the same text resolve to the same result, with or without "0x" |
| `RevertMessageParser.ResolveEncoded` | sdk-transaction/src/main/java/org/fisco/bcos/sdk/v3/transaction/codec/decode/RevertMessageParser.java:85-102 | round trip: a non-zero status and "0x" + selector + encoding of m (or the same without "0x") resolve to (true, m), for either selector |
| `RevertMessageParser.ResolveEncodedReceipt` | sdk-transaction/src/main/java/org/fisco/bcos/sdk/v3/transaction/codec/decode/RevertMessageParser.java:117-119 | the receipt overload recovers the same message from such a receipt, with or without "0x" |
| `RevertMessageParser.TruncatedTailNotFound` | sdk-transaction/src/main/java/org/fisco/bcos/sdk/v3/transaction/codec/decode/RevertMessageParser.java:104-108 | a selector followed by a truncated encoding resolves to (false, None), with or without "0x" |
| `RevertMessageParser.GarbageTailNotFound` | sdk-transaction/src/main/java/org/fisco/bcos/sdk/v3/transaction/codec/decode/RevertMessageParser.java:104-108 | a selector followed by text with a non-hex character in the offset word resolves to (false, None), with or without "0x" |
| `RevertMessageParser.GarbageLengthNotFound` | sdk-transaction/src/main/java/org/fisco/bcos/sdk/v3/transaction/codec/decode/RevertMessageParser.java:104-108 | the same for a non-hex character in the length word the offset word points to |

## Left out

- ProxySignTransactionManager (src/main/java/org/fisco/bcos/sdk/v3/transaction/manager/Transactionv2/ProxySignTransactionManager.java) is not part of this model. Its send and call variants are stubs or forward to stubs, and its constructors store signer references. What remains is RPC and signer plumbing with nothing to compute.
- Computing the selectors: they are the fixed constants of lines 46-48, not derived from Keccak-256 or SM3 hashes of `Error(string)`.
- Logging at lines 99-100 and 105: a side effect that does not affect the result.
- UTF-8 decoding of the message into a Java `String`: the model returns the decoded bytes and does not reject bytes that are not valid UTF-8.
- `FunctionReturnDecoder`, `Function` and `TypeReference` beyond the single dynamic-`string` layout. Their source is not part of this model. In particular, the Java `int` range limits on the offset and length inside the decoder are not modelled (Dafny integers are unbounded), and neither is any prefix handling the decoder may do itself.
- `Abi.DecodeString`: does not check the zero padding, an offset smaller than one word, or anything after the data, since the layout does not require the decoder to read them.
- `Abi.DecodeString`: its strict hex reading is an assumption, because the library decoder's source is not part of this model. A non-hex character fails the decode here, where a digit reader such as Java's `Character.digit` returns -1 without throwing. The offset and length are unbounded here, where a Java `int` conversion of a large word may wrap. The lemmas that rest on these assumptions state facts about this decoder only: `Hex.ParseNatDefined`, `Hex.ParseBytesDefined`, `Abi.BadOffsetWordFails`, `Abi.BadLengthWordFails`, `Abi.OffsetOutOfRangeFails`, `Abi.TruncatedFails`, `RevertMessageParser.GarbageTailNotFound`, `RevertMessageParser.GarbageLengthNotFound` and `RevertMessageParser.TruncatedTailNotFound`.
- The `instanceof Utf8String` test at line 97: a successful decode against the single `Utf8String` output type yields that type, so success is modelled as found.
- A `null` status, which would throw at line 77 when unboxed: the status is an `int`.
- `isOutputStartWithRevertMethod(null)`, which would throw in `startsWith`: the model takes a non-null string, and `hasRevertMessage` never passes it `null`.
- `Hex.trimPrefix`: modelled as removing one leading lower-case `"0x"`. An upper-case `"0X"` is therefore not removed.
- The receipt's fields other than `status` and `output`.
