/** RevertMessageParser: decides whether a failed transaction receipt carries
    an `Error(string)` revert reason and extracts it. Every operation is a
    pure function of the receipt's status and output. */
module RevertMessageParser {
  import opened Hex
  import opened Abi

  /** The `Error(string)` selector under Keccak-256. */
  const REVERT_METHOD: string := "08c379a0"

  /** The `Error(string)` selector under SM3. */
  const SM_REVERT_METHOD: string := "c703cb12"

  /** The receipt fields the parser reads; `output` is None where the Java
      reference is null. Chain metadata is not modelled. */
  datatype TransactionReceipt = TransactionReceipt(status: int, output: Option<string>)

  /** The Tuple2<Boolean, String> the parser returns; `message` is None where
      the Java reference is null. The message is kept as the decoded bytes. */
  datatype Resolution = Resolution(found: bool, message: Option<seq<byte>>)

  const NotFound: Resolution := Resolution(false, None)

  predicate IsSelector(sel: string) {
    sel == REVERT_METHOD || sel == SM_REVERT_METHOD
  }

  /** Java's StringUtils.isEmpty: null or of length zero. */
  predicate IsEmpty(output: Option<string>) {
    output.None? || output.value == []
  }

  /** Does the output, without its "0x", begin with one of the two selectors? */
  function IsOutputStartWithRevertMethod(output: string): (b: bool)
    ensures b <==> |TrimPrefix(output)| >= 8 && IsSelector(TrimPrefix(output)[..8])
  {
    var trimmed := TrimPrefix(output);
    StartsWith(trimmed, REVERT_METHOD) || StartsWith(trimmed, SM_REVERT_METHOD)
  }

  /** A failure status and a non-empty output that, without its "0x",
      begins with one of the two selectors. */
  function HasRevertMessage(status: int, output: Option<string>): (b: bool)
    ensures b <==> && status != 0 && output.Some? && output.value != []
                   && |TrimPrefix(output.value)| >= 8 && IsSelector(TrimPrefix(output.value)[..8])
  {
    if IsEmpty(output) then false
    else status != 0 && IsOutputStartWithRevertMethod(output.value)
  }

  /** What is handed to the ABI decoder: the output without its "0x" and
      without the first eight characters (the selector). */
  function Payload(output: string): (p: string)
    requires IsOutputStartWithRevertMethod(output)
    ensures exists sel :: IsSelector(sel) && TrimPrefix(output) == sel + p
  {
    var trimmed := TrimPrefix(output);
    var p := trimmed[|REVERT_METHOD|..];
    assert trimmed == trimmed[..8] + p;
    p
  }

  /** tryResolveRevertMessage(status, output). A decode failure of any kind is
      the negative resolution: the function is total. */
  function TryResolveRevertMessage(status: int, output: Option<string>): (r: Resolution)
    ensures r.found <==> r.message.Some?
    ensures !HasRevertMessage(status, output) ==> r == NotFound
    ensures r.found ==>
      (HasRevertMessage(status, output) && DecodeString(Payload(output.value)) == r.message)
    ensures HasRevertMessage(status, output) && DecodeString(Payload(output.value)).None?
      ==> r == NotFound
    ensures HasRevertMessage(status, output) && DecodeString(Payload(output.value)).Some?
      ==> r == Resolution(true, DecodeString(Payload(output.value)))
  {
    if !HasRevertMessage(status, output) then NotFound
    else
      match DecodeString(Payload(output.value))
      case Some(m) => Resolution(true, Some(m))
      case None => NotFound
  }

  /** tryResolveRevertMessage(receipt): forwards the receipt's status and output. */
  function TryResolveReceipt(receipt: TransactionReceipt): (r: Resolution)
    ensures r == TryResolveRevertMessage(receipt.status, receipt.output)
    ensures receipt.status == 0 || IsEmpty(receipt.output) ==> r == NotFound
    ensures r.found ==> receipt.output.Some? && IsOutputStartWithRevertMethod(receipt.output.value)
  {
    TryResolveRevertMessage(receipt.status, receipt.output)
  }

  // Properties of the parser

  /** Neither selector begins with "0x", so a selector at the very start of
      an output is never mistaken for a hex prefix. */
  lemma SelectorIsNotPrefix(sel: string, rest: string)
    requires IsSelector(sel)
    ensures !StartsWith(sel + rest, "0x")
  {
    assert (sel + rest)[1] == sel[1];
    assert sel[1] == '8' || sel[1] == '7';
    assert "0x"[1] == 'x';
  }

  /** No other eight-character prefix is taken for a revert selector, with
      "0x" before it or, when it does not itself begin with "0x", without. */
  lemma {:induction false} OnlyTheTwoSelectors(sel: string, rest: string)
    requires |sel| == 8
    ensures IsOutputStartWithRevertMethod("0x" + sel + rest) <==> IsSelector(sel)
    ensures !StartsWith(sel, "0x") ==>
      (IsOutputStartWithRevertMethod(sel + rest) <==> IsSelector(sel))
  {
    assert "0x" + sel + rest == "0x" + (sel + rest);
    TrimPrefixAddsBack(sel + rest);
    assert (sel + rest)[..8] == sel;
    if !StartsWith(sel, "0x") {
      assert (sel + rest)[..2] == sel[..2];
    }
  }

  /** An absent or empty output never carries a message, whatever the status. */
  lemma EmptyOutputHasNoMessage(status: int, output: Option<string>)
    requires IsEmpty(output)
    ensures !HasRevertMessage(status, output)
    ensures TryResolveRevertMessage(status, output) == NotFound
  {
  }

  /** A success receipt is never inspected for revert text. */
  lemma SuccessHasNoMessage(output: Option<string>)
    ensures !HasRevertMessage(0, output)
    ensures TryResolveRevertMessage(0, output) == NotFound
  {
  }

  /** Both selectors are stripped the same way: the decoder sees exactly what
      follows the selector. */
  lemma {:induction false} PayloadAfterSelector(sel: string, rest: string)
    requires IsSelector(sel)
    ensures IsOutputStartWithRevertMethod(sel + rest)
    ensures Payload(sel + rest) == rest
  {
    var out := sel + rest;
    SelectorIsNotPrefix(sel, rest);
    assert TrimPrefix(out) == out;
    assert out[..8] == sel;
    assert out[8..] == rest;
  }

  /** The same with the "0x" prefix in front. */
  lemma {:induction false} PayloadAfterPrefixedSelector(sel: string, rest: string)
    requires IsSelector(sel)
    ensures IsOutputStartWithRevertMethod("0x" + sel + rest)
    ensures Payload("0x" + sel + rest) == rest
  {
    var out := sel + rest;
    PayloadAfterSelector(sel, rest);
    assert "0x" + sel + rest == "0x" + out;
    TrimPrefixAddsBack(out);
    SelectorIsNotPrefix(sel, rest);
  }

  /** The two selectors are interchangeable: whatever follows them resolves
      the same way. */
  lemma {:induction false} SelectorsResolveAlike(status: int, rest: string)
    ensures TryResolveRevertMessage(status, Some("0x" + REVERT_METHOD + rest))
         == TryResolveRevertMessage(status, Some("0x" + SM_REVERT_METHOD + rest))
    ensures TryResolveRevertMessage(status, Some(REVERT_METHOD + rest))
         == TryResolveRevertMessage(status, Some(SM_REVERT_METHOD + rest))
  {
    PayloadAfterPrefixedSelector(REVERT_METHOD, rest);
    PayloadAfterPrefixedSelector(SM_REVERT_METHOD, rest);
    PayloadAfterSelector(REVERT_METHOD, rest);
    PayloadAfterSelector(SM_REVERT_METHOD, rest);
  }

  /** Round trip: a revert reason encoded behind either selector, with or
      without "0x", is recovered exactly from a failure receipt. */
  lemma {:induction false} ResolveEncoded(status: int, sel: string, m: seq<byte>)
    requires status != 0 && IsSelector(sel) && |m| < WordLimit()
    ensures TryResolveRevertMessage(status, Some("0x" + sel + EncodeString(m))) == Resolution(true, Some(m))
    ensures TryResolveRevertMessage(status, Some(sel + EncodeString(m))) == Resolution(true, Some(m))
  {
    PayloadAfterSelector(sel, EncodeString(m));
    PayloadAfterPrefixedSelector(sel, EncodeString(m));
    DecodeEncode(m, []);
    assert EncodeString(m) + [] == EncodeString(m);
  }

  /** The receipt entry point recovers the same message, with or without "0x". */
  lemma ResolveEncodedReceipt(receipt: TransactionReceipt, sel: string, m: seq<byte>)
    requires receipt.status != 0 && IsSelector(sel) && |m| < WordLimit()
    requires receipt.output == Some("0x" + sel + EncodeString(m))
          || receipt.output == Some(sel + EncodeString(m))
    ensures TryResolveReceipt(receipt) == Resolution(true, Some(m))
  {
    ResolveEncoded(receipt.status, sel, m);
  }

  /** A tagged failure output whose tail is a truncated encoding resolves to
      the negative result. */
  lemma {:induction false} TruncatedTailNotFound(status: int, sel: string, m: seq<byte>, k: nat)
    requires status != 0 && IsSelector(sel) && |m| < WordLimit()
    requires k < 2 * WordChars + 2 * |m|
    ensures TryResolveRevertMessage(status, Some("0x" + sel + EncodeString(m)[..k])) == NotFound
    ensures TryResolveRevertMessage(status, Some(sel + EncodeString(m)[..k])) == NotFound
  {
    PayloadAfterSelector(sel, EncodeString(m)[..k]);
    PayloadAfterPrefixedSelector(sel, EncodeString(m)[..k]);
    TruncatedFails(m, k);
  }

  /** A tagged failure output whose offset word holds a non-hex character
      resolves to the negative result. */
  lemma {:induction false} GarbageTailNotFound(status: int, sel: string, rest: string, i: nat)
    requires status != 0 && IsSelector(sel)
    requires i < WordChars <= |rest| && !IsHexDigit(rest[i])
    ensures TryResolveRevertMessage(status, Some("0x" + sel + rest)) == NotFound
    ensures TryResolveRevertMessage(status, Some(sel + rest)) == NotFound
  {
    PayloadAfterSelector(sel, rest);
    PayloadAfterPrefixedSelector(sel, rest);
    BadOffsetWordFails(rest, i);
  }

  /** The same for a non-hex character in the length word the offset word
      points to. */
  lemma {:induction false} GarbageLengthNotFound(status: int, sel: string, rest: string, j: nat)
    requires status != 0 && IsSelector(sel)
    requires WordChars <= |rest| && ParseNat(rest[..WordChars]).Some?
    requires j < WordChars
    requires 2 * ParseNat(rest[..WordChars]).value + WordChars <= |rest|
    requires !IsHexDigit(rest[2 * ParseNat(rest[..WordChars]).value + j])
    ensures TryResolveRevertMessage(status, Some("0x" + sel + rest)) == NotFound
    ensures TryResolveRevertMessage(status, Some(sel + rest)) == NotFound
  {
    PayloadAfterSelector(sel, rest);
    PayloadAfterPrefixedSelector(sel, rest);
    BadLengthWordFails(rest, j);
  }
}
