/** The Solidity contract ABI layout of a one-element tuple holding a dynamic
    `string`, in hex text: a 32-byte offset word, at that offset a 32-byte
    length word, then the bytes of the string right-padded to a whole number
    of 32-byte words. */
module Abi {
  import opened Hex

  /** Hex characters in one 32-byte word. */
  const WordChars: nat := 64

  /** The largest length a word can hold, plus one. */
  function WordLimit(): nat {
    Pow16(WordChars)
  }

  /** Zero bytes added after a payload of n bytes to reach a whole word. */
  function PadLength(n: nat): (k: nat)
    ensures k < 32 && (n + k) % 32 == 0
  {
    if n % 32 == 0 then 0 else 32 - n % 32
  }

  function Zeros(k: nat): (s: string)
    ensures |s| == k && forall i :: 0 <= i < k ==> s[i] == '0'
  {
    if k == 0 then [] else Zeros(k - 1) + "0"
  }

  /** Decodes the string element of the tuple: reads the offset word, the
      length word at that offset (in bytes, so twice as many hex characters)
      and that many bytes after it. None when the text is too short for what
      the words announce, or a character read is not a hex digit. Text after
      the last byte read (the padding) is not inspected. */
  function DecodeString(payload: string): (r: Option<seq<byte>>)
    ensures |payload| < WordChars ==> r.None?
    ensures r.Some? ==> WordChars + 2 * |r.value| <= |payload|
  {
    if |payload| < WordChars then None
    else
      match ParseNat(payload[..WordChars])
      case None => None
      case Some(offset) =>
        var lengthAt := 2 * offset;
        if lengthAt + WordChars > |payload| then None
        else
          match ParseNat(payload[lengthAt..lengthAt + WordChars])
          case None => None
          case Some(len) =>
            var dataAt := lengthAt + WordChars;
            if dataAt + 2 * len > |payload| then None
            else ParseBytes(payload[dataAt..dataAt + 2 * len])
  }

  /** The canonical encoding of a single string: offset 32, the length, the
      bytes, zero padding. */
  function EncodeString(m: seq<byte>): (s: string)
    requires |m| < WordLimit()
    ensures |s| == 2 * WordChars + 2 * (|m| + PadLength(|m|))
  {
    FormatNat(32, WordChars) + FormatNat(|m|, WordChars) + FormatBytes(m) + Zeros(2 * PadLength(|m|))
  }

  /** An encoding is hex text throughout. */
  lemma EncodeStringIsHex(m: seq<byte>)
    requires |m| < WordLimit()
    ensures AllHex(EncodeString(m))
  {
    var a, b, c, z := FormatNat(32, WordChars), FormatNat(|m|, WordChars), FormatBytes(m), Zeros(2 * PadLength(|m|));
    FormatNatIsHex(32, WordChars);
    FormatNatIsHex(|m|, WordChars);
    FormatBytesIsHex(m);
    AllHexConcat(a, b);
    AllHexConcat(a + b, c);
    AllHexConcat(a + b + c, z);
  }

  /** An encoding is a whole number of 32-byte words. */
  lemma EncodeStringWords(m: seq<byte>)
    requires |m| < WordLimit()
    ensures |EncodeString(m)| % WordChars == 0
  {
    WholeWords(|m| + PadLength(|m|));
  }

  lemma WholeWords(n: nat)
    requires n % 32 == 0
    ensures (2 * WordChars + 2 * n) % WordChars == 0
  {
    var q := n / 32;
    assert n == 32 * q;
    assert 2 * WordChars + 2 * n == WordChars * (2 + q);
  }

  lemma {:induction false} Pow16AtLeast(w: nat)
    requires w >= 2
    ensures Pow16(w) >= 256
  {
    if w > 2 { Pow16AtLeast(w - 1); }
  }

  lemma WordLimitLarge()
    ensures WordLimit() > 256
  {
    Pow16AtLeast(WordChars);
  }

  /** The words and the data of an encoding sit where the decoder looks. */
  lemma {:induction false} EncodeStringParts(m: seq<byte>, tail: string)
    requires |m| < WordLimit()
    ensures var p := EncodeString(m) + tail;
      && p[..WordChars] == FormatNat(32, WordChars)
      && p[WordChars..2 * WordChars] == FormatNat(|m|, WordChars)
      && p[2 * WordChars..2 * WordChars + 2 * |m|] == FormatBytes(m)
  {
    var a, b, c, z := FormatNat(32, WordChars), FormatNat(|m|, WordChars), FormatBytes(m), Zeros(2 * PadLength(|m|));
    assert EncodeString(m) + tail == a + b + c + (z + tail);
    SlicesOfConcat(a, b, c, z + tail);
  }

  /** Where the first three pieces of a concatenation sit. */
  lemma SlicesOfConcat<T>(a: seq<T>, b: seq<T>, c: seq<T>, d: seq<T>)
    ensures var p := a + b + c + d;
      && p[..|a|] == a
      && p[|a|..|a| + |b|] == b
      && p[|a| + |b|..|a| + |b| + |c|] == c
  {
  }

  /** The decoder succeeds when the offset word, the length word it points
      to and the data after it all read. */
  lemma {:induction false} DecodeStringReads(payload: string, offset: nat, len: nat, m: seq<byte>)
    requires 2 * offset + WordChars + 2 * len <= |payload|
    requires ParseNat(payload[..WordChars]) == Some(offset)
    requires ParseNat(payload[2 * offset..2 * offset + WordChars]) == Some(len)
    requires ParseBytes(payload[2 * offset + WordChars..2 * offset + WordChars + 2 * len]) == Some(m)
    ensures DecodeString(payload) == Some(m)
  {
  }

  lemma {:induction false} EncodedOffsetWord(m: seq<byte>, tail: string)
    requires |m| < WordLimit()
    ensures ParseNat((EncodeString(m) + tail)[..WordChars]) == Some(32)
  {
    EncodeStringParts(m, tail);
    WordLimitLarge();
    ParseFormatNat(32, WordChars);
  }

  lemma {:induction false} EncodedLengthWord(m: seq<byte>, tail: string)
    requires |m| < WordLimit()
    ensures ParseNat((EncodeString(m) + tail)[WordChars..2 * WordChars]) == Some(|m|)
  {
    EncodeStringParts(m, tail);
    ParseFormatNat(|m|, WordChars);
  }

  lemma {:induction false} EncodedData(m: seq<byte>, tail: string)
    requires |m| < WordLimit()
    ensures ParseBytes((EncodeString(m) + tail)[2 * WordChars..2 * WordChars + 2 * |m|]) == Some(m)
  {
    EncodeStringParts(m, tail);
    ParseFormatBytes(m);
  }

  /** Round trip, also with any text after the encoding. */
  lemma {:induction false} DecodeEncode(m: seq<byte>, tail: string)
    requires |m| < WordLimit()
    ensures DecodeString(EncodeString(m) + tail) == Some(m)
  {
    EncodedOffsetWord(m, tail);
    EncodedLengthWord(m, tail);
    EncodedData(m, tail);
    DecodeStringReads(EncodeString(m) + tail, 32, |m|, m);
  }

  /** Truncating an encoding anywhere before its last data byte makes the
      decode fail. */
  lemma {:induction false} TruncatedFails(m: seq<byte>, k: nat)
    requires |m| < WordLimit()
    requires k < 2 * WordChars + 2 * |m|
    ensures DecodeString(EncodeString(m)[..k]) == None
  {
    var e := EncodeString(m);
    var p := e[..k];
    if k >= WordChars {
      EncodeStringParts(m, []);
      assert e + [] == e;
      assert p[..WordChars] == e[..WordChars];
      WordLimitLarge();
      ParseFormatNat(32, WordChars);
      if k >= 2 * WordChars {
        assert p[WordChars..2 * WordChars] == e[WordChars..2 * WordChars];
        ParseFormatNat(|m|, WordChars);
      }
    }
  }

  /** A non-hex character in the offset word makes the decode fail. */
  lemma BadOffsetWordFails(payload: string, i: nat)
    requires i < WordChars <= |payload|
    requires !IsHexDigit(payload[i])
    ensures DecodeString(payload) == None
  {
    assert payload[..WordChars][i] == payload[i];
    ParseNatDefined(payload[..WordChars]);
  }

  /** A non-hex character in the length word makes the decode fail. */
  lemma {:induction false} BadLengthWordFails(payload: string, j: nat)
    requires WordChars <= |payload| && ParseNat(payload[..WordChars]).Some?
    requires j < WordChars
    requires 2 * ParseNat(payload[..WordChars]).value + WordChars <= |payload|
    requires !IsHexDigit(payload[2 * ParseNat(payload[..WordChars]).value + j])
    ensures DecodeString(payload) == None
  {
    var at := 2 * ParseNat(payload[..WordChars]).value;
    assert payload[at..at + WordChars][j] == payload[at + j];
    ParseNatDefined(payload[at..at + WordChars]);
  }

  /** Conversely to DecodeStringReads: a successful decode read a length word
      equal to the message's length, at the offset the first word names, and
      the message's bytes right after it. */
  lemma {:induction false} DecodeStringLayout(payload: string, m: seq<byte>)
    requires DecodeString(payload) == Some(m)
    ensures WordChars <= |payload| && ParseNat(payload[..WordChars]).Some?
    ensures var o := ParseNat(payload[..WordChars]).value;
      && 2 * o + WordChars + 2 * |m| <= |payload|
      && ParseNat(payload[2 * o..2 * o + WordChars]) == Some(|m|)
      && ParseBytes(payload[2 * o + WordChars..2 * o + WordChars + 2 * |m|]) == Some(m)
  {
  }

  /** An offset word pointing past the end of the text makes the decode fail. */
  lemma {:induction false} OffsetOutOfRangeFails(payload: string)
    requires WordChars <= |payload|
    requires ParseNat(payload[..WordChars]).Some?
    requires 2 * ParseNat(payload[..WordChars]).value + WordChars > |payload|
    ensures DecodeString(payload) == None
  {
  }
}
