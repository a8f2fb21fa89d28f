/** Hexadecimal text: the "0x" prefix, hex digits, fixed-width unsigned words
    and byte strings, as the revert decoder reads them from a receipt's output. */
module Hex {

  datatype Option<+T> = None | Some(value: T)

  type byte = x: int | 0 <= x < 256

  /** Java's String.startsWith. */
  predicate StartsWith(s: string, prefix: string) {
    |prefix| <= |s| && s[..|prefix|] == prefix
  }

  /** Hex.trimPrefix. Its source is not part of this model; it is assumed to
      remove one leading lower-case "0x" and to leave every other string as it is. */
  function TrimPrefix(s: string): (r: string)
    ensures StartsWith(s, "0x") ==> s == "0x" + r
    ensures !StartsWith(s, "0x") ==> r == s
  {
    if StartsWith(s, "0x") then s[2..] else s
  }

  predicate IsHexDigit(c: char) {
    '0' <= c <= '9' || 'a' <= c <= 'f' || 'A' <= c <= 'F'
  }

  predicate AllHex(s: string) {
    forall i :: 0 <= i < |s| ==> IsHexDigit(s[i])
  }

  /** The value of one hex digit, either case. */
  function DigitValue(c: char): (v: nat)
    requires IsHexDigit(c)
    ensures v < 16
  {
    if '0' <= c <= '9' then c as int - '0' as int
    else if 'a' <= c <= 'f' then c as int - 'a' as int + 10
    else c as int - 'A' as int + 10
  }

  /** The lower-case digit for a value below 16. */
  function Digit(v: nat): (c: char)
    requires v < 16
    ensures IsHexDigit(c) && DigitValue(c) == v
    ensures '0' <= c <= '9' || 'a' <= c <= 'f'
  {
    if v < 10 then ('0' as int + v) as char else ('a' as int + v - 10) as char
  }

  function Pow16(w: nat): (p: nat)
    ensures p >= 1
  {
    if w == 0 then 1 else 16 * Pow16(w - 1)
  }

  /** A big-endian unsigned number written in hex, of any size; None when a
      character is not a hex digit (ParseNatDefined). The library decoder
      that reads the receipt's words is not part of this model: rejecting a
      non-hex character, rather than reading it as some digit value, and
      never wrapping a large number, are assumptions of the model. */
  function ParseNat(s: string): Option<nat> {
    if s == [] then Some(0)
    else
      match ParseNat(s[..|s| - 1])
      case None => None
      case Some(high) =>
        if IsHexDigit(s[|s| - 1]) then Some(16 * high + DigitValue(s[|s| - 1])) else None
  }

  /** n written as exactly w lower-case hex digits, big-endian, truncated to
      its w lowest digits. */
  function FormatNat(n: nat, w: nat): (s: string)
    ensures |s| == w
  {
    if w == 0 then [] else FormatNat(n / 16, w - 1) + [Digit(n % 16)]
  }

  /** Bytes from hex text, two digits per byte, high digit first; None on an
      odd length or a non-hex character (ParseBytesDefined). As for ParseNat,
      the strict reading is an assumption of the model. */
  function ParseBytes(s: string): (r: Option<seq<byte>>)
    ensures r.Some? ==> |s| == 2 * |r.value|
  {
    if s == [] then Some([])
    else if |s| == 1 || !IsHexDigit(s[0]) || !IsHexDigit(s[1]) then None
    else
      match ParseBytes(s[2..])
      case None => None
      case Some(rest) => Some([16 * DigitValue(s[0]) + DigitValue(s[1])] + rest)
  }

  /** Bytes as lower-case hex text, two digits per byte. */
  function FormatBytes(b: seq<byte>): (s: string)
    ensures |s| == 2 * |b|
  {
    if b == [] then [] else [Digit(b[0] / 16), Digit(b[0] % 16)] + FormatBytes(b[1..])
  }

  /** A number parses exactly when every character is a hex digit. */
  lemma {:induction false} ParseNatDefined(s: string)
    ensures ParseNat(s).Some? <==> AllHex(s)
  {
    if s != [] {
      var init := s[..|s| - 1];
      ParseNatDefined(init);
      assert AllHex(s) <==> AllHex(init) && IsHexDigit(s[|s| - 1]) by {
        if AllHex(init) && IsHexDigit(s[|s| - 1]) {
          forall i | 0 <= i < |s| ensures IsHexDigit(s[i]) {
            if i < |s| - 1 { assert s[i] == init[i]; }
          }
        }
        if AllHex(s) {
          forall i | 0 <= i < |init| ensures IsHexDigit(init[i]) { assert init[i] == s[i]; }
        }
      }
    }
  }

  /** Bytes parse exactly when the text has an even number of hex digits. */
  lemma {:induction false} ParseBytesDefined(s: string)
    ensures ParseBytes(s).Some? <==> |s| % 2 == 0 && AllHex(s)
  {
    if |s| >= 2 {
      var rest := s[2..];
      ParseBytesDefined(rest);
      assert AllHex(s) <==> IsHexDigit(s[0]) && IsHexDigit(s[1]) && AllHex(rest) by {
        if IsHexDigit(s[0]) && IsHexDigit(s[1]) && AllHex(rest) {
          forall i | 0 <= i < |s| ensures IsHexDigit(s[i]) {
            if i >= 2 { assert s[i] == rest[i - 2]; }
          }
        }
        if AllHex(s) {
          forall i | 0 <= i < |rest| ensures IsHexDigit(rest[i]) { assert rest[i] == s[i + 2]; }
        }
      }
    } else if |s| == 1 {
      assert !(|s| % 2 == 0);
    }
  }

  lemma AllHexConcat(a: string, b: string)
    requires AllHex(a) && AllHex(b)
    ensures AllHex(a + b)
  {
    forall i | 0 <= i < |a + b| ensures IsHexDigit((a + b)[i]) {
      if i >= |a| { assert (a + b)[i] == b[i - |a|]; }
    }
  }

  /** Formatting writes hex digits only. */
  lemma {:induction false} FormatNatIsHex(n: nat, w: nat)
    ensures AllHex(FormatNat(n, w))
  {
    if w > 0 {
      var s := FormatNat(n, w);
      FormatNatIsHex(n / 16, w - 1);
      assert s == FormatNat(n / 16, w - 1) + [Digit(n % 16)];
    }
  }

  lemma {:induction false} FormatBytesIsHex(b: seq<byte>)
    ensures AllHex(FormatBytes(b))
  {
    if b != [] {
      var s := FormatBytes(b);
      FormatBytesIsHex(b[1..]);
      assert s == [Digit(b[0] / 16), Digit(b[0] % 16)] + FormatBytes(b[1..]);
    }
  }

  lemma {:induction false} ParseFormatNat(n: nat, w: nat)
    requires n < Pow16(w)
    ensures ParseNat(FormatNat(n, w)) == Some(n)
  {
    if w > 0 {
      var s := FormatNat(n, w);
      var high, low := n / 16, n % 16;
      assert high < Pow16(w - 1);
      ParseFormatNat(high, w - 1);
      assert s[..|s| - 1] == FormatNat(high, w - 1);
      assert s[|s| - 1] == Digit(low);
      assert n == 16 * high + low;
    }
  }

  lemma {:induction false} ParseFormatBytes(b: seq<byte>)
    ensures ParseBytes(FormatBytes(b)) == Some(b)
  {
    if b != [] {
      var s := FormatBytes(b);
      var hi, lo := b[0] / 16, b[0] % 16;
      assert s[0] == Digit(hi) && s[1] == Digit(lo);
      assert s[2..] == FormatBytes(b[1..]);
      ParseFormatBytes(b[1..]);
      assert 16 * DigitValue(s[0]) + DigitValue(s[1]) == b[0];
      assert [b[0]] + b[1..] == b;
    }
  }

  lemma {:induction false} TrimPrefixAddsBack(t: string)
    ensures TrimPrefix("0x" + t) == t
  {
    assert StartsWith("0x" + t, "0x");
    assert ("0x" + t)[2..] == t;
  }

  /** trimPrefix removes one prefix only, so it is not idempotent. */
  lemma TrimPrefixOnce(t: string)
    ensures TrimPrefix("0x0x" + t) == "0x" + t
  {
    assert "0x0x" + t == "0x" + ("0x" + t);
    TrimPrefixAddsBack("0x" + t);
  }
}
