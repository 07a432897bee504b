/**
 * The encodings a cell table can display and the conversion between a
 * table's text and raw bytes.  Hexadecimal is modelled concretely (Base16,
 * section 8 of RFC 4648, as Python's bytes.hex and binascii.unhexlify do it);
 * UTF-8, Base32 and Base64 are library calls and enter the model as the
 * function values of a `Library`.
 */
module Codec {
  import opened Wrappers

  type byte = b: int | 0 <= b < 256

  /** The encoding tags a table can carry: 'UTF-8', 'Hex', 'Base32', 'Base64'. */
  datatype Encoding = Utf8 | Hex | Base32 | Base64

  /**
   * The library codecs the source calls.  A decoder that can raise returns
   * None for a rejected input.  `utf8Encode` is total: a Dafny string holds
   * Unicode scalar values only, and those always encode.
   */
  datatype Library = Library(
    utf8Encode: string -> seq<byte>,          // bytes(data, 'UTF-8')
    utf8Decode: seq<byte> -> Option<string>,  // binaryData.decode('utf8')
    b32encode: seq<byte> -> string,           // base64.b32encode(b).decode('utf-8')
    b32decode: string -> Option<seq<byte>>,   // base64.b32decode(s)
    b64encode: seq<byte> -> string,           // base64.b64encode(b).decode('utf-8')
    b64decode: string -> Option<seq<byte>>)   // base64.b64decode(s)

  /** The digit bytes.hex() writes for a nibble: lower-case only. */
  function HexChar(d: nat): (c: char)
    requires d < 16
    ensures IsLowerHexDigit(c) && IsHexDigit(c) && HexValue(c) == d
  {
    if d < 10 then ('0' as int + d) as char else ('a' as int + d - 10) as char
  }

  /** A character unhexlify accepts: either case. */
  predicate IsHexDigit(c: char) {
    ('0' <= c <= '9') || ('a' <= c <= 'f') || ('A' <= c <= 'F')
  }

  function HexValue(c: char): (v: nat)
    requires IsHexDigit(c)
    ensures v < 16
  {
    if '0' <= c <= '9' then c as int - '0' as int
    else if 'a' <= c <= 'f' then c as int - 'a' as int + 10
    else c as int - 'A' as int + 10
  }

  /** Text unhexlify accepts: an even number of hexadecimal digits. */
  predicate IsHexText(s: string) {
    |s| % 2 == 0 && forall i :: 0 <= i < |s| ==> IsHexDigit(s[i])
  }

  /** A character bytes.hex() writes. */
  predicate IsLowerHexDigit(c: char) {
    ('0' <= c <= '9') || ('a' <= c <= 'f')
  }

  /** Text bytes.hex() can produce: an even number of lower-case digits. */
  predicate IsLowerHexText(s: string) {
    |s| % 2 == 0 && forall i :: 0 <= i < |s| ==> IsLowerHexDigit(s[i])
  }

  lemma LowerHexDigit(c: char)
    requires IsLowerHexDigit(c)
    ensures IsHexDigit(c) && HexValue(c) < 16 && HexChar(HexValue(c)) == c
  {
  }

  /** bytes.hex(): two lower-case digits per byte, high nibble first. */
  function EncodeHex(b: seq<byte>): (s: string)
    ensures |s| == 2 * |b|
    ensures IsLowerHexText(s)
  {
    if b == [] then []
    else [HexChar(b[0] / 16), HexChar(b[0] % 16)] + EncodeHex(b[1..])
  }

  /** binascii.unhexlify: fails on an odd length or on any character that is not a hexadecimal digit. */
  function DecodeHex(s: string): (r: Result<seq<byte>, Error>)
    ensures r.Success? <==> IsHexText(s)
    ensures r.Success? ==> 2 * |r.value| == |s|
    ensures r.Failure? ==> r.error == InvalidHex
    decreases |s|
  {
    if |s| % 2 == 1 then Failure(InvalidHex)
    else if s == [] then Success([])
    else if !IsHexDigit(s[0]) || !IsHexDigit(s[1]) then Failure(InvalidHex)
    else
      match DecodeHex(s[2..])
      case Failure(e) => Failure(e)
      case Success(rest) =>
        assert forall i :: 2 <= i < |s| ==> s[i] == s[2..][i - 2];
        Success([HexValue(s[0]) * 16 + HexValue(s[1])] + rest)
  }

  /** Decoding what bytes.hex() wrote gives the bytes back. */
  lemma {:induction false} HexRoundTrip(b: seq<byte>)
    ensures DecodeHex(EncodeHex(b)) == Success(b)
  {
    if b != [] {
      HexRoundTrip(b[1..]);
      var s := EncodeHex(b);
      assert s == [HexChar(b[0] / 16), HexChar(b[0] % 16)] + EncodeHex(b[1..]);
      assert s[0] == HexChar(b[0] / 16) && s[1] == HexChar(b[0] % 16);
      assert s[2..] == EncodeHex(b[1..]);
      assert HexValue(s[0]) * 16 + HexValue(s[1]) == b[0];
      assert DecodeHex(s) == Success([b[0]] + b[1..]);
      assert [b[0]] + b[1..] == b;
    }
  }

  lemma LowerHexTail(s: string)
    requires IsLowerHexText(s) && s != []
    ensures |s| >= 2 && IsLowerHexText(s[2..]) && IsLowerHexDigit(s[0]) && IsLowerHexDigit(s[1])
  {
    forall i | 0 <= i < |s[2..]| ensures IsLowerHexDigit(s[2..][i]) { assert s[2..][i] == s[i + 2]; }
  }

  lemma LowerIsHex(s: string)
    requires IsLowerHexText(s)
    ensures IsHexText(s)
  {
    forall i | 0 <= i < |s| ensures IsHexDigit(s[i]) { LowerHexDigit(s[i]); }
  }

  lemma NibbleSplit(hi: nat, lo: nat)
    requires hi < 16 && lo < 16
    ensures (hi * 16 + lo) / 16 == hi && (hi * 16 + lo) % 16 == lo
  {
  }

  lemma EncodeHexCons(x: byte, rest: seq<byte>)
    ensures EncodeHex([x] + rest) == [HexChar(x / 16), HexChar(x % 16)] + EncodeHex(rest)
  {
    assert ([x] + rest)[1..] == rest;
  }

  lemma DecodeHexCons(s: string)
    requires IsHexText(s) && s != []
    ensures |s| >= 2 && IsHexDigit(s[0]) && IsHexDigit(s[1])
    ensures DecodeHex(s) == Success([HexValue(s[0]) * 16 + HexValue(s[1])] + DecodeHex(s[2..]).value)
  {
  }

  /** Lower-case hexadecimal text is exactly what bytes.hex() writes for the bytes it decodes to. */
  lemma {:induction false} HexCanonical(s: string)
    requires IsLowerHexText(s)
    ensures DecodeHex(s).Success? && EncodeHex(DecodeHex(s).value) == s
  {
    LowerIsHex(s);
    if s != [] {
      LowerHexTail(s);
      HexCanonical(s[2..]);
      HexCanonicalStep(s);
    }
  }

  lemma HexCanonicalStep(s: string)
    requires IsLowerHexText(s) && s != []
    requires DecodeHex(s[2..]).Success? && EncodeHex(DecodeHex(s[2..]).value) == s[2..]
    ensures DecodeHex(s).Success? && EncodeHex(DecodeHex(s).value) == s
  {
    LowerIsHex(s);
    DecodeHexCons(s);
    DigitPair(s[0], s[1]);
    var rest := DecodeHex(s[2..]).value;
    var v := HexValue(s[0]) * 16 + HexValue(s[1]);
    EncodeHexCons(v, rest);
    SplitTwo(s);
  }

  /** Two lower-case digits make a byte whose nibbles bytes.hex() writes as the same two digits. */
  lemma DigitPair(c0: char, c1: char)
    requires IsLowerHexDigit(c0) && IsLowerHexDigit(c1)
    ensures IsHexDigit(c0) && IsHexDigit(c1)
    ensures var v := HexValue(c0) * 16 + HexValue(c1);
            0 <= v < 256 && HexChar(v / 16) == c0 && HexChar(v % 16) == c1
  {
    LowerHexDigit(c0);
    LowerHexDigit(c1);
    NibbleSplit(HexValue(c0), HexValue(c1));
  }

  lemma SplitTwo(s: string)
    requires |s| >= 2
    ensures [s[0], s[1]] + s[2..] == s
  {
  }

  /**
   * CustomTableWidget.decode: turns a table's text into bytes under its
   * encoding.  The Base64 branch hands the text over with every '=' still in
   * it, because the result of data.replace("=", "") is discarded.
   */
  function Decode(enc: Encoding, lib: Library, text: string): (r: Result<seq<byte>, Error>)
    ensures enc == Utf8 ==> r == Success(lib.utf8Encode(text))
    ensures enc == Hex ==> r == DecodeHex(text)
    ensures enc == Hex ==> (r.Success? <==> IsHexText(text))
    ensures enc == Hex && r.Success? ==> 2 * |r.value| == |text|
    ensures enc == Base32 ==> (r.Success? <==> lib.b32decode(text).Some?)
    ensures enc == Base32 && r.Success? ==> r.value == lib.b32decode(text).value
    ensures enc == Base64 ==> (r.Success? <==> lib.b64decode(text).Some?)
    ensures enc == Base64 && r.Success? ==> r.value == lib.b64decode(text).value
    ensures r.Failure? ==> enc != Utf8 && r.error == DecodeError(enc)
  {
    match enc
    case Utf8 => Success(lib.utf8Encode(text))
    case Hex => DecodeHex(text)
    case Base32 =>
      (match lib.b32decode(text)
       case None => Failure(InvalidBase32)
       case Some(b) => Success(b))
    case Base64 =>
      var kept := text;  // data.replace("=", "") is evaluated and thrown away
      (match lib.b64decode(kept)
       case None => Failure(InvalidBase64)
       case Some(b) => Success(b))
  }

  /**
   * The target side of convertToASCII/Hex/Base32/Base64: bytes to the text
   * the table will show.  Only the UTF-8 target can fail.
   */
  function Encode(target: Encoding, lib: Library, b: seq<byte>): (r: Result<string, Error>)
    ensures target != Utf8 ==> r.Success?
    ensures target == Utf8 ==> (r.Success? <==> lib.utf8Decode(b).Some?)
    ensures r.Failure? ==> r.error == InvalidUtf8
    ensures target == Hex ==> IsLowerHexText(r.value) && Decode(Hex, lib, r.value) == Success(b)
  {
    match target
    case Utf8 =>
      (match lib.utf8Decode(b)
       case None => Failure(InvalidUtf8)
       case Some(s) => Success(s))
    case Hex => HexRoundTrip(b); Success(EncodeHex(b))
    case Base32 => Success(lib.b32encode(b))
    case Base64 => Success(lib.b64encode(b))
  }

  /** The exception each decoder raises on input it rejects. */
  function DecodeError(enc: Encoding): Error {
    match enc
    case Utf8 => InvalidUtf8
    case Hex => InvalidHex
    case Base32 => InvalidBase32
    case Base64 => InvalidBase64
  }

  /**
   * Decode under the current encoding, then encode under the target.  Only
   * the decoding and the UTF-8 target can fail; a Hex target keeps the
   * bytes.
   */
  function Reencode(text: string, current: Encoding, target: Encoding, lib: Library): (r: Result<string, Error>)
    ensures Decode(current, lib, text).Failure? ==> r == Failure(DecodeError(current))
    ensures target != Utf8 ==> (r.Success? <==> Decode(current, lib, text).Success?)
    ensures r.Failure? ==> r.error == DecodeError(current) || r.error == InvalidUtf8
    ensures target == Hex && r.Success? ==>
              IsLowerHexText(r.value) && Decode(Hex, lib, r.value) == Decode(current, lib, text)
  {
    match Decode(current, lib, text)
    case Failure(e) => Failure(e)
    case Success(b) => Encode(target, lib, b)
  }

  /** Converting lower-case hex text from Hex to Hex gives the same text back. */
  lemma HexToHexUnchanged(text: string, lib: Library)
    requires IsLowerHexText(text)
    ensures Reencode(text, Hex, Hex, lib) == Success(text)
  {
    HexCanonical(text);
  }
}
