/** The percent encoder of UrlEncode.cs: the text is turned into its UTF-8 bytes, each byte
    in the unreserved set is kept and every other byte becomes `%XX` with upper-case hex
    (section 2.1 of RFC 3986). The encoded bytes are written into the front of the same
    buffer whose tail holds the UTF-8 bytes. */
module UrlEncode {
  import opened Wrappers
  import Text

  newtype byte = b: int | 0 <= b < 256

  const LowerLetters: string := "abcdefghijklmnopqrstuvwxyz"
  const UpperLetters: string := "ABCDEFGHIJKLMNOPQRSTUVWXYZ"
  const DecimalDigits: string := "0123456789"

  /** Line 29: the unreserved characters of section 2.3 of RFC 3986, the same 66 characters
      in the same order, written as four pieces. */
  const ValidUrlCharacters: string := LowerLetters + UpperLetters + DecimalDigits + "-_.~"

  /** Line 35: the unreserved characters of section 2.2 of RFC 1738. */
  const ValidUrlCharactersRFC1738: string := LowerLetters + UpperLetters + DecimalDigits + "-_."

  /** Line 44: the candidates for the path characters. */
  const BasePathCharacters: string := "/:'()!*[]$"

  /** Line 79: buffers up to this size live on the stack. */
  const MaxStackLimit: nat := 256

  const Percent: byte := 0x25

  /** A byte read as a character, as `(char)symbol` does. */
  function Char(b: byte): char {
    (b as int) as char
  }

  /** Line 117: `Encoding.UTF8.GetString` of the front of the buffer, which is all ASCII
      (`InPlaceFrontAscii`), so each byte is read back as one character. */
  function ToChars(bs: seq<byte>): (r: string)
    ensures |r| == |bs|
    ensures forall k :: 0 <= k < |bs| ==> r[k] == Char(bs[k])
  {
    seq(|bs|, k requires 0 <= k < |bs| => Char(bs[k]))
  }

  /** Every character is ASCII and none is '%'. */
  predicate AsciiWithoutPercent(u: string) {
    forall i :: 0 <= i < |u| ==> u[i] as int < 0x80 && u[i] != '%'
  }

  // ----- scheme selection -----

  /** Lines 56-72: the unreserved set of a scheme, or None for an unknown RFC number. */
  function TryGetRFCEncodingSchemes(rfcNumber: int): (r: Option<string>)
    ensures r.Some? <==> rfcNumber == 3986 || rfcNumber == 1738
    ensures rfcNumber == 3986 ==> r == Some(ValidUrlCharacters)
    ensures rfcNumber == 1738 ==> r == Some(ValidUrlCharactersRFC1738)
  {
    if rfcNumber == 3986 then Some(ValidUrlCharacters)
    else if rfcNumber == 1738 then Some(ValidUrlCharactersRFC1738)
    else None
  }

  /** Lines 82-86: the scheme's set, RFC 3986's for an unknown number, followed by the path
      characters when `path` is set. */
  function UnreservedCharacters(rfcNumber: int, path: bool, validPathCharacters: string): string {
    var validUrlCharacters :=
      match TryGetRFCEncodingSchemes(rfcNumber)
      case Some(scheme) => scheme
      case None => ValidUrlCharacters;
    validUrlCharacters + (if path then validPathCharacters else "")
  }

  /** An RFC number other than 3986 and 1738 encodes as 3986 does. */
  lemma UnknownSchemeFallsBack(rfcNumber: int, path: bool, validPathCharacters: string)
    requires rfcNumber != 3986 && rfcNumber != 1738
    ensures TryGetRFCEncodingSchemes(rfcNumber).None?
    ensures UnreservedCharacters(rfcNumber, path, validPathCharacters) == UnreservedCharacters(3986, path, validPathCharacters)
  {
  }

  /** Section 2.3 of RFC 3986: letters, digits, '-', '_', '.' and '~'. */
  predicate IsUnreservedRfc3986(c: char) {
    'a' <= c <= 'z' || 'A' <= c <= 'Z' || '0' <= c <= '9' || c == '-' || c == '_' || c == '.' || c == '~'
  }

  lemma LowerLettersAt(i: int)
    requires 0 <= i < 26
    ensures |LowerLetters| == 26 && LowerLetters[i] as int == 'a' as int + i
  {
  }

  lemma UpperLettersAt(i: int)
    requires 0 <= i < 26
    ensures |UpperLetters| == 26 && UpperLetters[i] as int == 'A' as int + i
  {
  }

  lemma DecimalDigitsAt(i: int)
    requires 0 <= i < 10
    ensures |DecimalDigits| == 10 && DecimalDigits[i] as int == '0' as int + i
  {
  }

  /** Where each piece of line 29 sits in the constant. */
  lemma ValidUrlCharactersAt(i: int)
    requires 0 <= i < |ValidUrlCharacters|
    ensures |ValidUrlCharacters| == 66
    ensures ValidUrlCharacters[i] ==
      if i < 26 then LowerLetters[i]
      else if i < 52 then UpperLetters[i - 26]
      else if i < 62 then DecimalDigits[i - 52]
      else "-_.~"[i - 62]
  {
    var l, u, d := LowerLetters, UpperLetters, DecimalDigits;
    assert |l| == 26 && |u| == 26 && |d| == 10;
    assert ValidUrlCharacters == l + u + d + "-_.~";
  }

  /** Every character of line 29 is unreserved in the sense of RFC 3986. */
  lemma ValidUrlCharactersUnreserved(i: int)
    requires 0 <= i < |ValidUrlCharacters|
    ensures IsUnreservedRfc3986(ValidUrlCharacters[i])
  {
    ValidUrlCharactersAt(i);
    if i < 26 {
      LowerLettersAt(i);
    } else if i < 52 {
      UpperLettersAt(i - 26);
    } else if i < 62 {
      DecimalDigitsAt(i - 52);
    }
  }

  /** Every character that RFC 3986 calls unreserved occurs in line 29. */
  lemma UnreservedInValidUrlCharacters(c: char)
    requires IsUnreservedRfc3986(c)
    ensures c in ValidUrlCharacters
  {
    var v := ValidUrlCharacters;
    var i :=
      if 'a' <= c <= 'z' then c as int - 'a' as int
      else if 'A' <= c <= 'Z' then 26 + c as int - 'A' as int
      else if '0' <= c <= '9' then 52 + c as int - '0' as int
      else if c == '-' then 62
      else if c == '_' then 63
      else if c == '.' then 64
      else 65;
    ValidUrlCharactersAt(i);
    if i < 26 {
      LowerLettersAt(i);
    } else if i < 52 {
      UpperLettersAt(i - 26);
    } else if i < 62 {
      DecimalDigitsAt(i - 52);
    }
    assert v[i] == c;
  }

  /** Line 35 is line 29 without its final '~'. */
  lemma Rfc1738Prefix()
    ensures ValidUrlCharacters == ValidUrlCharactersRFC1738 + "~"
  {
    var p := LowerLetters + UpperLetters + DecimalDigits;
    assert "-_." + "~" == "-_.~";
    assert ValidUrlCharactersRFC1738 + "~" == p + ("-_." + "~");
  }

  /** '~' occurs only at the end of line 29. */
  lemma TildeOnlyLast(i: int)
    requires 0 <= i < 65
    ensures ValidUrlCharacters[i] != '~'
  {
    ValidUrlCharactersAt(i);
    if i < 26 {
      LowerLettersAt(i);
    } else if i < 52 {
      UpperLettersAt(i - 26);
    } else if i < 62 {
      DecimalDigitsAt(i - 52);
    }
  }

  /** Line 29 holds exactly the unreserved characters of RFC 3986. */
  lemma ValidUrlCharactersExactly()
    ensures forall c :: c in ValidUrlCharacters <==> IsUnreservedRfc3986(c)
  {
    var v := ValidUrlCharacters;
    forall c ensures c in v <==> IsUnreservedRfc3986(c) {
      if IsUnreservedRfc3986(c) {
        UnreservedInValidUrlCharacters(c);
      }
      if c in v {
        var i :| 0 <= i < |v| && v[i] == c;
        ValidUrlCharactersUnreserved(i);
      }
    }
  }

  /** Line 35 holds exactly the characters of line 29 other than '~'. */
  lemma Rfc1738Exactly()
    ensures forall c :: c in ValidUrlCharactersRFC1738 <==> c in ValidUrlCharacters && c != '~'
  {
    var v, w := ValidUrlCharacters, ValidUrlCharactersRFC1738;
    Rfc1738Prefix();
    assert |v| == 66 by {
      ValidUrlCharactersAt(0);
    }
    forall c ensures c in w <==> c in v && c != '~' {
      if c in w {
        var i :| 0 <= i < |w| && w[i] == c;
        assert v[i] == c;
        TildeOnlyLast(i);
      }
      if c in v && c != '~' {
        var i :| 0 <= i < |v| && v[i] == c;
        assert i != 65;
        assert w[i] == c;
      }
    }
  }

  /** The two constants are exactly the unreserved sets, and RFC 1738's is RFC 3986's
      without '~'. */
  lemma SchemeCharacterSets()
    ensures forall c :: c in ValidUrlCharacters <==> IsUnreservedRfc3986(c)
    ensures ValidUrlCharacters == ValidUrlCharactersRFC1738 + "~"
    ensures forall c :: c in ValidUrlCharactersRFC1738 <==> c in ValidUrlCharacters && c != '~'
    ensures AsciiWithoutPercent(ValidUrlCharacters) && AsciiWithoutPercent(ValidUrlCharactersRFC1738)
  {
    var v, w := ValidUrlCharacters, ValidUrlCharactersRFC1738;
    Rfc1738Prefix();
    ValidUrlCharactersExactly();
    Rfc1738Exactly();
    forall i | 0 <= i < |v| ensures v[i] as int < 0x80 && v[i] != '%' {
      ValidUrlCharactersUnreserved(i);
    }
    assert forall i :: 0 <= i < |w| ==> w[i] == v[i];
  }

  // ----- hexadecimal digits -----

  predicate IsUpperHexDigit(c: char) {
    '0' <= c <= '9' || 'A' <= c <= 'F'
  }

  /** The value of an upper-case hex digit; the inverse of `ToUpperHex`. */
  function HexValue(c: char): (v: int)
    requires IsUpperHexDigit(c)
    ensures 0 <= v < 16
  {
    if c <= '9' then c as int - '0' as int else c as int - 'A' as int + 10
  }

  /** Lines 125-131: a nibble as an upper-case hex digit. */
  function ToUpperHex(value: int): (r: char)
    requires 0 <= value < 16
    ensures IsUpperHexDigit(r) && HexValue(r) == value
  {
    if value <= 9 then (value + '0' as int) as char else (value - 10 + 'A' as int) as char
  }

  /** `ToUpperHex` maps 0..15 one to one onto "0123456789ABCDEF", in that order. */
  lemma ToUpperHexBijective()
    ensures forall v :: 0 <= v < 16 ==> ToUpperHex(v) == "0123456789ABCDEF"[v]
    ensures forall c :: IsUpperHexDigit(c) ==> ToUpperHex(HexValue(c)) == c
    ensures forall v, w :: 0 <= v < 16 && 0 <= w < 16 && ToUpperHex(v) == ToUpperHex(w) ==> v == w
  {
  }

  // ----- UTF-8 and UTF-16 lengths -----

  /** The number of UTF-16 code units of a character: what C#'s `string.Length` counts. */
  function Utf16Units(c: char): nat {
    if c as int >= 0x10000 then 2 else 1
  }

  function Utf16Length(s: string): nat {
    if |s| == 0 then 0 else Utf16Length(s[..|s| - 1]) + Utf16Units(s[|s| - 1])
  }

  /** The UTF-8 bytes of one Unicode scalar value. */
  function Utf8Char(c: char): (r: seq<byte>)
    ensures 1 <= |r| <= 3 * Utf16Units(c)
    ensures c as int < 0x80 ==> r == [c as int as byte]
    ensures c as int >= 0x80 ==> forall k :: 0 <= k < |r| ==> r[k] >= 0x80
    ensures 0x800 <= c as int < 0x10000 ==> |r| == 3
  {
    var n := c as int;
    if n < 0x80 then [n as byte]
    else if n < 0x800 then [(0xC0 + n / 64) as byte, (0x80 + n % 64) as byte]
    else if n < 0x10000 then [(0xE0 + n / 4096) as byte, (0x80 + n / 64 % 64) as byte, (0x80 + n % 64) as byte]
    else [(0xF0 + n / 262144) as byte, (0x80 + n / 4096 % 64) as byte, (0x80 + n / 64 % 64) as byte, (0x80 + n % 64) as byte]
  }

  /** `Encoding.UTF8.GetBytes` of a text. */
  function Utf8(s: string): seq<byte> {
    if |s| == 0 then [] else Utf8(s[..|s| - 1]) + Utf8Char(s[|s| - 1])
  }

  /** Line 91: `Encoding.UTF8.GetMaxByteCount(charCount)`. */
  function MaxByteCount(charCount: nat): nat {
    3 * (charCount + 1)
  }

  /** `GetBytes` never writes more than `GetMaxByteCount` promises. */
  lemma {:induction false} Utf8Bound(s: string)
    ensures |Utf8(s)| <= 3 * Utf16Length(s) < MaxByteCount(Utf16Length(s))
  {
    if |s| > 0 {
      Utf8Bound(s[..|s| - 1]);
    }
  }

  /** ASCII text has one byte per UTF-16 unit, and the byte is the character. */
  lemma {:induction false} Utf8Ascii(s: string)
    requires forall i :: 0 <= i < |s| ==> s[i] as int < 0x80
    ensures |Utf8(s)| == Utf16Length(s) == |s|
    ensures forall k :: 0 <= k < |s| ==> Utf8(s)[k] as int == s[k] as int
  {
    if |s| > 0 {
      Utf8Ascii(s[..|s| - 1]);
    }
  }

  /** Text whose characters all take three UTF-8 bytes (U+0800..U+FFFF) has three bytes per
      UTF-16 unit, all of them 0x80 or above. */
  lemma {:induction false} Utf8ThreeByte(s: string)
    requires forall i :: 0 <= i < |s| ==> 0x800 <= s[i] as int < 0x10000
    ensures |Utf8(s)| == 3 * Utf16Length(s) == 3 * |s|
    ensures forall k :: 0 <= k < |Utf8(s)| ==> Utf8(s)[k] >= 0x80
  {
    if |s| > 0 {
      Utf8ThreeByte(s[..|s| - 1]);
    }
  }

  // ----- the encoding, as a function of the bytes -----

  /** Lines 101-115: one byte, kept when `(char)symbol` is unreserved, otherwise `%` and
      two hex digits, high nibble first. */
  function EncodeByte(symbol: byte, unreserved: string): (r: seq<byte>)
  {
    if Char(symbol) in unreserved then [symbol]
    else [Percent, ToUpperHex(symbol as int / 16) as int as byte, ToUpperHex(symbol as int % 16) as int as byte]
  }

  function EncodeBytes(bs: seq<byte>, unreserved: string): seq<byte> {
    if |bs| == 0 then [] else EncodeBytes(bs[..|bs| - 1], unreserved) + EncodeByte(bs[|bs| - 1], unreserved)
  }

  /** The encoded text `After` returns for a text of the given scheme. */
  function Encode(rfcNumber: int, data: string, path: bool, validPathCharacters: string): string {
    ToChars(EncodeBytes(Utf8(data), UnreservedCharacters(rfcNumber, path, validPathCharacters)))
  }

  function EscapedCount(bs: seq<byte>, unreserved: string): nat {
    if |bs| == 0 then 0
    else EscapedCount(bs[..|bs| - 1], unreserved) + (if Char(bs[|bs| - 1]) in unreserved then 0 else 1)
  }

  /** The output holds every byte once, plus two hex digits per escaped byte. */
  lemma {:induction false} EncodedLength(bs: seq<byte>, unreserved: string)
    ensures |EncodeBytes(bs, unreserved)| == |bs| + 2 * EscapedCount(bs, unreserved)
    ensures |EncodeBytes(bs, unreserved)| <= 3 * |bs|
  {
    if |bs| > 0 {
      EncodedLength(bs[..|bs| - 1], unreserved);
    }
  }

  /** Encoding distributes over concatenation. */
  lemma {:induction false} EncodeBytesAppend(a: seq<byte>, b: seq<byte>, unreserved: string)
    ensures EncodeBytes(a + b, unreserved) == EncodeBytes(a, unreserved) + EncodeBytes(b, unreserved)
  {
    if |b| == 0 {
      assert a + b == a;
    } else {
      var b', x := b[..|b| - 1], b[|b| - 1];
      assert (a + b)[..|a + b| - 1] == a + b';
      assert (a + b)[|a + b| - 1] == x;
      EncodeBytesAppend(a, b', unreserved);
      calc {
        EncodeBytes(a + b, unreserved);
        EncodeBytes(a + b', unreserved) + EncodeByte(x, unreserved);
        EncodeBytes(a, unreserved) + EncodeBytes(b', unreserved) + EncodeByte(x, unreserved);
        EncodeBytes(a, unreserved) + EncodeBytes(b, unreserved);
      }
    }
  }


  /** Every byte of 0x80 or above is escaped when the unreserved set is ASCII. */
  lemma HighByteEscaped(symbol: byte, unreserved: string)
    requires symbol >= 0x80
    requires AsciiWithoutPercent(unreserved)
    ensures |EncodeByte(symbol, unreserved)| == 3 && EncodeByte(symbol, unreserved)[0] == Percent
    ensures EncodeByte(symbol, unreserved)[1] >= '8' as int as byte
  {
    assert forall i :: 0 <= i < |unreserved| ==> unreserved[i] != Char(symbol);
  }

  /** Bytes that are all 0x80 or above are all escaped. */
  lemma {:induction false} HighBytesTriple(bs: seq<byte>, unreserved: string)
    requires forall k :: 0 <= k < |bs| ==> bs[k] >= 0x80
    requires AsciiWithoutPercent(unreserved)
    ensures |EncodeBytes(bs, unreserved)| == 3 * |bs|
  {
    if |bs| > 0 {
      HighBytesTriple(bs[..|bs| - 1], unreserved);
      HighByteEscaped(bs[|bs| - 1], unreserved);
    }
  }

  /** Every output character is unreserved, '%' or an upper-case hex digit, and with an
      ASCII unreserved set the output is ASCII, so `GetString` reads it back unchanged. */
  lemma {:induction false} EncodedAlphabet(bs: seq<byte>, unreserved: string)
    requires AsciiWithoutPercent(unreserved)
    ensures forall k :: 0 <= k < |EncodeBytes(bs, unreserved)| ==>
      var c := Char(EncodeBytes(bs, unreserved)[k]);
      (c in unreserved || c == '%' || IsUpperHexDigit(c)) && c as int < 0x80
  {
    if |bs| > 0 {
      EncodedAlphabet(bs[..|bs| - 1], unreserved);
      var e := EncodeBytes(bs, unreserved);
      var p := EncodeBytes(bs[..|bs| - 1], unreserved);
      var last := EncodeByte(bs[|bs| - 1], unreserved);
      forall k | 0 <= k < |e|
        ensures var c := Char(e[k]); (c in unreserved || c == '%' || IsUpperHexDigit(c)) && c as int < 0x80
      {
        if k >= |p| {
          var c := Char(e[k]);
          assert e[k] == last[k - |p|];
          if c in unreserved {
            var i :| 0 <= i < |unreserved| && unreserved[i] == c;
          }
        } else {
          assert e[k] == p[k];
        }
      }
    }
  }

  // ----- decoding, the inverse -----

  /** Percent-decoding to bytes: `%XX` with upper-case hex digits is one byte, every other
      character stands for its own UTF-8 bytes. */
  function PercentDecode(s: string): seq<byte>
    decreases |s|
  {
    if |s| == 0 then []
    else if |s| >= 3 && s[0] == '%' && IsUpperHexDigit(s[1]) && IsUpperHexDigit(s[2]) then
      [(16 * HexValue(s[1]) + HexValue(s[2])) as byte] + PercentDecode(s[3..])
    else Utf8Char(s[0]) + PercentDecode(s[1..])
  }

  /** Decoding the encoding of one byte gives that byte back. */
  lemma DecodeEncodedByte(symbol: byte, unreserved: string, rest: string)
    requires AsciiWithoutPercent(unreserved)
    ensures PercentDecode(ToChars(EncodeByte(symbol, unreserved)) + rest) == [symbol] + PercentDecode(rest)
  {
    var t := ToChars(EncodeByte(symbol, unreserved)) + rest;
    if Char(symbol) in unreserved {
      var i :| 0 <= i < |unreserved| && unreserved[i] == Char(symbol);
      assert t[0] == Char(symbol) && t[1..] == rest;
    } else {
      assert t[3..] == rest;
      var hi, lo := ToUpperHex(symbol as int / 16), ToUpperHex(symbol as int % 16);
      assert t[1] == hi && t[2] == lo;
    }
  }

  /** Decoding the output recovers exactly the bytes that were encoded. */
  lemma {:induction false} DecodeEncodeBytes(bs: seq<byte>, unreserved: string)
    requires AsciiWithoutPercent(unreserved)
    ensures PercentDecode(ToChars(EncodeBytes(bs, unreserved))) == bs
  {
    if |bs| > 0 {
      var x, tail := bs[0], bs[1..];
      EncodeBytesCons(bs, unreserved);
      ToCharsAppend(EncodeByte(x, unreserved), EncodeBytes(tail, unreserved));
      DecodeEncodedByte(x, unreserved, ToChars(EncodeBytes(tail, unreserved)));
      DecodeEncodeBytes(tail, unreserved);
      Text.FirstSplit(bs);
    }
  }

  /** Encoding a non-empty byte sequence starts with the encoding of its first byte. */
  lemma EncodeBytesCons(bs: seq<byte>, unreserved: string)
    requires |bs| > 0
    ensures EncodeBytes(bs, unreserved) == EncodeByte(bs[0], unreserved) + EncodeBytes(bs[1..], unreserved)
  {
    var x, rest := bs[0], bs[1..];
    Text.FirstSplit(bs);
    EncodeBytesAppend([x], rest, unreserved);
    EncodeBytesSingle(x, unreserved);
    EncodeBytesSame([x] + rest, bs, unreserved);
  }

  lemma EncodeBytesSingle(x: byte, unreserved: string)
    ensures EncodeBytes([x], unreserved) == EncodeByte(x, unreserved)
  {
    assert [x][..0] == [];
  }

  /** Equal byte sequences encode equally; a lemma so that the solver does not unfold
      `EncodeBytes` while it proves the two sequences equal. */
  lemma EncodeBytesSame(s: seq<byte>, t: seq<byte>, unreserved: string)
    requires s == t
    ensures EncodeBytes(s, unreserved) == EncodeBytes(t, unreserved)
  {
  }

  lemma ToCharsAppend(a: seq<byte>, b: seq<byte>)
    ensures ToChars(a + b) == ToChars(a) + ToChars(b)
  {
  }


  /** Decoding the output of the encoder recovers exactly the UTF-8 bytes of its input. */
  lemma EncodeRoundTrip(rfcNumber: int, data: string, path: bool, escapeUriString: string -> string)
    ensures PercentDecode(Encode(rfcNumber, data, path, PathCharacters(escapeUriString))) == Utf8(data)
  {
    UnreservedIsAscii(rfcNumber, path, escapeUriString);
    DecodeEncodeBytes(Utf8(data), UnreservedCharacters(rfcNumber, path, PathCharacters(escapeUriString)));
  }

  // ----- the path characters -----

  /** Line 50: `Uri.EscapeUriString` leaves the one-character text `[c]` as it is. */
  predicate EscapesToItself(escapeUriString: string -> string, c: char) {
    var escaped := escapeUriString([c]);
    |escaped| == 1 && escaped[0] == c
  }

  /** The characters of `s` that `Uri.EscapeUriString` leaves alone, in order. */
  function KeptByEscaping(s: string, escapeUriString: string -> string): string {
    if |s| == 0 then ""
    else
      var init, c := s[..|s| - 1], s[|s| - 1];
      KeptByEscaping(init, escapeUriString) + (if EscapesToItself(escapeUriString, c) then [c] else "")
  }

  /** Line 40: the path characters, fixed once by what `Uri.EscapeUriString` does. */
  function PathCharacters(escapeUriString: string -> string): string {
    KeptByEscaping(BasePathCharacters, escapeUriString)
  }

  /** Lines 42-54: the loop that builds the path characters. */
  method DetermineValidPathCharacters(escapeUriString: string -> string) returns (r: string)
    ensures r == PathCharacters(escapeUriString)
  {
    var basePathCharacters := BasePathCharacters;
    var sb := "";
    for k := 0 to |basePathCharacters|
      invariant sb == KeptByEscaping(basePathCharacters[..k], escapeUriString)
    {
      var c := basePathCharacters[k];
      assert basePathCharacters[..k + 1][..k] == basePathCharacters[..k];
      var escaped := escapeUriString([c]);
      if |escaped| == 1 && escaped[0] == c {
        sb := sb + [c];
      }
    }
    assert basePathCharacters[..|basePathCharacters|] == basePathCharacters;
    r := sb;
  }

  /** What is kept is exactly the characters of `s` that escape to themselves. */
  lemma {:induction false} KeptByEscapingMembers(s: string, escapeUriString: string -> string)
    ensures |KeptByEscaping(s, escapeUriString)| <= |s|
    ensures forall c :: c in KeptByEscaping(s, escapeUriString) <==> c in s && EscapesToItself(escapeUriString, c)
  {
    if |s| > 0 {
      var init := s[..|s| - 1];
      KeptByEscapingMembers(init, escapeUriString);
      assert s == init + [s[|s| - 1]];
    }
  }

  /** The path characters are the order-preserving selection of "/:'()!*[]$" that escape to
      themselves; in particular they are ASCII and never '%'. */
  lemma PathCharactersShape(escapeUriString: string -> string)
    ensures forall c :: c in PathCharacters(escapeUriString) <==> c in BasePathCharacters && EscapesToItself(escapeUriString, c)
    ensures AsciiWithoutPercent(PathCharacters(escapeUriString))
  {
    KeptByEscapingMembers(BasePathCharacters, escapeUriString);
    var p := PathCharacters(escapeUriString);
    forall i | 0 <= i < |p| ensures p[i] as int < 0x80 && p[i] != '%' {
      assert p[i] in BasePathCharacters;
    }
  }

  /** Whatever the path flag and the scheme, the unreserved set is ASCII and lacks '%'. */
  lemma UnreservedIsAscii(rfcNumber: int, path: bool, escapeUriString: string -> string)
    ensures AsciiWithoutPercent(UnreservedCharacters(rfcNumber, path, PathCharacters(escapeUriString)))
  {
    SchemeCharacterSets();
    PathCharactersShape(escapeUriString);
    var v := match TryGetRFCEncodingSchemes(rfcNumber) case Some(scheme) => scheme case None => ValidUrlCharacters;
    var u := UnreservedCharacters(rfcNumber, path, PathCharacters(escapeUriString));
    var q := if path then PathCharacters(escapeUriString) else "";
    assert u == v + q;
    forall i | 0 <= i < |u| ensures u[i] as int < 0x80 && u[i] != '%' {
      if i >= |v| {
        assert u[i] == q[i - |v|];
      }
    }
  }

  /** With `path` unset the path characters are never consulted. */
  lemma PathOffIgnoresPathCharacters(rfcNumber: int, data: string, p1: string, p2: string)
    ensures Encode(rfcNumber, data, false, p1) == Encode(rfcNumber, data, false, p2)
  {
  }

  // ----- the buffer -----

  /** The exceptions of the encoder: `IndexOutOfRangeException` for a write past the end of
      the buffer, and `ArgumentOutOfRangeException` from `GetMaxByteCount` (line 91) or from
      a `Slice` whose start lies before the buffer (line 96). */
  datatype EncodeError = IndexOutOfRange | ArgumentOutOfRange

  /** `int.MaxValue`: the sizes of lines 91-96 are C# `int`s. */
  const Int32Max: int := 0x7FFF_FFFF

  /** Unchecked 32-bit arithmetic: `x` wrapped into the range of `int`. */
  function Wrap32(x: int): (r: int)
    ensures -Int32Max - 1 <= r <= Int32Max
    ensures -Int32Max - 1 <= x <= Int32Max ==> r == x
    ensures Int32Max < x < 0x1_8000_0000 ==> r == x - 0x1_0000_0000
  {
    var m := x % 0x1_0000_0000;
    if m <= Int32Max then m else m - 0x1_0000_0000
  }

  /** Line 91: `GetMaxByteCount` throws once `3 * (charCount + 1)` exceeds `int.MaxValue`,
      which is from 715,827,882 UTF-16 units on. */
  lemma MaxByteCountLimit(charCount: nat)
    ensures MaxByteCount(charCount) <= Int32Max <==> charCount < 715_827_882
  {
  }

  /** Lines 93-95: a stack buffer of `MaxStackLimit` bytes when the request is at most that,
      a negative request included, or a pooled array of the requested size. */
  function BufferLength(encodedByteLength: int): nat {
    if encodedByteLength <= MaxStackLimit then MaxStackLimit else encodedByteLength
  }

  /** Line 92 as written, in 32-bit arithmetic: twice the maximal UTF-8 size, which wraps to
      a negative number once it exceeds `int.MaxValue`. */
  function EncodedByteLength(charCount: nat): (r: int)
    ensures 2 * MaxByteCount(charCount) <= Int32Max ==> r == 2 * MaxByteCount(charCount)
    ensures MaxByteCount(charCount) <= Int32Max < 2 * MaxByteCount(charCount) ==> r < 0
  {
    Wrap32(2 * MaxByteCount(charCount))
  }

  /** The request of line 92 does not wrap exactly below 357,913,941 UTF-16 units. */
  lemma EncodedByteLengthLimit(charCount: nat)
    ensures 2 * MaxByteCount(charCount) <= Int32Max <==> charCount < 357_913_941
  {
  }

  /** Lines 96-99: the UTF-8 bytes at the start of the last `dataByteLength` bytes of the
      buffer, zero everywhere else. */
  function InitialBuffer(bs: seq<byte>, dataByteLength: nat, bufferLength: nat): (buf: seq<byte>)
    requires |bs| <= dataByteLength <= bufferLength
    ensures |buf| == bufferLength
    ensures buf[bufferLength - dataByteLength..bufferLength - dataByteLength + |bs|] == bs
  {
    seq(bufferLength - dataByteLength, _ => 0 as byte) + bs + seq(dataByteLength - |bs|, _ => 0 as byte)
  }

  /** Lines 100-115 from the `i`-th of `n` bytes on. The byte at `tail + i` is read as the
      buffer holds it now, which is the original byte only while no write has reached it;
      its encoding is written at `index`, and a write past the end throws. Once all `n`
      bytes are read the result is the front `buf[..index]`. */
  function InPlaceLoop(buf: seq<byte>, tail: nat, n: nat, i: nat, index: nat, unreserved: string)
    : Result<seq<byte>, EncodeError>
    requires tail + n <= |buf| && i <= n && index <= |buf|
    decreases n - i
  {
    if i == n then Success(buf[..index])
    else
      var e := EncodeByte(buf[tail + i], unreserved);
      if index + |e| > |buf| then Failure(IndexOutOfRange)
      else InPlaceLoop(buf[..index] + e + buf[index + |e|..], tail, n, i + 1, index + |e|, unreserved)
  }

  /** Lines 96-117 on a buffer of `bufferLength` bytes: the UTF-8 bytes of `data` in its last
      `GetMaxByteCount` bytes, encoded in place and the front read back as text. */
  function EncodeInBuffer(data: string, unreserved: string, bufferLength: nat): Result<string, EncodeError>
    requires MaxByteCount(Utf16Length(data)) <= bufferLength
  {
    var dataByteLength := MaxByteCount(Utf16Length(data));
    Utf8Bound(data);
    match InPlaceLoop(InitialBuffer(Utf8(data), dataByteLength, bufferLength),
      bufferLength - dataByteLength, |Utf8(data)|, 0, 0, unreserved)
    case Success(front) => Success(ToChars(front))
    case Failure(e) => Failure(e)
  }

  /** Lines 75-123 as written, for a text of the given scheme: `GetMaxByteCount` throws for
      a size beyond `int.MaxValue`, and so does the `Slice` of line 96 when the buffer is
      shorter than `dataByteLength`; otherwise the loop runs on the buffer. */
  function EncodeAsWritten(rfcNumber: int, data: string, path: bool, validPathCharacters: string)
    : Result<string, EncodeError>
  {
    var dataByteLength := MaxByteCount(Utf16Length(data));
    var bufferLength := BufferLength(EncodedByteLength(Utf16Length(data)));
    if dataByteLength > Int32Max || bufferLength < dataByteLength then Failure(ArgumentOutOfRange)
    else EncodeInBuffer(data, UnreservedCharacters(rfcNumber, path, validPathCharacters), bufferLength)
  }

  /** After reading byte j - 1 the encoder has written `|EncodeBytes(bs[..j])|` bytes; the
      read of byte j, at `tail + j`, finds the original byte when that count is at most
      `tail + j`. */
  ghost predicate WritesBehindReads(bs: seq<byte>, unreserved: string, tail: nat) {
    forall j :: 0 < j < |bs| ==> |EncodeBytes(bs[..j], unreserved)| <= tail + j
  }

  /** The UTF-8 bytes fit in the tail of `dataByteLength` bytes, every read finds its
      original byte, and the whole encoding fits in the buffer. */
  ghost predicate BufferFits(bs: seq<byte>, unreserved: string, dataByteLength: nat, bufferLength: nat) {
    && |bs| <= dataByteLength <= bufferLength
    && WritesBehindReads(bs, unreserved, bufferLength - dataByteLength)
    && |EncodeBytes(bs, unreserved)| <= bufferLength
  }

  /** The sizing of lines 91-95, as written, for a text of the given scheme. */
  ghost predicate AsWrittenBufferFits(rfcNumber: int, data: string, path: bool, validPathCharacters: string) {
    var dataByteLength := MaxByteCount(Utf16Length(data));
    && dataByteLength <= Int32Max
    && BufferFits(Utf8(data), UnreservedCharacters(rfcNumber, path, validPathCharacters),
      dataByteLength, BufferLength(EncodedByteLength(Utf16Length(data))))
  }

  /** When the sizing as written fits, the code as written returns the encoding. */
  lemma AsWrittenFitsEncodes(rfcNumber: int, data: string, path: bool, validPathCharacters: string)
    requires AsWrittenBufferFits(rfcNumber, data, path, validPathCharacters)
    ensures EncodeAsWritten(rfcNumber, data, path, validPathCharacters)
      == Success(Encode(rfcNumber, data, path, validPathCharacters))
  {
    BufferFitsEncodes(data, UnreservedCharacters(rfcNumber, path, validPathCharacters),
      BufferLength(EncodedByteLength(Utf16Length(data))));
  }

  /** Text of 357,913,941 UTF-16 units or more throws `ArgumentOutOfRangeException`: the
      request `2 * dataByteLength` wraps to a negative number, the stack buffer is taken and
      the slice of line 96 would start before it; from 715,827,882 units on
      `GetMaxByteCount` throws first. */
  lemma LongTextThrows(rfcNumber: int, data: string, path: bool, validPathCharacters: string)
    requires Utf16Length(data) >= 357_913_941
    ensures !AsWrittenBufferFits(rfcNumber, data, path, validPathCharacters)
    ensures EncodeAsWritten(rfcNumber, data, path, validPathCharacters) == Failure(ArgumentOutOfRange)
  {
    var n := Utf16Length(data);
    if MaxByteCount(n) <= Int32Max {
      assert EncodedByteLength(n) < 0;
      assert BufferLength(EncodedByteLength(n)) == MaxStackLimit < MaxByteCount(n);
    }
  }

  /** The encoding of the bytes `buf[tail..tail + k]` extends that of `buf[tail..tail + m]`
      for `m == k - 1`. */
  lemma EncodeWindowStep(buf: seq<byte>, tail: nat, m: nat, k: nat, unreserved: string)
    requires tail + k <= |buf| && k == m + 1
    ensures EncodeBytes(buf[tail..tail + k], unreserved)
      == EncodeBytes(buf[tail..tail + m], unreserved) + EncodeByte(buf[tail + m], unreserved)
  {
    var w := buf[tail..tail + k];
    assert w[..m] == buf[tail..tail + m];
    assert w[m] == buf[tail + m];
  }

  /** The buffer after one more step of `InPlacePrefix`: the byte read at `r` is still
      the original, and the new encoding lands right after the old. */
  lemma PrefixBufferStep(buf: seq<byte>, pre: seq<byte>, e: seq<byte>, r: nat)
    requires |pre| <= r < |buf|
    requires |pre| + |e| <= |buf|
    ensures var b := pre + buf[|pre|..];
      b[r] == buf[r] && b[..|pre|] + e + b[|pre| + |e|..] == (pre + e) + buf[|pre + e|..]
  {
  }

  /** The number of bytes written once the first j bytes of the tail are read. */
  function WrittenAfter(buf: seq<byte>, tail: nat, j: nat, unreserved: string): nat
    requires tail + j <= |buf|
  {
    |EncodeBytes(buf[tail..tail + j], unreserved)|
  }

  /** One step of the loop, unfolded: `next` and `after` are the write index and the buffer
      once the byte at `tail + i` is encoded. */
  lemma InPlaceStep(buf: seq<byte>, tail: nat, n: nat, i: nat, index: nat, unreserved: string,
                    after: seq<byte>, j: nat, next: nat)
    requires tail + n <= |buf| && i < n && j == i + 1
    requires next == index + |EncodeByte(buf[tail + i], unreserved)| <= |buf|
    requires after == buf[..index] + EncodeByte(buf[tail + i], unreserved) + buf[next..]
    ensures InPlaceLoop(buf, tail, n, i, index, unreserved) == InPlaceLoop(after, tail, n, j, next, unreserved)
  {
    var e := EncodeByte(buf[tail + i], unreserved);
    assert buf[..index] + e + buf[index + |e|..] == after;
  }

  /** A step without room for its encoding throws. */
  lemma InPlaceOutOfRoom(buf: seq<byte>, tail: nat, n: nat, i: nat, index: nat, unreserved: string)
    requires tail + n <= |buf| && i < n && index <= |buf|
    requires index + |EncodeByte(buf[tail + i], unreserved)| > |buf|
    ensures InPlaceLoop(buf, tail, n, i, index, unreserved) == Failure(IndexOutOfRange)
  {
  }

  /** While the writes stay behind the reads, the first k steps leave the encoding of the
      first k bytes in front of the untouched rest of the buffer. */
  lemma {:induction false} InPlacePrefix(buf: seq<byte>, tail: nat, n: nat, k: nat, unreserved: string)
    requires tail + n <= |buf| && k <= n
    requires forall j :: 0 < j < k ==> WrittenAfter(buf, tail, j, unreserved) <= tail + j
    requires WrittenAfter(buf, tail, k, unreserved) <= |buf|
    ensures var pre := EncodeBytes(buf[tail..tail + k], unreserved);
      InPlaceLoop(buf, tail, n, 0, 0, unreserved) == InPlaceLoop(pre + buf[|pre|..], tail, n, k, |pre|, unreserved)
  {
    if k == 0 {
      assert buf[tail..tail] == [];
      LoopSame(buf, [] + buf[0..], tail, n, 0, 0, unreserved);
    } else {
      var m := k - 1;
      var pre := EncodeBytes(buf[tail..tail + m], unreserved);
      var whole := EncodeBytes(buf[tail..tail + k], unreserved);
      var e := EncodeByte(buf[tail + m], unreserved);
      EncodeWindowStep(buf, tail, m, k, unreserved);
      assert |pre| <= tail + m by {
        if m > 0 {
          assert WrittenAfter(buf, tail, m, unreserved) <= tail + m;
        }
      }
      InPlacePrefix(buf, tail, n, m, unreserved);
      PrefixStep(buf, tail, n, m, pre, e, unreserved);
    }
  }

  /** The step of `InPlacePrefix` from `m` to `m + 1` bytes read, on the buffer whose front
      holds `pre` and whose byte at `tail + m` is still the original. */
  lemma PrefixStep(buf: seq<byte>, tail: nat, n: nat, m: nat, pre: seq<byte>, e: seq<byte>, unreserved: string)
    requires tail + n <= |buf| && m < n
    requires |pre| <= tail + m
    requires e == EncodeByte(buf[tail + m], unreserved)
    requires |pre| + |e| <= |buf|
    ensures InPlaceLoop(pre + buf[|pre|..], tail, n, m, |pre|, unreserved)
      == InPlaceLoop((pre + e) + buf[|pre + e|..], tail, n, m + 1, |pre + e|, unreserved)
  {
    PrefixBufferStep(buf, pre, e, tail + m);
    InPlaceStep(pre + buf[|pre|..], tail, n, m, |pre|, unreserved, (pre + e) + buf[|pre + e|..], m + 1, |pre + e|);
  }

  /** Equal buffers run alike; a lemma so that the solver does not unfold `InPlaceLoop`
      while it proves the two buffers equal. */
  lemma LoopSame(b: seq<byte>, c: seq<byte>, tail: nat, n: nat, i: nat, index: nat, unreserved: string)
    requires b == c
    requires tail + n <= |b| && i <= n && index <= |b|
    ensures InPlaceLoop(b, tail, n, i, index, unreserved) == InPlaceLoop(c, tail, n, i, index, unreserved)
  {
  }

  /** The loop from step `i` at output position `index` returns `whole`. */
  ghost predicate Yields(buf: seq<byte>, tail: nat, n: nat, i: nat, index: nat, unreserved: string, whole: seq<byte>)
    requires tail + n <= |buf| && i <= n && index <= |buf|
  {
    InPlaceLoop(buf, tail, n, i, index, unreserved) == Success(whole)
  }

  /** Later steps write only at and after `index`, so the front is final: a front byte
      that differs from `whole` rules `whole` out as the result. */
  lemma {:induction false} FrontMismatch(buf: seq<byte>, tail: nat, n: nat, i: nat, index: nat, unreserved: string,
                                         whole: seq<byte>, p: nat)
    requires tail + n <= |buf| && i <= n && index <= |buf|
    requires p < index && p < |whole| && whole[p] != buf[p]
    ensures !Yields(buf, tail, n, i, index, unreserved, whole)
    decreases n - i
  {
    if i == n {
      assert buf[..index][p] == buf[p];
    } else if index + |EncodeByte(buf[tail + i], unreserved)| <= |buf| {
      var next := index + |EncodeByte(buf[tail + i], unreserved)|;
      var after := buf[..index] + EncodeByte(buf[tail + i], unreserved) + buf[next..];
      assert after[p] == buf[p];
      FrontMismatch(after, tail, n, i + 1, next, unreserved, whole, p);
      InPlaceStep(buf, tail, n, i, index, unreserved, after, i + 1, next);
    } else {
      InPlaceOutOfRoom(buf, tail, n, i, index, unreserved);
    }
  }

  /** Every byte is ASCII. */
  ghost predicate AsciiBytes(bs: seq<byte>) {
    forall k :: 0 <= k < |bs| ==> bs[k] < 0x80
  }

  /** With an ASCII unreserved set the encoding of any byte is ASCII. */
  lemma EncodeByteAscii(symbol: byte, unreserved: string)
    requires AsciiWithoutPercent(unreserved)
    ensures AsciiBytes(EncodeByte(symbol, unreserved))
  {
    if Char(symbol) in unreserved {
      var i :| 0 <= i < |unreserved| && unreserved[i] == Char(symbol);
    }
  }

  /** The loop from step `i` at output position `index` either throws or returns an
      ASCII front. */
  ghost predicate FrontAscii(buf: seq<byte>, tail: nat, n: nat, i: nat, index: nat, unreserved: string)
    requires tail + n <= |buf| && i <= n && index <= |buf|
  {
    var r := InPlaceLoop(buf, tail, n, i, index, unreserved);
    r.Success? ==> AsciiBytes(r.value)
  }

  /** Whatever the loop reads, bytes it has itself written included, it writes only ASCII,
      so a front that is ASCII so far stays ASCII. */
  lemma {:induction false} InPlaceFrontAscii(buf: seq<byte>, tail: nat, n: nat, i: nat, index: nat, unreserved: string)
    requires tail + n <= |buf| && i <= n && index <= |buf|
    requires AsciiWithoutPercent(unreserved) && AsciiBytes(buf[..index])
    ensures FrontAscii(buf, tail, n, i, index, unreserved)
    decreases n - i
  {
    if i < n {
      var e := EncodeByte(buf[tail + i], unreserved);
      if index + |e| <= |buf| {
        var next := index + |e|;
        var after := buf[..index] + e + buf[next..];
        EncodeByteAscii(buf[tail + i], unreserved);
        assert after[..next] == buf[..index] + e;
        InPlaceFrontAscii(after, tail, n, i + 1, next, unreserved);
        InPlaceStep(buf, tail, n, i, index, unreserved, after, i + 1, next);
      } else {
        InPlaceOutOfRoom(buf, tail, n, i, index, unreserved);
      }
    }
  }

  /** When every read finds its original byte and the encoding fits, the loop returns
      exactly the encoding of the tail's bytes. */
  lemma InPlaceEncodes(buf: seq<byte>, tail: nat, n: nat, unreserved: string)
    requires tail + n <= |buf|
    requires WritesBehindReads(buf[tail..tail + n], unreserved, tail)
    requires |EncodeBytes(buf[tail..tail + n], unreserved)| <= |buf|
    ensures InPlaceLoop(buf, tail, n, 0, 0, unreserved) == Success(EncodeBytes(buf[tail..tail + n], unreserved))
  {
    forall j | 0 < j < n ensures WrittenAfter(buf, tail, j, unreserved) <= tail + j {
      WindowPrefix(buf, tail, n, j);
    }
    InPlacePrefix(buf, tail, n, n, unreserved);
    var pre := EncodeBytes(buf[tail..tail + n], unreserved);
    assert (pre + buf[|pre|..])[..|pre|] == pre;
  }

  /** One more byte of input appends its encoding. */
  lemma EncodeBytesStep(bs: seq<byte>, i: nat, unreserved: string)
    requires i < |bs|
    ensures EncodeBytes(bs[..i + 1], unreserved) == EncodeBytes(bs[..i], unreserved) + EncodeByte(bs[i], unreserved)
  {
    assert bs[..i + 1][..i] == bs[..i];
  }

  /** The encoding of `bs` starts with that of `bs[..k]`, followed by the encoding of
      byte `k`. */
  lemma EncodingContinues(bs: seq<byte>, k: nat, unreserved: string)
    requires k < |bs|
    ensures var pre, f := EncodeBytes(bs[..k], unreserved), EncodeByte(bs[k], unreserved);
      |pre| + |f| <= |EncodeBytes(bs, unreserved)| && EncodeBytes(bs, unreserved)[..|pre| + |f|] == pre + f
  {
    var pre, f := EncodeBytes(bs[..k], unreserved), EncodeByte(bs[k], unreserved);
    var ef, er := EncodeBytes(bs[..k + 1], unreserved), EncodeBytes(bs[k + 1..], unreserved);
    assert ef == pre + f by {
      EncodeBytesStep(bs, k, unreserved);
    }
    assert EncodeBytes(bs, unreserved) == ef + er by {
      assert bs[..k + 1] + bs[k + 1..] == bs;
      EncodeBytesAppend(bs[..k + 1], bs[k + 1..], unreserved);
    }
    assert (ef + er)[..|ef|] == ef;
  }

  /** The step that reads an ASCII byte where the original `x` of 0x80 or above stood:
      whatever follows, the front differs from `whole`, which has the `%` and the high hex
      digit of `x` at `index`. */
  lemma OvertakenStep(b: seq<byte>, tail: nat, n: nat, k: nat, index: nat, unreserved: string, whole: seq<byte>)
    requires tail + n <= |b| && k < n && index <= |b|
    requires AsciiWithoutPercent(unreserved)
    requires b[tail + k] < 0x80
    requires index + 3 <= |whole|
    requires whole[index] == Percent && whole[index + 1] >= '8' as int as byte
    ensures InPlaceLoop(b, tail, n, k, index, unreserved) != Success(whole)
  {
    if index + |EncodeByte(b[tail + k], unreserved)| <= |b| {
      var e := EncodeByte(b[tail + k], unreserved);
      OvertakenWrite(b, tail, n, k, index, unreserved, whole, b[..index] + e + b[index + |e|..]);
    } else {
      InPlaceOutOfRoom(b, tail, n, k, index, unreserved);
    }
  }

  /** The case of `OvertakenStep` where the ASCII byte's encoding is written, giving `after`. */
  lemma OvertakenWrite(b: seq<byte>, tail: nat, n: nat, k: nat, index: nat, unreserved: string,
                       whole: seq<byte>, after: seq<byte>)
    requires tail + n <= |b| && k < n
    requires AsciiWithoutPercent(unreserved)
    requires b[tail + k] < 0x80
    requires index + 3 <= |whole|
    requires whole[index] == Percent && whole[index + 1] >= '8' as int as byte
    requires index + |EncodeByte(b[tail + k], unreserved)| <= |b|
    requires after == b[..index] + EncodeByte(b[tail + k], unreserved) + b[index + |EncodeByte(b[tail + k], unreserved)|..]
    ensures InPlaceLoop(b, tail, n, k, index, unreserved) != Success(whole)
  {
    var p := MismatchPosition(b[tail + k], unreserved, index, whole, after);
    StepMismatch(b, tail, n, k, index, unreserved, after, index + |EncodeByte(b[tail + k], unreserved)|, whole, p);
  }

  /** A step whose write leaves a byte at `p` that differs from `whole` rules `whole` out. */
  lemma StepMismatch(b: seq<byte>, tail: nat, n: nat, k: nat, index: nat, unreserved: string,
                     after: seq<byte>, next: nat, whole: seq<byte>, p: nat)
    requires tail + n <= |b| && k < n
    requires next == index + |EncodeByte(b[tail + k], unreserved)| <= |b|
    requires after == b[..index] + EncodeByte(b[tail + k], unreserved) + b[next..]
    requires p < next && p < |whole| && whole[p] != after[p]
    ensures !Yields(b, tail, n, k, index, unreserved, whole)
  {
    FrontMismatch(after, tail, n, k + 1, next, unreserved, whole, p);
    InPlaceStep(b, tail, n, k, index, unreserved, after, k + 1, next);
  }

  /** Where the encoding of the ASCII byte `c`, written at `index` of `b'`, first differs
      from `whole`, which holds `%` and a hex digit of 8 or above there: an unreserved byte
      is not `%`, and an escaped one has a high hex digit below 8. */
  lemma MismatchPosition(c: byte, unreserved: string, index: nat, whole: seq<byte>, b': seq<byte>)
    returns (p: nat)
    requires c < 0x80
    requires AsciiWithoutPercent(unreserved)
    requires index + 3 <= |whole|
    requires whole[index] == Percent && whole[index + 1] >= '8' as int as byte
    requires index + |EncodeByte(c, unreserved)| <= |b'|
    requires b'[index..index + |EncodeByte(c, unreserved)|] == EncodeByte(c, unreserved)
    ensures index <= p < index + |EncodeByte(c, unreserved)| && whole[p] != b'[p]
  {
    var e := EncodeByte(c, unreserved);
    assert b'[index] == e[0];
    if Char(c) in unreserved {
      var i :| 0 <= i < |unreserved| && unreserved[i] == Char(c);
      p := index;
    } else {
      assert b'[index + 1] == e[1];
      p := index + 1;
    }
  }

  /** The loop over the `n` bytes at `tail` does not return their encoding. */
  ghost predicate Misencodes(buf: seq<byte>, tail: nat, n: nat, unreserved: string)
    requires tail + n <= |buf|
  {
    InPlaceLoop(buf, tail, n, 0, 0, unreserved) != Success(EncodeBytes(buf[tail..tail + n], unreserved))
  }

  /** If the first read of an overwritten byte lands on a byte of 0x80 or above, the loop
      does not return the encoding: the byte it reads is an ASCII output byte, whose
      encoding differs from the `%XX` the original needs at a position no later write
      touches. */
  lemma Overtaken(buf: seq<byte>, tail: nat, n: nat, k: nat, unreserved: string)
    requires tail + n <= |buf| && k < n
    requires AsciiWithoutPercent(unreserved)
    requires forall j :: 0 < j < k ==> WrittenAfter(buf, tail, j, unreserved) <= tail + j
    requires tail + k < WrittenAfter(buf, tail, k, unreserved) <= |buf|
    requires buf[tail + k] >= 0x80
    ensures Misencodes(buf, tail, n, unreserved)
  {
    var pre := EncodeBytes(buf[tail..tail + k], unreserved);
    var whole := EncodeBytes(buf[tail..tail + n], unreserved);
    assert |pre| == WrittenAfter(buf, tail, k, unreserved);
    var b := pre + buf[|pre|..];
    assert |b| == |buf|;
    OverwrittenByteAscii(buf, tail, k, unreserved);
    WindowContinues(buf, tail, n, k, unreserved);
    OvertakenStep(b, tail, n, k, |pre|, unreserved, whole);
    InPlacePrefix(buf, tail, n, k, unreserved);
  }

  /** A byte that the writes have reached holds an ASCII output byte. */
  lemma OverwrittenByteAscii(buf: seq<byte>, tail: nat, k: nat, unreserved: string)
    requires tail + k <= |buf|
    requires tail + k < WrittenAfter(buf, tail, k, unreserved) <= |buf|
    requires AsciiWithoutPercent(unreserved)
    ensures var pre := EncodeBytes(buf[tail..tail + k], unreserved);
      (pre + buf[|pre|..])[tail + k] < 0x80
  {
    var pre := EncodeBytes(buf[tail..tail + k], unreserved);
    EncodedAlphabet(buf[tail..tail + k], unreserved);
    assert (pre + buf[|pre|..])[tail + k] == pre[tail + k];
    assert Char(pre[tail + k]) as int < 0x80;
  }

  /** `EncodingContinues` for the window `buf[tail..tail + n]`: at the end of the encoding
      of the first k bytes comes the `%` and the high hex digit of byte k of 0x80 or above. */
  lemma WindowContinues(buf: seq<byte>, tail: nat, n: nat, k: nat, unreserved: string)
    requires tail + n <= |buf| && k < n
    requires AsciiWithoutPercent(unreserved)
    requires buf[tail + k] >= 0x80
    ensures var pre := EncodeBytes(buf[tail..tail + k], unreserved);
      var whole := EncodeBytes(buf[tail..tail + n], unreserved);
      |pre| + 3 <= |whole| && whole[|pre|] == Percent && whole[|pre| + 1] >= '8' as int as byte
  {
    var w := buf[tail..tail + n];
    WindowPrefix(buf, tail, n, k);
    EncodeBytesSame(w[..k], buf[tail..tail + k], unreserved);
    EncodingContinues(w, k, unreserved);
    HighByteEscaped(buf[tail + k], unreserved);
    var pre, f, whole := EncodeBytes(w[..k], unreserved), EncodeByte(buf[tail + k], unreserved), EncodeBytes(w, unreserved);
    assert whole[|pre|] == (pre + f)[|pre|] && whole[|pre| + 1] == (pre + f)[|pre| + 1];
  }

  lemma WindowPrefix(buf: seq<byte>, tail: nat, n: nat, k: nat)
    requires tail + n <= |buf| && k < n
    ensures buf[tail..tail + n][..k] == buf[tail..tail + k] && buf[tail..tail + n][k] == buf[tail + k]
  {
  }

  /** Distinct bytes read as distinct characters. */
  lemma ToCharsInjective(a: seq<byte>, b: seq<byte>)
    requires ToChars(a) == ToChars(b)
    ensures a == b
  {
    assert |a| == |b|;
    forall k | 0 <= k < |a| ensures a[k] == b[k] {
      assert Char(a[k]) == ToChars(a)[k] == ToChars(b)[k] == Char(b[k]);
    }
  }

  /** When the buffer fits, reading the front back gives the encoding of the text. */
  lemma BufferFitsEncodes(data: string, unreserved: string, bufferLength: nat)
    requires MaxByteCount(Utf16Length(data)) <= bufferLength
    requires BufferFits(Utf8(data), unreserved, MaxByteCount(Utf16Length(data)), bufferLength)
    ensures EncodeInBuffer(data, unreserved, bufferLength) == Success(ToChars(EncodeBytes(Utf8(data), unreserved)))
  {
    var dataByteLength := MaxByteCount(Utf16Length(data));
    var tail := bufferLength - dataByteLength;
    var bs := Utf8(data);
    var buf := InitialBuffer(bs, dataByteLength, bufferLength);
    assert buf[tail..tail + |bs|] == bs;
    InPlaceEncodes(buf, tail, |bs|, unreserved);
  }

  /** A tail that starts at least twice the byte count into the buffer is always enough. */
  lemma FitsWithRoom(bs: seq<byte>, unreserved: string, dataByteLength: nat, bufferLength: nat)
    requires |bs| <= dataByteLength <= bufferLength
    requires 2 * |bs| <= bufferLength - dataByteLength
    ensures BufferFits(bs, unreserved, dataByteLength, bufferLength)
  {
    forall j | 0 < j < |bs| ensures |EncodeBytes(bs[..j], unreserved)| <= bufferLength - dataByteLength + j {
      EncodedLength(bs[..j], unreserved);
    }
    EncodedLength(bs, unreserved);
  }

  /** The sizing as written is enough for ASCII text short enough for its 32-bit sizes. */
  lemma AsciiBufferFits(rfcNumber: int, data: string, path: bool, validPathCharacters: string)
    requires forall i :: 0 <= i < |data| ==> data[i] as int < 0x80
    requires |data| < 357_913_941
    ensures AsWrittenBufferFits(rfcNumber, data, path, validPathCharacters)
  {
    Utf8Ascii(data);
    FitsWithRoom(Utf8(data), UnreservedCharacters(rfcNumber, path, validPathCharacters),
      MaxByteCount(Utf16Length(data)), BufferLength(EncodedByteLength(Utf16Length(data))));
  }

  /** ... so ASCII text is encoded correctly as written. */
  lemma AsciiEncodedAsWritten(rfcNumber: int, data: string, path: bool, validPathCharacters: string)
    requires forall i :: 0 <= i < |data| ==> data[i] as int < 0x80
    requires |data| < 357_913_941
    ensures EncodeAsWritten(rfcNumber, data, path, validPathCharacters)
      == Success(Encode(rfcNumber, data, path, validPathCharacters))
  {
    AsciiBufferFits(rfcNumber, data, path, validPathCharacters);
    AsWrittenFitsEncodes(rfcNumber, data, path, validPathCharacters);
  }

  /** The text the loop reads back from a buffer is ASCII when the unreserved set is. */
  lemma EncodeInBufferAscii(data: string, unreserved: string, bufferLength: nat)
    requires AsciiWithoutPercent(unreserved)
    requires MaxByteCount(Utf16Length(data)) <= bufferLength
    ensures var r := EncodeInBuffer(data, unreserved, bufferLength);
      r.Success? ==> forall k :: 0 <= k < |r.value| ==> r.value[k] as int < 0x80
  {
    var dataByteLength := MaxByteCount(Utf16Length(data));
    Utf8Bound(data);
    var buf := InitialBuffer(Utf8(data), dataByteLength, bufferLength);
    assert AsciiBytes(buf[..0]);
    InPlaceFrontAscii(buf, bufferLength - dataByteLength, |Utf8(data)|, 0, 0, unreserved);
  }

  /** The text the code as written returns is ASCII, whether or not it is the right
      encoding. */
  lemma AsWrittenOutputAscii(rfcNumber: int, data: string, path: bool, escapeUriString: string -> string)
    ensures var r := EncodeAsWritten(rfcNumber, data, path, PathCharacters(escapeUriString));
      r.Success? ==> forall k :: 0 <= k < |r.value| ==> r.value[k] as int < 0x80
  {
    var n := Utf16Length(data);
    var bufferLength := BufferLength(EncodedByteLength(n));
    if MaxByteCount(n) <= Int32Max && MaxByteCount(n) <= bufferLength {
      UnreservedIsAscii(rfcNumber, path, escapeUriString);
      EncodeInBufferAscii(data, UnreservedCharacters(rfcNumber, path, PathCharacters(escapeUriString)), bufferLength);
    }
  }

  /** The empty text, which is also what a null `data` gives (line 88), encodes to "". */
  lemma EmptyEncodedAsWritten(rfcNumber: int, path: bool, validPathCharacters: string)
    ensures EncodeAsWritten(rfcNumber, "", path, validPathCharacters) == Success("")
  {
    AsciiEncodedAsWritten(rfcNumber, "", path, validPathCharacters);
    assert Utf8("") == [];
  }

  /** Bytes of 0x80 or above are all escaped, so after reading j of them the encoder has
      written 3j bytes: the writes stay behind the reads exactly when the tail starts at
      least 2(m - 1) bytes into the buffer, for m bytes. */
  lemma HighBytesWritesBehindIff(bs: seq<byte>, unreserved: string, tail: nat)
    requires forall k :: 0 <= k < |bs| ==> bs[k] >= 0x80
    requires AsciiWithoutPercent(unreserved)
    ensures WritesBehindReads(bs, unreserved, tail) <==> 2 * |bs| <= tail + 2
  {
    if 2 * |bs| <= tail + 2 {
      forall j | 0 < j < |bs| ensures |EncodeBytes(bs[..j], unreserved)| <= tail + j {
        HighBytesTriple(bs[..j], unreserved);
      }
    } else {
      HighBytesTriple(bs[..|bs| - 1], unreserved);
    }
  }

  /** For text whose characters all take three UTF-8 bytes, the buffer fits exactly when it
      has room for nine bytes per character plus one: the tail starts `3 * (n + 1)` bytes
      before the end, and the read of the last byte must come no later than the write of
      the encoding of all bytes before it. */
  lemma ThreeByteTextFitsIff(data: string, unreserved: string, bufferLength: nat)
    requires forall i :: 0 <= i < |data| ==> 0x800 <= data[i] as int < 0x10000
    requires AsciiWithoutPercent(unreserved)
    requires MaxByteCount(Utf16Length(data)) <= bufferLength
    ensures BufferFits(Utf8(data), unreserved, MaxByteCount(Utf16Length(data)), bufferLength)
      <==> 9 * |data| + 1 <= bufferLength
  {
    Utf8ThreeByte(data);
    HighBytesTriple(Utf8(data), unreserved);
    HighBytesWritesBehindIff(Utf8(data), unreserved, bufferLength - MaxByteCount(Utf16Length(data)));
  }

  /** For text whose characters all take three UTF-8 bytes, the loop as written returns the
      encoding exactly when the buffer has room for nine bytes per character plus one. In
      a smaller buffer the `(tail / 2 + 1)`-th byte is the first one read after a write has
      reached it, and the result is not the encoding. Whatever size the pool hands out,
      this decides whether a three-byte text is encoded correctly. */
  lemma ThreeByteTextEncodedIff(data: string, unreserved: string, bufferLength: nat)
    requires forall i :: 0 <= i < |data| ==> 0x800 <= data[i] as int < 0x10000
    requires AsciiWithoutPercent(unreserved)
    requires MaxByteCount(Utf16Length(data)) <= bufferLength
    ensures EncodeInBuffer(data, unreserved, bufferLength) == Success(ToChars(EncodeBytes(Utf8(data), unreserved)))
      <==> 9 * |data| + 1 <= bufferLength
  {
    ThreeByteTextFitsIff(data, unreserved, bufferLength);
    if 9 * |data| + 1 <= bufferLength {
      BufferFitsEncodes(data, unreserved, bufferLength);
    } else {
      var dataByteLength := MaxByteCount(Utf16Length(data));
      Utf8ThreeByte(data);
      var bs := Utf8(data);
      Utf8Bound(data);
      HighBytesMisencoded(bs, unreserved, dataByteLength, bufferLength);
      EncodeInBufferBytes(data, unreserved, bufferLength, EncodeBytes(bs, unreserved));
    }
  }

  /** `EncodeInBuffer` reads the front back as text, which loses nothing. */
  lemma EncodeInBufferBytes(data: string, unreserved: string, bufferLength: nat, expected: seq<byte>)
    requires MaxByteCount(Utf16Length(data)) <= bufferLength
    requires |Utf8(data)| <= MaxByteCount(Utf16Length(data))
    ensures var dataByteLength := MaxByteCount(Utf16Length(data));
      EncodeInBuffer(data, unreserved, bufferLength) == Success(ToChars(expected)) ==>
        InPlaceLoop(InitialBuffer(Utf8(data), dataByteLength, bufferLength),
          bufferLength - dataByteLength, |Utf8(data)|, 0, 0, unreserved) == Success(expected)
  {
    var dataByteLength := MaxByteCount(Utf16Length(data));
    var r := InPlaceLoop(InitialBuffer(Utf8(data), dataByteLength, bufferLength),
      bufferLength - dataByteLength, |Utf8(data)|, 0, 0, unreserved);
    if r.Success? && ToChars(r.value) == ToChars(expected) {
      ToCharsInjective(r.value, expected);
    }
  }

  /** Bytes that are all 0x80 or above, in a tail that starts less than 2(m - 1) bytes into
      the buffer, for m bytes: the `(tail / 2 + 1)`-th byte is the first one read after a
      write has reached it, and the loop does not return the encoding. */
  lemma HighBytesMisencoded(bs: seq<byte>, unreserved: string, dataByteLength: nat, bufferLength: nat)
    requires forall k :: 0 <= k < |bs| ==> bs[k] >= 0x80
    requires AsciiWithoutPercent(unreserved)
    requires |bs| < dataByteLength <= bufferLength
    requires bufferLength - dataByteLength + 2 < 2 * |bs|
    ensures InPlaceLoop(InitialBuffer(bs, dataByteLength, bufferLength), bufferLength - dataByteLength, |bs|, 0, 0, unreserved)
      != Success(EncodeBytes(bs, unreserved))
  {
    var tail := bufferLength - dataByteLength;
    var buf := InitialBuffer(bs, dataByteLength, bufferLength);
    assert buf[tail..tail + |bs|] == bs;
    HighBytesOvertaken(buf, tail, bs, unreserved);
  }

  /** The same on any buffer that holds the bytes at `tail` with at least one byte after them. */
  lemma HighBytesOvertaken(buf: seq<byte>, tail: nat, bs: seq<byte>, unreserved: string)
    requires forall k :: 0 <= k < |bs| ==> bs[k] >= 0x80
    requires AsciiWithoutPercent(unreserved)
    requires tail + |bs| < |buf| && buf[tail..tail + |bs|] == bs
    requires tail + 2 < 2 * |bs|
    ensures Misencodes(buf, tail, |bs|, unreserved)
  {
    var k := tail / 2 + 1;
    assert tail < 2 * k <= tail + 2;
    forall j | 0 < j < k ensures WrittenAfter(buf, tail, j, unreserved) <= tail + j {
      HighBytesWritten(buf, tail, bs, unreserved, j);
    }
    HighBytesWritten(buf, tail, bs, unreserved, k);
    assert buf[tail + k] == bs[k];
    Overtaken(buf, tail, |bs|, k, unreserved);
  }

  /** Each of the first `j` high bytes is written as three bytes. */
  lemma HighBytesWritten(buf: seq<byte>, tail: nat, bs: seq<byte>, unreserved: string, j: nat)
    requires forall k :: 0 <= k < |bs| ==> bs[k] >= 0x80
    requires AsciiWithoutPercent(unreserved)
    requires tail + |bs| <= |buf| && buf[tail..tail + |bs|] == bs
    requires j <= |bs|
    ensures WrittenAfter(buf, tail, j, unreserved) == 3 * j
  {
    assert buf[tail..tail + j] == bs[..j];
    HighBytesTriple(bs[..j], unreserved);
  }

  /** With a pooled array of exactly the requested size, the sizing as written does not
      encode 29 or more characters that take three UTF-8 bytes each (29 to 41 of them use
      the stack buffer): every byte is escaped, the writes overtake the unread tail, and the
      loop returns a wrong encoding or throws. */
  lemma ThreeByteTextMisencoded(rfcNumber: int, data: string, path: bool, escapeUriString: string -> string)
    requires |data| >= 29
    requires forall i :: 0 <= i < |data| ==> 0x800 <= data[i] as int < 0x10000
    ensures !AsWrittenBufferFits(rfcNumber, data, path, PathCharacters(escapeUriString))
    ensures EncodeAsWritten(rfcNumber, data, path, PathCharacters(escapeUriString))
      != Success(Encode(rfcNumber, data, path, PathCharacters(escapeUriString)))
  {
    Utf8ThreeByte(data);
    if Utf16Length(data) >= 357_913_941 {
      LongTextThrows(rfcNumber, data, path, PathCharacters(escapeUriString));
    } else {
      var u := UnreservedCharacters(rfcNumber, path, PathCharacters(escapeUriString));
      var bufferLength := BufferLength(EncodedByteLength(Utf16Length(data)));
      UnreservedIsAscii(rfcNumber, path, escapeUriString);
      // Either 256 bytes on the stack or the 6(n + 1) requested: both below 9n + 1.
      ThreeByteTextFitsIff(data, u, bufferLength);
      ThreeByteTextEncodedIff(data, u, bufferLength);
    }
  }

  /** The smallest such input on the stack path: 29 euro signs (U+20AC). The buffer has 256
      bytes and the 87 UTF-8 bytes start at 166; the 28th sign's encoding ends at 252, past
      the start of the 29th sign's bytes at 250. */
  lemma EuroSignsMisencoded()
    ensures var data := seq(29, _ => '\U{20AC}');
      !AsWrittenBufferFits(3986, data, false, "") &&
      EncodeAsWritten(3986, data, false, "") != Success(Encode(3986, data, false, ""))
  {
    var data := seq(29, _ => '\U{20AC}');
    ThreeByteTextMisencoded(3986, data, false, s => s);
    assert BufferLength(EncodedByteLength(29)) == 256;
  }

  /** Both halves of the threshold for an ASCII set `unreserved`, with `encoded` its encoding. */
  lemma ThreeByteTextIff(data: string, unreserved: string, bufferLength: nat, encoded: string)
    requires forall i :: 0 <= i < |data| ==> 0x800 <= data[i] as int < 0x10000
    requires AsciiWithoutPercent(unreserved)
    requires MaxByteCount(Utf16Length(data)) <= bufferLength
    requires encoded == ToChars(EncodeBytes(Utf8(data), unreserved))
    ensures BufferFits(Utf8(data), unreserved, MaxByteCount(Utf16Length(data)), bufferLength)
      <==> 9 * |data| + 1 <= bufferLength
    ensures EncodeInBuffer(data, unreserved, bufferLength) == Success(encoded)
      <==> 9 * |data| + 1 <= bufferLength
  {
    ThreeByteTextFitsIff(data, unreserved, bufferLength);
    ThreeByteTextEncodedIff(data, unreserved, bufferLength);
  }

  /** Outside paths, RFC 3986 leaves exactly `ValidUrlCharacters` unescaped, all ASCII. */
  lemma Rfc3986Characters()
    ensures AsciiWithoutPercent(ValidUrlCharacters)
    ensures UnreservedCharacters(3986, false, "") == ValidUrlCharacters
  {
    SchemeCharacterSets();
    assert ValidUrlCharacters + "" == ValidUrlCharacters;
  }

  /** With a pooled array larger than requested the text may still be encoded: 42 euro
      signs request 258 bytes, and the 512 bytes a power-of-two pool returns are enough. */
  lemma EuroSignsFitRoundedArray()
    ensures var data := seq(42, _ => '\U{20AC}');
      Utf16Length(data) == 42 && EncodedByteLength(Utf16Length(data)) == 258 &&
      BufferFits(Utf8(data), ValidUrlCharacters, MaxByteCount(Utf16Length(data)), 512) &&
      EncodeInBuffer(data, ValidUrlCharacters, 512) == Success(Encode(3986, data, false, ""))
  {
    var data := seq(42, _ => '\U{20AC}');
    Utf8ThreeByte(data);
    Rfc3986Characters();
    ThreeByteTextIff(data, ValidUrlCharacters, 512, Encode(3986, data, false, ""));
  }

  /** ... and 57 euro signs are misencoded even in the 512-byte array they are handed. */
  lemma EuroSignsMisencodedRoundedArray()
    ensures var data := seq(57, _ => '\U{20AC}');
      Utf16Length(data) == 57 && EncodedByteLength(Utf16Length(data)) == 348 &&
      !BufferFits(Utf8(data), ValidUrlCharacters, MaxByteCount(Utf16Length(data)), 512) &&
      EncodeInBuffer(data, ValidUrlCharacters, 512) != Success(Encode(3986, data, false, ""))
  {
    var data := seq(57, _ => '\U{20AC}');
    Utf8ThreeByte(data);
    Rfc3986Characters();
    ThreeByteTextIff(data, ValidUrlCharacters, 512, Encode(3986, data, false, ""));
  }

  // ----- the output for 29 euro signs -----

  /** `s` written `count` times in a row. */
  function Repeat<T>(s: seq<T>, count: nat): (r: seq<T>)
    ensures |r| == count * |s|
  {
    if count == 0 then [] else Repeat(s, count - 1) + s
  }

  /** A text of one repeated character has that character's UTF-8 bytes repeated. */
  lemma {:induction false} Utf8Repeat(c: char, count: nat)
    ensures Utf8(seq(count, _ => c)) == Repeat(Utf8Char(c), count)
  {
    if count > 0 {
      assert seq(count, _ => c)[..count - 1] == seq(count - 1, _ => c);
      Utf8Repeat(c, count - 1);
    }
  }

  /** Encoding a repeated byte sequence repeats its encoding. */
  lemma {:induction false} EncodeRepeat(bs: seq<byte>, count: nat, unreserved: string)
    ensures EncodeBytes(Repeat(bs, count), unreserved) == Repeat(EncodeBytes(bs, unreserved), count)
  {
    if count > 0 {
      EncodeRepeat(bs, count - 1, unreserved);
      EncodeBytesAppend(Repeat(bs, count - 1), bs, unreserved);
    }
  }

  /** Reading a repeated byte sequence as text repeats its text. */
  lemma {:induction false} ToCharsRepeat(bs: seq<byte>, count: nat)
    ensures ToChars(Repeat(bs, count)) == Repeat(ToChars(bs), count)
  {
    if count > 0 {
      ToCharsRepeat(bs, count - 1);
      ToCharsAppend(Repeat(bs, count - 1), bs);
    }
  }

  /** The euro sign U+20AC is E2 82 AC in UTF-8, and RFC 3986 escapes it as "%E2%82%AC". */
  lemma EuroSignEscape()
    ensures Utf8Char('\U{20AC}') == [0xE2, 0x82, 0xAC]
    ensures EncodeBytes([0xE2, 0x82, 0xAC], ValidUrlCharacters) == [0x25, 0x45, 0x32, 0x25, 0x38, 0x32, 0x25, 0x41, 0x43]
    ensures ToChars([0x25, 0x45, 0x32, 0x25, 0x38, 0x32, 0x25, 0x41, 0x43]) == "%E2%82%AC"
  {
    Rfc3986Characters();
    EuroSignBytesEscaped(ValidUrlCharacters);
    EuroSignUtf8();
    EuroSignEscapeText();
  }

  /** U+20AC takes the three-byte form E2 82 AC. */
  lemma EuroSignUtf8()
    ensures Utf8Char('\U{20AC}') == [0xE2, 0x82, 0xAC]
  {
    assert '\U{20AC}' as int == 8364;
    assert 8364 / 4096 == 2 && 8364 / 64 % 64 == 2 && 8364 % 64 == 44;
  }

  /** The nine escape bytes of the euro sign, as text. */
  lemma EuroSignEscapeText()
    ensures ToChars([0x25, 0x45, 0x32, 0x25, 0x38, 0x32, 0x25, 0x41, 0x43]) == "%E2%82%AC"
  {
    var r := ToChars([0x25, 0x45, 0x32, 0x25, 0x38, 0x32, 0x25, 0x41, 0x43]);
    assert r[0] == '%' && r[1] == 'E' && r[2] == '2' && r[3] == '%' && r[4] == '8';
    assert r[5] == '2' && r[6] == '%' && r[7] == 'A' && r[8] == 'C';
  }

  /** The three bytes of the euro sign are each escaped by any ASCII unreserved set. */
  lemma EuroSignBytesEscaped(unreserved: string)
    requires AsciiWithoutPercent(unreserved)
    ensures EncodeBytes([0xE2, 0x82, 0xAC], unreserved) == [0x25, 0x45, 0x32, 0x25, 0x38, 0x32, 0x25, 0x41, 0x43]
  {
    var bs: seq<byte> := [0xE2, 0x82, 0xAC];
    HighByteEscaped(0xE2, unreserved);
    HighByteEscaped(0x82, unreserved);
    HighByteEscaped(0xAC, unreserved);
    assert ToUpperHex(14) == 'E' && ToUpperHex(2) == '2' && ToUpperHex(8) == '8';
    assert ToUpperHex(10) == 'A' && ToUpperHex(12) == 'C';
    assert EncodeByte(0xE2, unreserved) == [0x25, 0x45, 0x32];
    assert EncodeByte(0x82, unreserved) == [0x25, 0x38, 0x32];
    assert EncodeByte(0xAC, unreserved) == [0x25, 0x41, 0x43];
    assert bs[..2][..1] == [0xE2] && bs[..2] == [0xE2, 0x82] && bs[..1] == [0xE2];
    assert EncodeBytes([0xE2], unreserved) == [0x25, 0x45, 0x32] by {
      assert [0xE2][..0] == [];
    }
    assert EncodeBytes([0xE2, 0x82], unreserved) == [0x25, 0x45, 0x32, 0x25, 0x38, 0x32];
  }

  /** 'A' and 'C' are unreserved, so a read of one of them copies it. */
  lemma HexLettersUnreserved()
    ensures Char(0x41) in ValidUrlCharacters && Char(0x43) in ValidUrlCharacters
  {
    SchemeCharacterSets();
    assert IsUnreservedRfc3986('A') && IsUnreservedRfc3986('C');
  }

  /** A step that reads an unreserved byte copies it to `index`. */
  lemma CopyStep(buf: seq<byte>, tail: nat, n: nat, i: nat, index: nat, unreserved: string, c: byte)
    requires tail + n <= |buf| && i < n && index < |buf|
    requires buf[tail + i] == c && Char(c) in unreserved
    ensures InPlaceLoop(buf, tail, n, i, index, unreserved)
      == InPlaceLoop(buf[..index] + [c] + buf[index + 1..], tail, n, i + 1, index + 1, unreserved)
  {
    InPlaceStep(buf, tail, n, i, index, unreserved, buf[..index] + [c] + buf[index + 1..], i + 1, index + 1);
  }

  /** The last three steps for 29 euro signs: the bytes read at 250, 251 and 252 are the
      'A', 'C' and 'A' the writes left there, and each is copied. */
  lemma EuroSignsLastSteps(b0: seq<byte>, pre: seq<byte>, unreserved: string)
    requires |b0| == 256 && |pre| == 252 && b0[..252] == pre
    requires pre[250] == 0x41 && pre[251] == 0x43
    requires Char(0x41) in unreserved && Char(0x43) in unreserved
    ensures InPlaceLoop(b0, 166, 87, 84, 252, unreserved) == Success(pre + [0x41, 0x43, 0x41])
  {
    var u := unreserved;
    var b1 := b0[..252] + [0x41] + b0[253..];
    var b2 := b1[..253] + [0x43] + b1[254..];
    var b3 := b2[..254] + [0x41] + b2[255..];
    assert b3[..255] == pre + [0x41, 0x43, 0x41];
    assert b2[252] == 0x41 && b1[251] == 0x43 && b0[250] == 0x41;
    CopyStep(b2, 166, 87, 86, 254, u, 0x41);
    CopyStep(b1, 166, 87, 85, 253, u, 0x43);
    CopyStep(b0, 166, 87, 84, 252, u, 0x41);
  }

  /** The loop for 29 euro signs in the 256-byte stack buffer. The first 84 bytes are read
      before any write reaches them. The read of byte 84 at offset 250 finds the 'A' of
      the 28th sign's "%AC" instead. */
  lemma EuroSignsLoop(buf: seq<byte>, bs: seq<byte>, unreserved: string)
    requires bs == Repeat([0xE2, 0x82, 0xAC], 29)
    requires forall k :: 0 <= k < |bs| ==> bs[k] >= 0x80
    requires |buf| == 256 && buf[166..253] == bs
    requires AsciiWithoutPercent(unreserved)
    requires EncodeBytes([0xE2, 0x82, 0xAC], unreserved) == [0x25, 0x45, 0x32, 0x25, 0x38, 0x32, 0x25, 0x41, 0x43]
    requires Char(0x41) in unreserved && Char(0x43) in unreserved
    ensures InPlaceLoop(buf, 166, 87, 0, 0, unreserved)
      == Success(Repeat([0x25, 0x45, 0x32, 0x25, 0x38, 0x32, 0x25, 0x41, 0x43], 28) + [0x41, 0x43, 0x41])
  {
    var u := unreserved;
    var eb: seq<byte> := [0xE2, 0x82, 0xAC];
    var es: seq<byte> := [0x25, 0x45, 0x32, 0x25, 0x38, 0x32, 0x25, 0x41, 0x43];
    forall j | 0 < j < 84 ensures WrittenAfter(buf, 166, j, u) <= 166 + j {
      HighBytesWritten(buf, 166, bs, u, j);
    }
    HighBytesWritten(buf, 166, bs, u, 84);
    var pre := EncodeBytes(buf[166..250], u);
    assert pre == Repeat(es, 28) by {
      assert buf[166..250] == bs[..84];
      assert Repeat(eb, 29)[..84] == Repeat(eb, 28);
      EncodeRepeat(eb, 28, u);
    }
    assert pre[250] == 0x41 && pre[251] == 0x43 by {
      assert Repeat(es, 28) == Repeat(es, 27) + es;
    }
    EuroSignsLastSteps(pre + buf[252..], pre, u);
    InPlacePrefix(buf, 166, 87, 84, u);
  }

  /** `EncodeInBuffer` reads back the front the loop returns. */
  lemma EncodeInBufferOf(data: string, unreserved: string, bufferLength: nat, front: seq<byte>)
    requires MaxByteCount(Utf16Length(data)) <= bufferLength
    requires |Utf8(data)| <= MaxByteCount(Utf16Length(data))
    requires var dataByteLength := MaxByteCount(Utf16Length(data));
      InPlaceLoop(InitialBuffer(Utf8(data), dataByteLength, bufferLength),
        bufferLength - dataByteLength, |Utf8(data)|, 0, 0, unreserved) == Success(front)
    ensures EncodeInBuffer(data, unreserved, bufferLength) == Success(ToChars(front))
  {
  }

  /** `EncodeInBuffer` passes on the exception the loop throws. */
  lemma EncodeInBufferFails(data: string, unreserved: string, bufferLength: nat, error: EncodeError)
    requires MaxByteCount(Utf16Length(data)) <= bufferLength
    requires |Utf8(data)| <= MaxByteCount(Utf16Length(data))
    requires var dataByteLength := MaxByteCount(Utf16Length(data));
      InPlaceLoop(InitialBuffer(Utf8(data), dataByteLength, bufferLength),
        bufferLength - dataByteLength, |Utf8(data)|, 0, 0, unreserved) == Failure(error)
    ensures EncodeInBuffer(data, unreserved, bufferLength) == Failure(error)
  {
  }

  /** A buffer that holds `bs` at the start of its last `dataByteLength` bytes and zero
      everywhere else is `InitialBuffer`. */
  lemma InitialBufferPointwise(s: seq<byte>, bs: seq<byte>, dataByteLength: nat, bufferLength: nat)
    requires |bs| <= dataByteLength <= bufferLength && |s| == bufferLength
    requires forall k :: 0 <= k < |bs| ==> s[bufferLength - dataByteLength + k] == bs[k]
    requires forall k :: 0 <= k < bufferLength - dataByteLength ==> s[k] == 0
    requires forall k :: bufferLength - dataByteLength + |bs| <= k < bufferLength ==> s[k] == 0
    ensures s == InitialBuffer(bs, dataByteLength, bufferLength)
  {
    var tail := bufferLength - dataByteLength;
    var b := InitialBuffer(bs, dataByteLength, bufferLength);
    forall k | 0 <= k < bufferLength ensures s[k] == b[k] {
      if tail <= k < tail + |bs| {
        assert b[k] == b[tail..tail + |bs|][k - tail];
      }
    }
  }

  /** The encoding of 29 euro signs is 29 escapes "%E2%82%AC". */
  lemma EuroSignsEncoding()
    ensures Encode(3986, seq(29, _ => '\U{20AC}'), false, "") == Repeat("%E2%82%AC", 29)
  {
    var eb: seq<byte> := [0xE2, 0x82, 0xAC];
    var es: seq<byte> := [0x25, 0x45, 0x32, 0x25, 0x38, 0x32, 0x25, 0x41, 0x43];
    Rfc3986Characters();
    EuroSignEscape();
    Utf8Repeat('\U{20AC}', 29);
    EncodeRepeat(eb, 29, ValidUrlCharacters);
    ToCharsRepeat(es, 29);
  }

  /** What the code as written returns for 29 euro signs: 28 correct escapes followed by
      "ACA", and no exception. */
  lemma EuroSignsOutput()
    ensures EncodeAsWritten(3986, seq(29, _ => '\U{20AC}'), false, "") == Success(Repeat("%E2%82%AC", 28) + "ACA")
  {
    var data := seq(29, _ => '\U{20AC}');
    var eb: seq<byte> := [0xE2, 0x82, 0xAC];
    var es: seq<byte> := [0x25, 0x45, 0x32, 0x25, 0x38, 0x32, 0x25, 0x41, 0x43];
    Rfc3986Characters();
    EuroSignEscape();
    Utf8Repeat('\U{20AC}', 29);
    Utf8ThreeByte(data);
    assert BufferLength(EncodedByteLength(Utf16Length(data))) == 256;
    var front := Repeat(es, 28) + [0x41, 0x43, 0x41];
    HexLettersUnreserved();
    EuroSignsLoop(InitialBuffer(Utf8(data), 90, 256), Utf8(data), ValidUrlCharacters);
    EncodeInBufferOf(data, ValidUrlCharacters, 256, front);
    EuroSignsOutputText();
  }

  /** The bytes of `EuroSignsLoop`'s result, read as text. */
  lemma EuroSignsOutputText()
    ensures ToChars(Repeat([0x25, 0x45, 0x32, 0x25, 0x38, 0x32, 0x25, 0x41, 0x43], 28) + [0x41, 0x43, 0x41])
      == Repeat("%E2%82%AC", 28) + "ACA"
  {
    var es: seq<byte> := [0x25, 0x45, 0x32, 0x25, 0x38, 0x32, 0x25, 0x41, 0x43];
    EuroSignEscape();
    ToCharsAppend(Repeat(es, 28), [0x41, 0x43, 0x41]);
    ToCharsRepeat(es, 28);
    var t := ToChars([0x41, 0x43, 0x41]);
    assert t[0] == 'A' && t[1] == 'C' && t[2] == 'A';
    assert t == "ACA";
  }

  /** The corrected sizing: three times the maximal UTF-8 size, in the same 32-bit
      arithmetic. Once the product exceeds `int.MaxValue` its wrapped value is below
      `dataByteLength`, negative or not. */
  function ResizedEncodedByteLength(charCount: nat): (r: int)
    ensures 3 * MaxByteCount(charCount) <= Int32Max ==> r == 3 * MaxByteCount(charCount)
    ensures MaxByteCount(charCount) <= Int32Max < 3 * MaxByteCount(charCount) ==> r < MaxByteCount(charCount)
  {
    Wrap32(3 * MaxByteCount(charCount))
  }

  /** The corrected request does not wrap exactly below 238,609,294 UTF-16 units. */
  lemma ResizedEncodedByteLengthLimit(charCount: nat)
    ensures 3 * MaxByteCount(charCount) <= Int32Max <==> charCount < 238_609_294
  {
  }

  /** The corrected sizing fits every text short enough for its 32-bit sizes. */
  lemma ResizedBufferFits(unreserved: string, data: string)
    requires Utf16Length(data) < 238_609_294
    ensures BufferFits(Utf8(data), unreserved, MaxByteCount(Utf16Length(data)),
      BufferLength(ResizedEncodedByteLength(Utf16Length(data))))
  {
    Utf8Bound(data);
    FitsWithRoom(Utf8(data), unreserved, MaxByteCount(Utf16Length(data)),
      BufferLength(ResizedEncodedByteLength(Utf16Length(data))));
  }

  /** Lines 101-115, the body of the loop: writes the encoding of `symbol` at `index`. */
  method WriteEncoded(dataBuffer: array<byte>, index: nat, symbol: byte, unreservedChars: string) returns (next: nat)
    requires index + |EncodeByte(symbol, unreservedChars)| <= dataBuffer.Length
    modifies dataBuffer
    ensures next == index + |EncodeByte(symbol, unreservedChars)|
    ensures dataBuffer[..] == old(dataBuffer[..index]) + EncodeByte(symbol, unreservedChars) + old(dataBuffer[next..])
  {
    if Char(symbol) in unreservedChars {
      dataBuffer[index] := symbol;
      next := index + 1;
    } else {
      dataBuffer[index] := Percent;
      // Break the byte into its two nibbles and write each as a hex digit.
      var hiNibble := symbol as int / 16;
      var loNibble := symbol as int % 16;
      dataBuffer[index + 1] := ToUpperHex(hiNibble) as int as byte;
      dataBuffer[index + 2] := ToUpperHex(loNibble) as int as byte;
      next := index + 3;
    }
  }

  /** Lines 99-115: encodes the `bytesWritten` bytes at `dataBuffer[tail..]` into the front
      of the same buffer and returns the write index, as `InPlaceLoop` describes: a read
      sees the bytes already written, and a write past the end throws. The model checks the
      room before the first write of a byte rather than at the write that throws; the
      buffer is not used after the exception. */
  method EncodeInPlace(dataBuffer: array<byte>, tail: nat, bytesWritten: nat, unreservedChars: string)
    returns (r: Result<nat, EncodeError>)
    requires tail + bytesWritten <= dataBuffer.Length
    modifies dataBuffer
    ensures r.Success? ==> (r.value <= dataBuffer.Length &&
      InPlaceLoop(old(dataBuffer[..]), tail, bytesWritten, 0, 0, unreservedChars) == Success(dataBuffer[..r.value]))
    ensures r.Failure? ==>
      InPlaceLoop(old(dataBuffer[..]), tail, bytesWritten, 0, 0, unreservedChars) == Failure(r.error)
  {
    ghost var start := dataBuffer[..];
    var index: nat := 0;
    var i := 0;
    while i < bytesWritten
      invariant 0 <= i <= bytesWritten && index <= dataBuffer.Length
      invariant InPlaceLoop(dataBuffer[..], tail, bytesWritten, i, index, unreservedChars)
        == InPlaceLoop(start, tail, bytesWritten, 0, 0, unreservedChars)
    {
      var symbol := dataBuffer[tail + i];
      var width := if Char(symbol) in unreservedChars then 1 else 3;
      assert width == |EncodeByte(symbol, unreservedChars)|;
      if index + width > dataBuffer.Length {
        InPlaceOutOfRoom(dataBuffer[..], tail, bytesWritten, i, index, unreservedChars);
        return Failure(IndexOutOfRange);
      }
      ghost var before, from := dataBuffer[..], index;
      index := WriteEncoded(dataBuffer, index, symbol, unreservedChars);
      InPlaceStep(before, tail, bytesWritten, i, from, unreservedChars, dataBuffer[..], i + 1, index);
      i := i + 1;
    }
    assert dataBuffer[..][..index] == dataBuffer[..index];
    return Success(index);
  }

  /** Lines 88-117 around `EncodeInPlace`: the UTF-8 bytes are written into the tail of a
      buffer of `bufferLength` bytes and the encoded front is read back as text. */
  method EncodeThroughBuffer(data: string, unreservedChars: string, bufferLength: nat)
    returns (r: Result<string, EncodeError>)
    requires MaxByteCount(Utf16Length(data)) <= bufferLength
    ensures r == EncodeInBuffer(data, unreservedChars, bufferLength)
  {
    var dataByteLength := MaxByteCount(Utf16Length(data));
    var dataBuffer := new byte[bufferLength](_ => 0);
    var tail := bufferLength - dataByteLength;
    var bytes := Utf8(data);
    Utf8Bound(data);
    forall k | 0 <= k < |bytes| {
      dataBuffer[tail + k] := bytes[k];
    }
    InitialBufferPointwise(dataBuffer[..], bytes, dataByteLength, bufferLength);
    var index := EncodeInPlace(dataBuffer, tail, |bytes|, unreservedChars);
    match index {
      case Success(i) =>
        r := Success(ToChars(dataBuffer[..i]));
        EncodeInBufferOf(data, unreservedChars, bufferLength, dataBuffer[..i]);
      case Failure(e) =>
        r := Failure(e);
        EncodeInBufferFails(data, unreservedChars, bufferLength, e);
    }
  }

  /** Line 88: `AsSpan` of a null string is the empty span. */
  function AsSpan(data: Option<string>): string {
    if data.Some? then data.value else ""
  }

  /** Lines 75-123 as written, for a possibly null `data`. The result is `Encode` of the
      input when the sizing fits (`AsWrittenFitsEncodes`), as for ASCII text
      (`AsciiEncodedAsWritten`), a wrong encoding for some longer multi-byte text
      (`ThreeByteTextMisencoded`), and `ArgumentOutOfRangeException` for text too long for
      its 32-bit sizes (`LongTextThrows`). */
  method After(rfcNumber: int, data: Option<string>, path: bool, escapeUriString: string -> string)
    returns (r: Result<string, EncodeError>)
    ensures r == EncodeAsWritten(rfcNumber, AsSpan(data), path, PathCharacters(escapeUriString))
    ensures data.None? ==> r == Success("")
  {
    var validUrlCharacters;
    match TryGetRFCEncodingSchemes(rfcNumber) {
      case Some(scheme) => validUrlCharacters := scheme;
      case None => validUrlCharacters := ValidUrlCharacters;
    }
    var unreservedChars := validUrlCharacters + (if path then PathCharacters(escapeUriString) else "");
    var text := AsSpan(data);
    if data.None? {
      EmptyEncodedAsWritten(rfcNumber, path, PathCharacters(escapeUriString));
    }
    var dataByteLength := MaxByteCount(Utf16Length(text));
    if dataByteLength > Int32Max {
      return Failure(ArgumentOutOfRange);
    }
    var encodedByteLength := Wrap32(2 * dataByteLength);
    var bufferLength := if encodedByteLength <= MaxStackLimit then MaxStackLimit else encodedByteLength;
    assert bufferLength == BufferLength(EncodedByteLength(Utf16Length(text)));
    if bufferLength < dataByteLength {
      return Failure(ArgumentOutOfRange);
    }
    r := EncodeThroughBuffer(text, unreservedChars, bufferLength);
  }

  /** `After` with the corrected sizing of `ResizedEncodedByteLength`: every text below
      238,609,294 UTF-16 units is encoded, and longer text throws
      `ArgumentOutOfRangeException`, since no buffer of 32-bit size holds three times its
      maximal UTF-8 size. */
  method AfterResized(rfcNumber: int, data: Option<string>, path: bool, escapeUriString: string -> string)
    returns (r: Result<string, EncodeError>)
    ensures Utf16Length(AsSpan(data)) < 238_609_294 ==>
      r == Success(Encode(rfcNumber, AsSpan(data), path, PathCharacters(escapeUriString)))
    ensures Utf16Length(AsSpan(data)) >= 238_609_294 ==> r == Failure(ArgumentOutOfRange)
    ensures data.None? ==> r == Success("")
  {
    var validUrlCharacters;
    match TryGetRFCEncodingSchemes(rfcNumber) {
      case Some(scheme) => validUrlCharacters := scheme;
      case None => validUrlCharacters := ValidUrlCharacters;
    }
    var unreservedChars := validUrlCharacters + (if path then PathCharacters(escapeUriString) else "");
    var text := AsSpan(data);
    EmptyEncodedAsWritten(rfcNumber, path, PathCharacters(escapeUriString));
    AsciiEncodedAsWritten(rfcNumber, "", path, PathCharacters(escapeUriString));
    var dataByteLength := MaxByteCount(Utf16Length(text));
    if dataByteLength > Int32Max {
      return Failure(ArgumentOutOfRange);
    }
    var encodedByteLength := Wrap32(3 * dataByteLength);
    var bufferLength := if encodedByteLength <= MaxStackLimit then MaxStackLimit else encodedByteLength;
    if bufferLength < dataByteLength {
      return Failure(ArgumentOutOfRange);
    }
    ResizedEncodedByteLengthLimit(Utf16Length(text));
    ResizedBufferFits(unreservedChars, text);
    BufferFitsEncodes(text, unreservedChars, bufferLength);
    r := EncodeThroughBuffer(text, unreservedChars, bufferLength);
  }
}
