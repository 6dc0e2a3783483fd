/** `decodeJwt` of `frontend/src/lib/session.ts`, up to the text it hands to
    `JSON.parse`: split, alphabet swap, padding, `atob`, percent-hex and
    `decodeURIComponent`. The encoder is that of section 2 of RFC 7515 and
    section 5 of RFC 4648; text is a sequence of Unicode scalar values. */
module JwtDecode {
  import opened Wrappers
  import opened Numbers

  type Sextet = s: int | 0 <= s < 64

  // --------------------------------------------------------------------- UTF-8

  function EncodeChar(c: char): seq<Byte> {
    var n := c as int;
    if n < 0x80 then [n]
    else if n < 0x800 then [0xC0 + n / 64, 0x80 + n % 64]
    else if n < 0x1_0000 then [0xE0 + n / 4096, 0x80 + n / 64 % 64, 0x80 + n % 64]
    else [0xF0 + n / 262144, 0x80 + n / 4096 % 64, 0x80 + n / 64 % 64, 0x80 + n % 64]
  }

  function Utf8(text: string): seq<Byte> {
    if text == [] then [] else EncodeChar(text[0]) + Utf8(text[1..])
  }

  predicate Continuation(b: Byte) {
    0x80 <= b < 0xC0
  }

  /** How many bytes the sequence that starts with `b` takes; 0 if none does. */
  function SequenceLength(b: Byte): nat {
    if b < 0x80 then 1
    else if 0xC2 <= b < 0xE0 then 2
    else if 0xE0 <= b < 0xF0 then 3
    else if 0xF0 <= b < 0xF5 then 4
    else 0
  }

  function CodePoint(bytes: seq<int>): int
    requires 1 <= |bytes| <= 4
  {
    if |bytes| == 1 then bytes[0]
    else if |bytes| == 2 then (bytes[0] - 0xC0) * 64 + (bytes[1] - 0x80)
    else if |bytes| == 3 then (bytes[0] - 0xE0) * 4096 + (bytes[1] - 0x80) * 64 + (bytes[2] - 0x80)
    else (bytes[0] - 0xF0) * 262144 + (bytes[1] - 0x80) * 4096 + (bytes[2] - 0x80) * 64 + (bytes[3] - 0x80)
  }

  /** Not overlong, not a surrogate, within Unicode. */
  predicate Scalar(n: int, length: nat) {
    && (length == 3 ==> n >= 0x800)
    && (length == 4 ==> n >= 0x1_0000)
    && (0 <= n < 0xD800 || 0xE000 <= n < 0x11_0000)
  }

  function DecodeUtf8(bytes: seq<Byte>): Option<string> {
    if bytes == [] then Some([])
    else
      var k := SequenceLength(bytes[0]);
      if k == 0 || |bytes| < k || (exists i :: 1 <= i < k && !Continuation(bytes[i]))
        || !Scalar(CodePoint(bytes[..k]), k) then None
      else
        match DecodeUtf8(bytes[k..])
        case None => None
        case Some(rest) => Some([CodePoint(bytes[..k]) as char] + rest)
  }

  lemma EncodedCharIsScalar(c: char)
    ensures var e := EncodeChar(c);
      && 1 <= |e| <= 4 && SequenceLength(e[0]) == |e|
      && (forall i :: 1 <= i < |e| ==> Continuation(e[i]))
      && Scalar(c as int, |e|)
  {
  }

  lemma LowDigits(n: nat)
    ensures n == n / 64 * 64 + n % 64 && n / 64 / 64 == n / 4096 && n / 64 / 64 / 64 == n / 262144
  {
  }

  lemma EncodedCharValue(c: char)
    ensures 1 <= |EncodeChar(c)| <= 4 && CodePoint(EncodeChar(c)) == c as int
  {
    var n := c as int;
    LowDigits(n);
    LowDigits(n / 64);
    LowDigits(n / 64 / 64);
  }

  lemma DecodeStep(e: seq<Byte>, rest: seq<Byte>)
    requires 1 <= |e| <= 4 && SequenceLength(e[0]) == |e| && (forall i :: 1 <= i < |e| ==> Continuation(e[i]))
    requires Scalar(CodePoint(e), |e|)
    ensures DecodeUtf8(e + rest) ==
      match DecodeUtf8(rest) case None => None case Some(text) => Some([CodePoint(e) as char] + text)
  {
    assert (e + rest)[..|e|] == e && (e + rest)[|e|..] == rest;
  }

  lemma {:induction false} Utf8RoundTrip(text: string)
    ensures DecodeUtf8(Utf8(text)) == Some(text)
  {
    if text != [] {
      var rest := Utf8(text[1..]);
      EncodedCharIsScalar(text[0]);
      EncodedCharValue(text[0]);
      DecodeStep(EncodeChar(text[0]), rest);
      Utf8RoundTrip(text[1..]);
      assert text == [text[0]] + text[1..];
    }
  }

  // --------------------------------------------------------------- percent-hex

  function HexDigit(n: int): char
    requires 0 <= n < 16
  {
    if n < 10 then ('0' as int + n) as char else ('a' as int + (n - 10)) as char
  }

  /** `n.toString(16)`. */
  function Hex(n: Byte): string {
    if n < 16 then [HexDigit(n)] else [HexDigit(n / 16), HexDigit(n % 16)]
  }

  /** `("00" + s).slice(-2)`. */
  function LastTwo(s: string): string {
    var t := "00" + s;
    t[|t| - 2..]
  }

  function PercentEncode(bytes: seq<Byte>): string {
    if bytes == [] then [] else "%" + LastTwo(Hex(bytes[0])) + PercentEncode(bytes[1..])
  }

  function HexValue(c: char): Option<int> {
    if '0' <= c <= '9' then Some(c as int - '0' as int)
    else if 'a' <= c <= 'f' then Some(c as int - 'a' as int + 10)
    else if 'A' <= c <= 'F' then Some(c as int - 'A' as int + 10)
    else None
  }

  lemma HexValueRange(c: char)
    ensures HexValue(c).Some? ==> 0 <= HexValue(c).value < 16
  {
  }

  /** The bytes of a string that is all escapes, which is what `PercentEncode`
      produces. */
  function PercentDecode(s: string): Option<seq<Byte>> {
    if s == [] then Some([])
    else if |s| < 3 || s[0] != '%' || HexValue(s[1]).None? || HexValue(s[2]).None? then None
    else
      HexValueRange(s[1]);
      HexValueRange(s[2]);
      match PercentDecode(s[3..])
      case None => None
      case Some(rest) => Some([HexValue(s[1]).value * 16 + HexValue(s[2]).value] + rest)
  }

  function DecodeUriComponent(s: string): Option<string> {
    match PercentDecode(s)
    case None => None
    case Some(bytes) => DecodeUtf8(bytes)
  }

  lemma TwoDigits(b: Byte)
    ensures LastTwo(Hex(b)) == [HexDigit(b / 16), HexDigit(b % 16)]
  {
  }

  lemma EscapeDecodes(b: Byte, rest: string)
    ensures var s := "%" + LastTwo(Hex(b)) + rest;
      |s| >= 3 && s[0] == '%' && s[3..] == rest
      && HexValue(s[1]).Some? && HexValue(s[2]).Some? && HexValue(s[1]).value * 16 + HexValue(s[2]).value == b
  {
    TwoDigits(b);
  }

  lemma {:induction false} PercentRoundTrip(bytes: seq<Byte>)
    ensures PercentDecode(PercentEncode(bytes)) == Some(bytes)
  {
    if bytes != [] {
      PercentRoundTrip(bytes[1..]);
      EscapeDecodes(bytes[0], PercentEncode(bytes[1..]));
      assert bytes == [bytes[0]] + bytes[1..];
    }
  }

  // --------------------------------------------------------------------- base64

  /** The two alphabets differ in the last two characters only. */
  function Letter(s: Sextet, plus: char, slash: char): char {
    if s < 26 then ('A' as int + s) as char
    else if s < 52 then ('a' as int + (s - 26)) as char
    else if s < 62 then ('0' as int + (s - 52)) as char
    else if s == 62 then plus else slash
  }

  function ValueOf(c: char): Option<Sextet> {
    if 'A' <= c <= 'Z' then Some(c as int - 'A' as int)
    else if 'a' <= c <= 'z' then Some(c as int - 'a' as int + 26)
    else if '0' <= c <= '9' then Some(c as int - '0' as int + 52)
    else if c == '+' then Some(62)
    else if c == '/' then Some(63)
    else None
  }

  /** Three bytes to four sextets; a tail of one or two bytes to two or three. */
  function Sextets(bytes: seq<Byte>): seq<Sextet> {
    if bytes == [] then []
    else if |bytes| == 1 then [bytes[0] / 4, bytes[0] % 4 * 16]
    else if |bytes| == 2 then [bytes[0] / 4, bytes[0] % 4 * 16 + bytes[1] / 16, bytes[1] % 16 * 4]
    else
      [bytes[0] / 4, bytes[0] % 4 * 16 + bytes[1] / 16, bytes[1] % 16 * 4 + bytes[2] / 64, bytes[2] % 64]
      + Sextets(bytes[3..])
  }

  function Bytes(s: seq<Sextet>): seq<Byte>
    requires |s| % 4 != 1
  {
    if s == [] then []
    else
      var v: seq<int> := s;
      if |v| == 2 then [v[0] * 4 + v[1] / 16]
      else if |v| == 3 then [v[0] * 4 + v[1] / 16, v[1] % 16 * 16 + v[2] / 4]
      else [v[0] * 4 + v[1] / 16, v[1] % 16 * 16 + v[2] / 4, v[2] % 4 * 64 + v[3]] + Bytes(s[4..])
  }

  lemma GroupRoundTrip(a: Byte, b: Byte, c: Byte)
    ensures var s: seq<int> := [a / 4, a % 4 * 16 + b / 16, b % 16 * 4 + c / 64, c % 64];
      && s[0] * 4 + s[1] / 16 == a && s[1] % 16 * 16 + s[2] / 4 == b && s[2] % 4 * 64 + s[3] == c
  {
  }

  lemma {:induction false} SextetsLength(bytes: seq<Byte>)
    ensures |Sextets(bytes)| % 4 == (if |bytes| % 3 == 0 then 0 else |bytes| % 3 + 1)
  {
    if |bytes| >= 3 {
      SextetsLength(bytes[3..]);
    }
  }

  lemma {:induction false} SextetsRoundTrip(bytes: seq<Byte>)
    ensures |Sextets(bytes)| % 4 != 1 && Bytes(Sextets(bytes)) == bytes
  {
    SextetsLength(bytes);
    if |bytes| >= 3 {
      var rest := bytes[3..];
      SextetsRoundTrip(rest);
      GroupRoundTrip(bytes[0], bytes[1], bytes[2]);
      assert Sextets(bytes)[4..] == Sextets(rest);
      assert bytes == [bytes[0], bytes[1], bytes[2]] + rest;
    }
  }

  function Letters(s: seq<Sextet>, plus: char, slash: char): (text: string)
    ensures |text| == |s|
  {
    seq(|s|, i requires 0 <= i < |s| => Letter(s[i], plus, slash))
  }

  /** Unpadded base64url: section 2 of RFC 7515. */
  function Base64Url(bytes: seq<Byte>): string {
    Letters(Sextets(bytes), '-', '_')
  }

  /** Padded base64: section 4 of RFC 4648. The padding is fixed by the number of
      bytes in the last group. */
  function Base64(bytes: seq<Byte>): string {
    Letters(Sextets(bytes), '+', '/') + Padding(bytes)
  }

  function Padding(bytes: seq<Byte>): string {
    if |bytes| % 3 == 0 then "" else if |bytes| % 3 == 1 then "==" else "="
  }

  // ----------------------------------------------------------------- the decoder

  /** `s.replace(/target/g, replacement)` for single characters. */
  function ReplaceChar(s: string, target: char, replacement: char): string {
    seq(|s|, i requires 0 <= i < |s| => if s[i] == target then replacement else s[i])
  }

  function Repeat(c: char, n: nat): string {
    seq(n, _ => c)
  }

  function PadEnd(s: string): string {
    s + Repeat('=', (4 - |s| % 4) % 4)
  }

  predicate Space(c: char) {
    c == ' ' || c == '\t' || c == '\n' || c == '\r' || c as int == 12
  }

  function RemoveSpace(s: string): string {
    if s == [] then [] else (if Space(s[0]) then [] else [s[0]]) + RemoveSpace(s[1..])
  }

  function DropPadding(s: string): string {
    if |s| % 4 != 0 || s == [] || s[|s| - 1] != '=' then s
    else if s[|s| - 2] != '=' then s[..|s| - 1]
    else s[..|s| - 2]
  }

  function ValuesOf(s: string): Option<seq<Sextet>> {
    if s == [] then Some([])
    else
      match ValueOf(s[0])
      case None => None
      case Some(v) =>
        match ValuesOf(s[1..])
        case None => None
        case Some(rest) => Some([v] + rest)
  }

  lemma {:induction false} ValuesOfLength(s: string)
    ensures ValuesOf(s).Some? ==> |ValuesOf(s).value| == |s|
  {
    if s != [] { ValuesOfLength(s[1..]); }
  }

  /** `atob`: forgiving base64 decoding. */
  function Atob(s: string): Option<seq<Byte>> {
    var t := DropPadding(RemoveSpace(s));
    if |t| % 4 == 1 then None
    else
      ValuesOfLength(t);
      match ValuesOf(t)
      case None => None
      case Some(v) => Some(Bytes(v))
  }

  /** `token.split(".")`. */
  function Split(token: string): (parts: seq<string>)
    ensures parts != []
  {
    if token == [] then [[]]
    else if token[0] == '.' then [[]] + Split(token[1..])
    else
      var rest := Split(token[1..]);
      [[token[0]] + rest[0]] + rest[1..]
  }

  /** The second part of the token in the padded form of the other alphabet, or `None`
      where `decodeJwt` returns null at once. */
  function Padded(token: string): Option<string> {
    var parts := Split(token);
    if |parts| < 2 || parts[1] == "" then None
    else Some(PadEnd(ReplaceChar(ReplaceChar(parts[1], '-', '+'), '_', '/')))
  }

  /** With `atob`: the text that is parsed, or `None` where decoding it throws. */
  function AtobText(padded: string): Option<string> {
    match Atob(padded)
    case None => None
    case Some(bytes) => DecodeUriComponent(PercentEncode(bytes))
  }

  /** `Buffer.from(s, "base64")` stops at the padding, knows both alphabets and skips
      whatever is in neither. */
  function BufferValues(s: string): seq<Sextet> {
    if s == [] || s[0] == '=' then []
    else
      var c := if s[0] == '-' then '+' else if s[0] == '_' then '/' else s[0];
      (match ValueOf(c) case None => [] case Some(v) => [v]) + BufferValues(s[1..])
  }

  function BufferBytes(s: string): seq<Byte> {
    var v := BufferValues(s);
    Bytes(if |v| % 4 == 1 then v[..|v| - 1] else v)
  }

  /** Without `atob`: `toString("utf-8")`, which never throws. `repair` is what it
      makes of bytes that are not UTF-8. */
  function BufferText(padded: string, repair: seq<Byte> -> string): string {
    match DecodeUtf8(BufferBytes(padded))
    case None => repair(BufferBytes(padded))
    case Some(text) => text
  }

  /** The text `decodeJwt` parses in a browser. */
  function PayloadText(token: string): Option<string> {
    match Padded(token)
    case None => None
    case Some(padded) => AtobText(padded)
  }

  /** `decodeJwt`, given whether there is an `atob` and what `JSON.parse` makes of a
      text; `None` is null. */
  function DecodeJwt<P>(token: string, hasAtob: bool, repair: seq<Byte> -> string,
                        parse: string -> Option<P>): Option<P> {
    match Padded(token)
    case None => None
    case Some(padded) =>
      match (if hasAtob then AtobText(padded) else Some(BufferText(padded, repair)))
      case None => None
      case Some(text) => parse(text)
  }

  // ------------------------------------------------------------------ round trip

  lemma LetterIsPlain(s: Sextet)
    ensures ValueOf(Letter(s, '+', '/')) == Some(s)
    ensures !Space(Letter(s, '+', '/')) && Letter(s, '+', '/') != '='
    ensures Letter(s, '-', '_') != '.'
    ensures var c := Letter(s, '-', '_');
      var d := if c == '-' then '+' else c;
      (if d == '_' then '/' else d) == Letter(s, '+', '/')
  {
  }

  /** Whatever the bytes, the swap and the computed padding turn their unpadded
      base64url form into the standard padded form. */
  lemma SwapAndPadIsStandard(bytes: seq<Byte>)
    ensures PadEnd(ReplaceChar(ReplaceChar(Base64Url(bytes), '-', '+'), '_', '/')) == Base64(bytes)
  {
    var s := Sextets(bytes);
    var swapped := ReplaceChar(ReplaceChar(Base64Url(bytes), '-', '+'), '_', '/');
    forall i | 0 <= i < |s| ensures swapped[i] == Letters(s, '+', '/')[i] {
      LetterIsPlain(s[i]);
    }
    assert swapped == Letters(s, '+', '/');
    SextetsLength(bytes);
    assert Repeat('=', 0) == "" && Repeat('=', 1) == "=" && Repeat('=', 2) == "==";
  }

  lemma {:induction false} NoSpace(s: string)
    requires forall i :: 0 <= i < |s| ==> !Space(s[i])
    ensures RemoveSpace(s) == s
  {
    if s != [] {
      NoSpace(s[1..]);
    }
  }

  lemma ValuesOfCons(c: char, rest: string)
    requires ValueOf(c).Some? && ValuesOf(rest).Some?
    ensures ValuesOf([c] + rest) == Some([ValueOf(c).value] + ValuesOf(rest).value)
  {
    assert ([c] + rest)[1..] == rest;
  }

  lemma {:induction false} ValuesOfLetters(s: seq<Sextet>)
    ensures ValuesOf(Letters(s, '+', '/')) == Some(s)
  {
    if s != [] {
      LetterIsPlain(s[0]);
      ValuesOfLetters(s[1..]);
      ValuesOfCons(Letter(s[0], '+', '/'), Letters(s[1..], '+', '/'));
      assert Letters(s, '+', '/') == [Letter(s[0], '+', '/')] + Letters(s[1..], '+', '/');
      assert s == [s[0]] + s[1..];
    }
  }

  lemma PaddingDrops(letters: string, bytes: seq<Byte>)
    requires |letters| % 4 == (if |bytes| % 3 == 0 then 0 else |bytes| % 3 + 1)
    requires forall i :: 0 <= i < |letters| ==> letters[i] != '='
    ensures DropPadding(letters + Padding(bytes)) == letters
  {
  }

  lemma AtobRoundTrip(bytes: seq<Byte>)
    ensures Atob(Base64(bytes)) == Some(bytes)
  {
    var s := Sextets(bytes);
    var letters := Letters(s, '+', '/');
    forall i | 0 <= i < |s| ensures !Space(letters[i]) && letters[i] != '=' {
      LetterIsPlain(s[i]);
    }
    NoSpace(Base64(bytes));
    SextetsLength(bytes);
    PaddingDrops(letters, bytes);
    SextetsRoundTrip(bytes);
    ValuesOfLetters(s);
  }

  lemma {:induction false} SplitAtDot(first: string, rest: string)
    requires forall i :: 0 <= i < |first| ==> first[i] != '.'
    ensures Split(first + "." + rest) == [first] + Split(rest)
  {
    var token := first + "." + rest;
    if first == [] {
      assert token[1..] == rest;
    } else {
      SplitAtDot(first[1..], rest);
      assert token[1..] == first[1..] + "." + rest;
      assert first == [first[0]] + first[1..];
    }
  }

  lemma PaddedPayload(header: string, text: string, signature: string)
    requires forall i :: 0 <= i < |header| ==> header[i] != '.'
    ensures Padded(header + "." + Base64Url(Utf8(text)) + "." + signature)
      == if text == "" then None else Some(Base64(Utf8(text)))
  {
    var bytes := Utf8(text);
    var segment := Base64Url(bytes);
    var token := header + "." + segment + "." + signature;
    forall i | 0 <= i < |segment| ensures segment[i] != '.' {
      LetterIsPlain(Sextets(bytes)[i]);
    }
    assert token == header + "." + (segment + "." + signature);
    SplitAtDot(header, segment + "." + signature);
    SplitAtDot(segment, signature);
    assert Split(token)[1] == segment;
    if text != "" {
      assert |EncodeChar(text[0])| >= 1;
      assert segment != "";
      SwapAndPadIsStandard(bytes);
    }
  }

  /** The round trip: for every text, taking its UTF-8 bytes through base64url and
      through the decoder gives the text back, whatever surrounds it in the
      token. The empty text is the one exception: its segment is empty. */
  lemma DecodeRoundTrip(header: string, text: string, signature: string)
    requires forall i :: 0 <= i < |header| ==> header[i] != '.'
    ensures PayloadText(header + "." + Base64Url(Utf8(text)) + "." + signature)
      == if text == "" then None else Some(text)
  {
    PaddedPayload(header, text, signature);
    AtobRoundTrip(Utf8(text));
    PercentRoundTrip(Utf8(text));
    Utf8RoundTrip(text);
  }

  lemma {:induction false} BufferReadsLetters(s: seq<Sextet>, rest: string)
    requires rest == [] || rest[0] == '='
    ensures BufferValues(Letters(s, '+', '/') + rest) == s
  {
    var text := Letters(s, '+', '/') + rest;
    if s == [] {
      assert text == rest;
    } else {
      LetterIsPlain(s[0]);
      BufferReadsLetters(s[1..], rest);
      assert text[0] == Letter(s[0], '+', '/') && text[1..] == Letters(s[1..], '+', '/') + rest;
    }
  }

  /** Where there is no `atob` the padded form decodes to the same bytes. */
  lemma BufferRoundTrip(bytes: seq<Byte>)
    ensures BufferBytes(Base64(bytes)) == bytes
  {
    SextetsRoundTrip(bytes);
    BufferReadsLetters(Sextets(bytes), Padding(bytes));
  }

  /** So decoding a token is parsing the text it carries, whatever that is, with and
      without `atob`, for every parser that has no use for the empty text. */
  lemma DecodeJwtParsesThePayload<P>(header: string, text: string, signature: string, hasAtob: bool,
                                     repair: seq<Byte> -> string, parse: string -> Option<P>)
    requires forall i :: 0 <= i < |header| ==> header[i] != '.'
    requires parse("") == None
    ensures DecodeJwt(header + "." + Base64Url(Utf8(text)) + "." + signature, hasAtob, repair, parse) == parse(text)
  {
    PaddedPayload(header, text, signature);
    if text != "" && !hasAtob {
      BufferRoundTrip(Utf8(text));
      Utf8RoundTrip(text);
    }
    DecodeRoundTrip(header, text, signature);
  }
}
