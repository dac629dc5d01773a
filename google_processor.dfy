/**
 * GoogleTranslatorProcessor: translates one request entry through the free Google
 * translation endpoint. The HTTP exchange is a parameter of the model; the URL, the form
 * encoding of the text and the handling of the answer are modelled as the processor does them.
 */
module GoogleProcessor {
  import opened Wrappers
  import opened JavaText
  import opened TranslationFiles
  import opened GoogleResults
  import opened Engine

  /** The translation endpoint: host, path and client parameter. */
  const Endpoint := "https://translate.googleapis.com" + "/translate_a/t" + "?client=dict-chrome-ex"

  /** The endpoint followed by the source-language parameter's name. */
  const GoogleTranslateApi := Endpoint + "&sl="

  // ---------------------------------------------------------------------------------------
  // application/x-www-form-urlencoded, UTF-8 (java.net.URLEncoder)
  // ---------------------------------------------------------------------------------------

  /** The characters the form encoding leaves as they are. */
  predicate Unreserved(c: char) {
    'a' <= c <= 'z' || 'A' <= c <= 'Z' || '0' <= c <= '9' || c == '.' || c == '-' || c == '*' || c == '_'
  }

  /** The characters that can stand in encoded text: the unreserved ones, '+' and '%'
    * followed by upper-case hexadecimal digits. */
  predicate FormSafe(c: char) {
    Unreserved(c) || c == '+' || c == '%'
  }

  /** The UTF-8 encoding of one Unicode scalar value, as byte values. */
  function Utf8(c: char): (bytes: seq<int>)
    ensures 1 <= |bytes| <= 4
    ensures forall i | 0 <= i < |bytes| :: 0 <= bytes[i] < 256
  {
    var n := c as int;
    if n < 0x80 then [n]
    else if n < 0x800 then [0xC0 + n / 64, 0x80 + n % 64]
    else if n < 0x10000 then [0xE0 + n / 64 / 64, 0x80 + n / 64 % 64, 0x80 + n % 64]
    else [0xF0 + n / 64 / 64 / 64, 0x80 + n / 64 / 64 % 64, 0x80 + n / 64 % 64, 0x80 + n % 64]
  }

  /** An upper-case hexadecimal digit. */
  function HexDigit(d: int): char
    requires 0 <= d < 16
  {
    if d < 10 then ('0' as int + d) as char else ('A' as int + d - 10) as char
  }

  /** Each byte as '%' and two upper-case hexadecimal digits. */
  function PercentEncoded(bytes: seq<int>): (r: string)
    requires forall i | 0 <= i < |bytes| :: 0 <= bytes[i] < 256
    ensures |r| == 3 * |bytes|
  {
    if bytes == [] then ""
    else ['%', HexDigit(bytes[0] / 16), HexDigit(bytes[0] % 16)] + PercentEncoded(bytes[1..])
  }

  /** The form encoding of one character. */
  function EncodeChar(c: char): string {
    if Unreserved(c) then [c]
    else if c == ' ' then "+"
    else PercentEncoded(Utf8(c))
  }

  /** URLEncoder.encode(text, UTF_8). */
  function UrlEncode(text: string): string {
    if text == [] then "" else EncodeChar(text[0]) + UrlEncode(text[1..])
  }

  /** The value of a hexadecimal digit of either case. */
  function HexValue(c: char): Option<int> {
    if '0' <= c <= '9' then Some(c as int - '0' as int)
    else if 'A' <= c <= 'F' then Some(c as int - 'A' as int + 10)
    else if 'a' <= c <= 'f' then Some(c as int - 'a' as int + 10)
    else None
  }

  /** The byte written as '%XY' at position i of s. */
  function ByteAt(s: string, i: nat): Option<int> {
    if i + 3 <= |s| && s[i] == '%' && HexValue(s[i + 1]).Some? && HexValue(s[i + 2]).Some?
    then Some(16 * HexValue(s[i + 1]).value + HexValue(s[i + 2]).value)
    else None
  }

  /** The 6 payload bits of the continuation byte written at position i of s. */
  function ContinuationAt(s: string, i: nat): Option<int> {
    var b := ByteAt(s, i);
    if b.Some? && 0x80 <= b.value < 0xC0 then Some(b.value - 0x80) else None
  }

  /** A code point as a character, when it is a Unicode scalar value. */
  function Scalar(n: int): Option<char> {
    if 0 <= n < 0xD800 || 0xE000 <= n <= 0x10FFFF then Some(n as char) else None
  }

  /** The character whose UTF-8 bytes are percent-encoded at the start of s, and the number of
    * encoded characters they take up. */
  function DecodePercent(s: string): Option<(char, nat)> {
    var lead := ByteAt(s, 0);
    if lead.None? then None
    else if lead.value < 0x80 then
      var c := Scalar(lead.value);
      if c.None? then None else Some((c.value, 3))
    else if 0xC0 <= lead.value < 0xE0 then
      var b1 := ContinuationAt(s, 3);
      if b1.None? then None
      else
        var c := Scalar((lead.value - 0xC0) * 64 + b1.value);
        if c.None? then None else Some((c.value, 6))
    else if 0xE0 <= lead.value < 0xF0 then
      var b1 := ContinuationAt(s, 3);
      var b2 := ContinuationAt(s, 6);
      if b1.None? || b2.None? then None
      else
        var c := Scalar(((lead.value - 0xE0) * 64 + b1.value) * 64 + b2.value);
        if c.None? then None else Some((c.value, 9))
    else if 0xF0 <= lead.value < 0xF8 then
      var b1 := ContinuationAt(s, 3);
      var b2 := ContinuationAt(s, 6);
      var b3 := ContinuationAt(s, 9);
      if b1.None? || b2.None? || b3.None? then None
      else
        var c := Scalar((((lead.value - 0xF0) * 64 + b1.value) * 64 + b2.value) * 64 + b3.value);
        if c.None? then None else Some((c.value, 12))
    else None
  }

  /** URLDecoder.decode(s, UTF_8): '+' is a space, '%XY' sequences are UTF-8 bytes, and every
    * other character stands for itself; None when the percent sequences are malformed. */
  function FormDecode(s: string): Option<string>
    decreases |s|
  {
    if s == [] then Some("")
    else if s[0] == '+' then
      var rest := FormDecode(s[1..]);
      if rest.None? then None else Some([' '] + rest.value)
    else if s[0] == '%' then
      var d := DecodePercent(s);
      if d.None? || d.value.1 == 0 || d.value.1 > |s| then None
      else
        var rest := FormDecode(s[d.value.1..]);
        if rest.None? then None else Some([d.value.0] + rest.value)
    else
      var rest := FormDecode(s[1..]);
      if rest.None? then None else Some([s[0]] + rest.value)
  }

  /** Upper-case hexadecimal digits read back as their values. */
  lemma HexDigitValue(d: int)
    requires 0 <= d < 16
    ensures HexValue(HexDigit(d)) == Some(d)
  {
  }

  /** The k-th byte is written at positions 3k to 3k + 2. */
  lemma {:induction false} PercentEncodedAt(bytes: seq<int>, k: nat)
    requires forall i | 0 <= i < |bytes| :: 0 <= bytes[i] < 256
    requires k < |bytes|
    ensures var r := PercentEncoded(bytes);
            r[3 * k] == '%' && r[3 * k + 1] == HexDigit(bytes[k] / 16) && r[3 * k + 2] == HexDigit(bytes[k] % 16)
    decreases k
  {
    if k > 0 {
      PercentEncodedAt(bytes[1..], k - 1);
      var t := PercentEncoded(bytes[1..]);
      assert PercentEncoded(bytes) == ['%', HexDigit(bytes[0] / 16), HexDigit(bytes[0] % 16)] + t;
    }
  }

  /** Every percent-encoded byte reads back as itself. */
  lemma ByteAtEncoded(bytes: seq<int>, rest: string, k: nat)
    requires forall i | 0 <= i < |bytes| :: 0 <= bytes[i] < 256
    requires k < |bytes|
    ensures ByteAt(PercentEncoded(bytes) + rest, 3 * k) == Some(bytes[k])
  {
    var r := PercentEncoded(bytes);
    var b := bytes[k];
    assert 0 <= b < 256;
    PercentEncodedAt(bytes, k);
    var s := r + rest;
    assert 3 * k + 3 <= |r|;
    assert s[3 * k] == '%' && s[3 * k + 1] == HexDigit(b / 16) && s[3 * k + 2] == HexDigit(b % 16);
    ReadByte(s, 3 * k, b);
  }

  /** '%' and the two hexadecimal digits of a byte read back as the byte. */
  lemma ReadByte(s: string, i: nat, b: int)
    requires 0 <= b < 256 && i + 3 <= |s|
    requires s[i] == '%' && s[i + 1] == HexDigit(b / 16) && s[i + 2] == HexDigit(b % 16)
    ensures ByteAt(s, i) == Some(b)
  {
    HexDigitValue(b / 16);
    HexDigitValue(b % 16);
    assert 16 * (b / 16) + b % 16 == b;
  }

  /** A number split into its quotient and remainder by 64. */
  lemma Split64(n: nat)
    ensures n == (n / 64) * 64 + n % 64 && 0 <= n % 64 < 64
  {
  }

  /** A two-byte sequence decodes to the code point it was made from. */
  lemma DecodeTwoBytes(s: string, n: int)
    requires 0x80 <= n < 0x800
    requires ByteAt(s, 0) == Some(0xC0 + n / 64) && ByteAt(s, 3) == Some(0x80 + n % 64)
    ensures DecodePercent(s) == if Scalar(n).None? then None else Some((Scalar(n).value, 6))
  {
    Split64(n);
  }

  /** A three-byte sequence decodes to the code point it was made from. */
  lemma DecodeThreeBytes(s: string, n: int)
    requires 0x800 <= n < 0x10000
    requires ByteAt(s, 0) == Some(0xE0 + n / 64 / 64)
    requires ByteAt(s, 3) == Some(0x80 + n / 64 % 64) && ByteAt(s, 6) == Some(0x80 + n % 64)
    ensures DecodePercent(s) == if Scalar(n).None? then None else Some((Scalar(n).value, 9))
  {
    Split64(n);
    Split64(n / 64);
  }

  /** A four-byte sequence decodes to the code point it was made from. */
  lemma DecodeFourBytes(s: string, n: int)
    requires 0x10000 <= n <= 0x10FFFF
    requires ByteAt(s, 0) == Some(0xF0 + n / 64 / 64 / 64)
    requires ByteAt(s, 3) == Some(0x80 + n / 64 / 64 % 64)
    requires ByteAt(s, 6) == Some(0x80 + n / 64 % 64) && ByteAt(s, 9) == Some(0x80 + n % 64)
    ensures DecodePercent(s) == if Scalar(n).None? then None else Some((Scalar(n).value, 12))
  {
    Split64(n);
    Split64(n / 64);
    Split64(n / 64 / 64);
  }

  /** The percent-encoded UTF-8 bytes of a character decode to the character. */
  lemma DecodePercentEncoded(c: char, rest: string)
    requires !Unreserved(c) && c != ' '
    ensures DecodePercent(EncodeChar(c) + rest) == Some((c, 3 * |Utf8(c)|))
  {
    var n := c as int;
    if n < 0x80 {
      EncodedOneByte(c, rest);
    } else if n < 0x800 {
      EncodedTwoBytes(c, rest);
    } else if n < 0x10000 {
      EncodedThreeBytes(c, rest);
    } else {
      EncodedFourBytes(c, rest);
    }
  }

  /** The code point of a character is a scalar value. */
  lemma ScalarOfChar(c: char)
    ensures Scalar(c as int) == Some(c)
  {
  }

  /** A character below 0x80 is one percent-encoded byte and decodes back. */
  lemma EncodedOneByte(c: char, rest: string)
    requires !Unreserved(c) && c != ' ' && c as int < 0x80
    ensures DecodePercent(EncodeChar(c) + rest) == Some((c, 3 * |Utf8(c)|))
  {
    assert EncodeChar(c) + rest == PercentEncoded(Utf8(c)) + rest;
    ByteAtEncoded(Utf8(c), rest, 0);
    ScalarOfChar(c);
  }

  /** A character below 0x800 is two percent-encoded bytes and decodes back. */
  lemma EncodedTwoBytes(c: char, rest: string)
    requires 0x80 <= c as int < 0x800
    ensures DecodePercent(EncodeChar(c) + rest) == Some((c, 3 * |Utf8(c)|))
  {
    assert EncodeChar(c) + rest == PercentEncoded(Utf8(c)) + rest;
    var bytes := Utf8(c);
    ByteAtEncoded(bytes, rest, 0);
    ByteAtEncoded(bytes, rest, 1);
    ScalarOfChar(c);
    DecodeTwoBytes(PercentEncoded(bytes) + rest, c as int);
  }

  /** A character below 0x10000 is three percent-encoded bytes and decodes back. */
  lemma EncodedThreeBytes(c: char, rest: string)
    requires 0x800 <= c as int < 0x10000
    ensures DecodePercent(EncodeChar(c) + rest) == Some((c, 3 * |Utf8(c)|))
  {
    assert EncodeChar(c) + rest == PercentEncoded(Utf8(c)) + rest;
    var bytes := Utf8(c);
    ByteAtEncoded(bytes, rest, 0);
    ByteAtEncoded(bytes, rest, 1);
    ByteAtEncoded(bytes, rest, 2);
    ScalarOfChar(c);
    DecodeThreeBytes(PercentEncoded(bytes) + rest, c as int);
  }

  /** A supplementary character is four percent-encoded bytes and decodes back. */
  lemma EncodedFourBytes(c: char, rest: string)
    requires 0x10000 <= c as int
    ensures DecodePercent(EncodeChar(c) + rest) == Some((c, 3 * |Utf8(c)|))
  {
    assert EncodeChar(c) + rest == PercentEncoded(Utf8(c)) + rest;
    var bytes := Utf8(c);
    ByteAtEncoded(bytes, rest, 0);
    ByteAtEncoded(bytes, rest, 1);
    ByteAtEncoded(bytes, rest, 2);
    ByteAtEncoded(bytes, rest, 3);
    ScalarOfChar(c);
    DecodeFourBytes(PercentEncoded(bytes) + rest, c as int);
  }

  /** The encoding of a character decodes to the character, followed by what the rest decodes to. */
  lemma DecodeEncodedChar(c: char, rest: string)
    ensures FormDecode(EncodeChar(c) + rest) ==
            if FormDecode(rest).None? then None else Some([c] + FormDecode(rest).value)
  {
    var s := EncodeChar(c) + rest;
    if Unreserved(c) {
      assert s[0] == c && s[1..] == rest;
    } else if c == ' ' {
      assert s[0] == '+' && s[1..] == rest;
    } else {
      DecodePercentEncoded(c, rest);
      assert s[0] == '%';
      assert s[3 * |Utf8(c)|..] == rest;
    }
  }

  /** The form encoding is undone by the form decoding: the server reads back the text. */
  lemma {:induction false} UrlEncodeRoundTrip(text: string)
    ensures FormDecode(UrlEncode(text)) == Some(text)
    decreases |text|
  {
    if text != [] {
      UrlEncodeRoundTrip(text[1..]);
      DecodeEncodedChar(text[0], UrlEncode(text[1..]));
      assert [text[0]] + text[1..] == text;
    }
  }

  /** Percent-encoded bytes hold only '%' and hexadecimal digits. */
  lemma {:induction false} PercentEncodedIsSafe(bytes: seq<int>)
    requires forall i | 0 <= i < |bytes| :: 0 <= bytes[i] < 256
    ensures forall i | 0 <= i < |PercentEncoded(bytes)| :: FormSafe(PercentEncoded(bytes)[i])
    decreases |bytes|
  {
    if bytes != [] {
      PercentEncodedIsSafe(bytes[1..]);
      var head := ['%', HexDigit(bytes[0] / 16), HexDigit(bytes[0] % 16)];
      assert PercentEncoded(bytes) == head + PercentEncoded(bytes[1..]);
    }
  }

  /** Encoded text holds only unreserved characters, '+' and '%': no space, '&' or '=' of the
    * text can end up in the query string. */
  lemma {:induction false} UrlEncodeIsSafe(text: string)
    ensures forall i | 0 <= i < |UrlEncode(text)| :: FormSafe(UrlEncode(text)[i])
    decreases |text|
  {
    if text != [] {
      UrlEncodeIsSafe(text[1..]);
      var c := text[0];
      if !Unreserved(c) && c != ' ' {
        PercentEncodedIsSafe(Utf8(c));
      }
      assert UrlEncode(text) == EncodeChar(c) + UrlEncode(text[1..]);
    }
  }

  // ---------------------------------------------------------------------------------------
  // The request URL
  // ---------------------------------------------------------------------------------------

  /** buildUrl: the endpoint with the source and target languages, the encoded text and the
    * fixed parameters. */
  function BuildUrl(text: string, sourceLanguage: string, targetLanguage: string): string {
    GoogleTranslateApi + sourceLanguage + "&tl=" + targetLanguage + "&dt=t&q=" + UrlEncode(text) + "&dj=1"
  }

  /** Splitting at a separator character that the first piece lacks yields the first piece
    * and then the fields of the rest. */
  lemma FieldsAfterSeparator(a: string, c: char, b: string)
    requires c !in a
    ensures Fields(a + [c] + b, [c]) == [a] + Fields(b, [c])
  {
    var s := a + [c] + b;
    assert OccursAt(s, [c], |a|) by { assert s[|a|..|a| + 1] == [c]; }
    forall j | 0 <= j < |a|
      ensures !OccursAt(s, [c], j)
    {
      assert s[j..j + 1][0] == a[j];
    }
    IndexOfFirst(s, [c], |a|);
    assert s[..|a|] == a && s[|a| + 1..] == b;
  }

  /** A text without the separator character is a single field. */
  lemma FieldsWithoutSeparator(a: string, c: char)
    requires c !in a
    ensures Fields(a, [c]) == [a]
  {
    forall j | 0 <= j < |a|
      ensures !OccursAt(a, [c], j)
    {
      assert a[j..j + 1][0] == a[j];
    }
  }

  /** The endpoint itself holds no '&'. */
  lemma EndpointShape()
    ensures GoogleTranslateApi == Endpoint + "&" + "sl="
    ensures '&' !in Endpoint
  {
    assert '&' !in "https://translate.googleapis.com";
    assert '&' !in "/translate_a/t";
    assert '&' !in "?client=dict-chrome-ex";
  }

  /** The text of the URL after the endpoint's '&'. */
  lemma BuildUrlPieces(text: string, sourceLanguage: string, targetLanguage: string)
    ensures BuildUrl(text, sourceLanguage, targetLanguage) ==
            Endpoint + "&" + (("sl=" + sourceLanguage) + "&" + (("tl=" + targetLanguage) + "&"
              + ("dt=t" + "&" + (("q=" + UrlEncode(text)) + "&" + "dj=1"))))
  {
    EndpointShape();
    LiteralSplits();
    Regroup(Endpoint, "&", "sl=", sourceLanguage, "tl=", targetLanguage, "dt=t", "q=", UrlEncode(text), "dj=1");
  }

  /** The fixed parameters of the URL, cut at their '&'. */
  lemma LiteralSplits()
    ensures "&tl=" == "&" + "tl=" && "&dt=t&q=" == "&" + "dt=t" + "&" + "q=" && "&dj=1" == "&" + "dj=1"
  {
  }

  /** The concatenation of the URL, regrouped around its separators. */
  lemma Regroup(endpoint: string, amp: string, sl: string, source: string, tl: string, target: string,
                dt: string, q: string, enc: string, dj: string)
    ensures endpoint + amp + sl + source + (amp + tl) + target + (amp + dt + amp + q) + enc + (amp + dj)
            == endpoint + amp + ((sl + source) + amp + ((tl + target) + amp + (dt + amp + ((q + enc) + amp + dj))))
  {
  }

  /** Encoded text holds no '&'. */
  lemma UrlEncodeLacksAmpersand(text: string)
    ensures '&' !in UrlEncode(text)
  {
    var enc := UrlEncode(text);
    UrlEncodeIsSafe(text);
    forall i | 0 <= i < |enc|
      ensures enc[i] != '&'
    {
      assert FormSafe(enc[i]);
    }
  }

  /** The pieces joined, a separator character between each two. */
  function JoinWith(pieces: seq<string>, c: char): string
    requires |pieces| >= 1
  {
    if |pieces| == 1 then pieces[0] else pieces[0] + [c] + JoinWith(pieces[1..], c)
  }

  /** Pieces without the separator character that are joined by it split back into the pieces. */
  lemma {:induction false} FieldsOfJoined(pieces: seq<string>, c: char)
    requires |pieces| >= 1
    requires forall i | 0 <= i < |pieces| :: c !in pieces[i]
    ensures Fields(JoinWith(pieces, c), [c]) == pieces
    decreases |pieces|
  {
    if |pieces| == 1 {
      FieldsWithoutSeparator(pieces[0], c);
    } else {
      FieldsOfJoined(pieces[1..], c);
      FieldsAfterSeparator(pieces[0], c, JoinWith(pieces[1..], c));
    }
  }

  /** The parameters of the request URL: when neither language code holds an '&', the URL's
    * '&'-separated fields are the endpoint, the two languages, the response format, the
    * encoded text and the JSON flag, in this order. */
  lemma BuildUrlParameters(text: string, sourceLanguage: string, targetLanguage: string)
    requires '&' !in sourceLanguage && '&' !in targetLanguage
    ensures Fields(BuildUrl(text, sourceLanguage, targetLanguage), "&") ==
            [Endpoint, "sl=" + sourceLanguage, "tl=" + targetLanguage, "dt=t", "q=" + UrlEncode(text), "dj=1"]
  {
    UrlEncodeLacksAmpersand(text);
    EndpointShape();
    var pieces := [Endpoint, "sl=" + sourceLanguage, "tl=" + targetLanguage, "dt=t", "q=" + UrlEncode(text), "dj=1"];
    assert JoinWith(pieces[5..], '&') == "dj=1";
    assert JoinWith(pieces[4..], '&') == pieces[4] + "&" + "dj=1";
    assert JoinWith(pieces[3..], '&') == "dt=t" + "&" + JoinWith(pieces[4..], '&');
    assert JoinWith(pieces[2..], '&') == pieces[2] + "&" + JoinWith(pieces[3..], '&');
    assert JoinWith(pieces[1..], '&') == pieces[1] + "&" + JoinWith(pieces[2..], '&');
    assert JoinWith(pieces, '&') == Endpoint + "&" + JoinWith(pieces[1..], '&');
    BuildUrlPieces(text, sourceLanguage, targetLanguage);
    FieldsOfJoined(pieces, '&');
  }

  // ---------------------------------------------------------------------------------------
  // Translating one entry
  // ---------------------------------------------------------------------------------------

  /** The answer body as the processor reads it: deserialised, or failing to be read or
    * deserialised. */
  datatype Body = Parsed(result: TranslationResult) | Unreadable | Malformed

  /** What sending the GET request yields: a status line and a body, or an I/O failure. */
  datatype HttpOutcome =
    | Responded(status: int, reason: string, body: Body)
    | Unreachable

  /** The HTTP status the processor accepts. */
  const StatusOk := 200

  /** The result of translating one entry: the URL requested if any, and the updated entry or
    * the exception thrown. */
  datatype Attempt = Attempt(requested: Option<string>, outcome: Result<Entry, TranslationException>)

  /** translateEach: an entry that needs translating is sent to the endpoint (through `http`);
    * a 200 answer records the deserialised result at time `now`; any failure, including the
    * processor's own exception for another status, is caught and rethrown wrapped. */
  function TranslateEach(entry: Entry, sourceLocale: Locale, targetLocale: Locale,
                         http: string -> HttpOutcome, now: nat): (a: Attempt)
    ensures a.requested.Some? <==> entry.requireTranslation
    ensures a.requested.Some? ==> a.requested.value == BuildUrl(entry.source, sourceLocale.language, targetLocale.language)
    ensures !entry.requireTranslation ==> a.outcome == Success(entry)
    ensures a.requested.Some? ==>
              (a.outcome.Success? <==>
                 http(a.requested.value).Responded? && http(a.requested.value).status == StatusOk
                 && http(a.requested.value).body.Parsed?)
    ensures a.requested.Some? && a.outcome.Success? ==>
              a.outcome.value == SetResult(entry, http(a.requested.value).body.result, now)
    ensures a.requested.Some? && http(a.requested.value).Responded? && http(a.requested.value).status != StatusOk ==>
              a.outcome == Failure(CausedBy(Translation(Reason(http(a.requested.value).reason))))
  {
    if !entry.requireTranslation then Attempt(None, Success(entry))
    else
      var url := BuildUrl(entry.source, sourceLocale.language, targetLocale.language);
      var outcome :=
        match http(url)
        case Unreachable => Failure(CausedBy(Io))
        case Responded(status, reason, body) =>
          if status != StatusOk then Failure(CausedBy(Translation(Reason(reason))))
          else match body
            case Parsed(result) => Success(SetResult(entry, result, now))
            case Unreadable => Failure(CausedBy(Io))
            case Malformed => Failure(CausedBy(Deserialization));
      Attempt(Some(url), outcome)
  }

  /** The processor as the translation service uses it. */
  function Translate(http: string -> HttpOutcome, now: nat): Processor {
    (sourceLocale: Locale, targetLocale: Locale, entry: Entry) =>
      TranslateEach(entry, sourceLocale, targetLocale, http, now).outcome
  }

  /** A successful translation keeps the entry's key, text and flag, and records a result. */
  lemma TranslationKeepsEntry(entry: Entry, sourceLocale: Locale, targetLocale: Locale,
                              http: string -> HttpOutcome, now: nat)
    requires entry.requireTranslation
    requires TranslateEach(entry, sourceLocale, targetLocale, http, now).outcome.Success?
    ensures var e := TranslateEach(entry, sourceLocale, targetLocale, http, now).outcome.value;
            e.key == entry.key && e.source == entry.source && e.requireTranslation
            && e.result.Some? && e.timestamp == Some(now)
  {
  }
}
