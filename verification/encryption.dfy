/** Sync codes, the checksum and the encrypted envelope (src/utils/encryption.js).
    The cryptographic primitives (PBKDF2 of RFC 8018 section 5.2, AES-GCM of
    NIST SP 800-38D, SHA-256 of FIPS 180-4), base64 (RFC 4648 section 4) and
    JSON text are opaque functions gathered in `Primitives`; `Sound` states
    the guarantees the rest of the model relies on. */
module Encryption {
  import opened Common
  import opened Model

  // ---------------------------------------------------------------------
  // Sync codes

  /** The 36 symbols a sync code is drawn from: `ABCDEFGHIJKLMNOPQRSTUVWXYZ0123456789`. */
  function Alphabet(): (a: string)
    ensures |a| == 36
    ensures forall i :: 0 <= i < 36 ==> a[i] == Symbol(i)
  {
    seq(36, i requires 0 <= i < 36 => Symbol(i))
  }

  /** The symbol of value `i`: the letters for 0-25, the digits for 26-35. */
  function Symbol(i: nat): (c: char)
    ensures IsCodeChar(c)
  {
    if i < 26 then ('A' as int + i % 26) as char else ('0' as int + (i - 26) % 10) as char
  }

  /** `[A-Z0-9]` */
  predicate IsCodeChar(c: char) {
    'A' <= c <= 'Z' || '0' <= c <= '9'
  }

  /** `[A-Z0-9]` under the `i` flag: ASCII letters of either case and digits. */
  predicate IsAsciiAlnum(c: char) {
    'a' <= c <= 'z' || IsCodeChar(c)
  }

  /** Every character the regular-expression class `\s` matches. */
  predicate IsJsWhitespace(c: char) {
    || c == '\t' || c == '\n' || c == '\U{000B}' || c == '\U{000C}' || c == '\r' || c == ' '
    || c == '\U{00A0}' || c == '\U{1680}' || ('\U{2000}' <= c <= '\U{200A}')
    || c == '\U{2028}' || c == '\U{2029}' || c == '\U{202F}' || c == '\U{205F}'
    || c == '\U{3000}' || c == '\U{FEFF}'
  }

  predicate NotWhitespace(c: char) {
    !IsJsWhitespace(c)
  }

  function AsciiUpper(c: char): (u: char)
    ensures IsCodeChar(u) <==> IsAsciiAlnum(c)
    ensures u == '-' <==> c == '-'
  {
    if 'a' <= c <= 'z' then (c as int - 32) as char else c
  }

  function AsciiUpperString(s: string): (r: string)
    ensures |r| == |s|
    ensures forall i :: 0 <= i < |s| ==> r[i] == AsciiUpper(s[i])
  {
    seq(|s|, i requires 0 <= i < |s| => AsciiUpper(s[i]))
  }

  /** `String.prototype.toUpperCase` on one character. Besides a-z, the
      characters listed are those whose upper case consists of ASCII letters
      only. Every other character is kept as it is; for the pattern test this
      agrees with JavaScript, since the upper case of any other character is
      the character itself or contains a character outside [A-Z0-9-]. */
  function JsUpper(c: char): string {
    if 'a' <= c <= 'z' then [AsciiUpper(c)]
    else if c == '\U{00DF}' then "SS"   // sharp s
    else if c == '\U{0131}' then "I"    // dotless i
    else if c == '\U{017F}' then "S"    // long s
    else if c == '\U{FB00}' then "FF"
    else if c == '\U{FB01}' then "FI"
    else if c == '\U{FB02}' then "FL"
    else if c == '\U{FB03}' then "FFI"
    else if c == '\U{FB04}' then "FFL"
    else if c == '\U{FB05}' || c == '\U{FB06}' then "ST"
    else [c]
  }

  function JsUpperString(s: string): string {
    if |s| == 0 then "" else JsUpper(s[0]) + JsUpperString(s[1..])
  }

  /** `/^[A-Z0-9]{4}-?[A-Z0-9]{4}$/` */
  predicate CodePattern(s: string) {
    || (|s| == 8 && forall i :: 0 <= i < 8 ==> IsCodeChar(s[i]))
    || (|s| == 9 && s[4] == '-' && forall i :: 0 <= i < 9 && i != 4 ==> IsCodeChar(s[i]))
  }

  /** validateSyncCode as written: strip `\s`, apply the full Unicode
      `toUpperCase`, test the pattern. Upper-casing never shortens a string,
      so an accepted code has at most nine characters besides whitespace. */
  function ValidateSyncCodeAsWritten(code: string): (b: bool)
    ensures b ==> |Filter(NotWhitespace, code)| <= 9
  {
    JsUpperNeverShortens(Filter(NotWhitespace, code));
    CodePattern(JsUpperString(Filter(NotWhitespace, code)))
  }

  lemma {:induction false} JsUpperNeverShortens(s: string)
    ensures |JsUpperString(s)| >= |s|
  {
    if |s| > 0 {
      JsUpperNeverShortens(s[1..]);
    }
  }

  /** validateSyncCode with the upper-casing limited to ASCII letters, so
      that it accepts only what `NormalizeSyncCode` turns into eight symbols. */
  function ValidateSyncCode(code: string): (b: bool)
    ensures b ==> |NormalizeSyncCode(code)| == 8
  {
    if CodePattern(AsciiUpperString(Filter(NotWhitespace, code))) then
      ValidatedCodeHasEightSymbols(code);
      true
    else false
  }

  /** normalizeSyncCode: drop every character outside `[A-Za-z0-9]`, upper-case the rest. */
  function NormalizeSyncCode(code: string): (r: string)
    ensures |r| <= |code|
    ensures forall i :: 0 <= i < |r| ==> IsCodeChar(r[i])
  {
    AsciiUpperString(Filter(IsAsciiAlnum, code))
  }

  /** The eight symbols the random bytes select. */
  function CodeSymbols(random: seq<byte>): (chars: string)
    requires |random| == 8
    ensures |chars| == 8
    ensures forall i :: 0 <= i < 8 ==> chars[i] == Alphabet()[random[i] as int % 36]
  {
    seq(8, i requires 0 <= i < 8 => Alphabet()[random[i] as int % 36])
  }

  /** generateSyncCode with the eight bytes `crypto.getRandomValues` fills in. */
  function GenerateSyncCode(random: seq<byte>): (code: string)
    requires |random| == 8
    ensures |code| == 9 && code[4] == '-'
    ensures forall i :: 0 <= i < 4 ==> code[i] == Alphabet()[random[i] as int % 36]
    ensures forall i :: 5 <= i < 9 ==> code[i] == Alphabet()[random[i - 1] as int % 36]
  {
    var chars := CodeSymbols(random);
    chars[..4] + "-" + chars[4..]
  }

  /** No symbol occurs twice in the alphabet. */
  lemma AlphabetDistinct()
    ensures NoDups(Alphabet())
  {
    forall i, j | 0 <= i < j < 36
      ensures Alphabet()[i] != Alphabet()[j]
    {
      assert Symbol(i) != Symbol(j);
    }
  }

  /** A symbol or a hyphen is not whitespace, and JavaScript upper-cases it as ASCII does. */
  lemma SymbolFacts(c: char)
    requires IsAsciiAlnum(c) || c == '-'
    ensures NotWhitespace(c)
    ensures JsUpper(c) == [AsciiUpper(c)]
  {
  }

  lemma CodeCharsAreFixed(s: string)
    requires forall i :: 0 <= i < |s| ==> IsCodeChar(s[i])
    ensures NormalizeSyncCode(s) == s
  {
    FilterKeepsAll(IsAsciiAlnum, s);
  }

  /** Normalising twice is normalising once. */
  lemma NormalizeIdempotent(code: string)
    ensures NormalizeSyncCode(NormalizeSyncCode(code)) == NormalizeSyncCode(code)
  {
    CodeCharsAreFixed(NormalizeSyncCode(code));
  }

  /** Whitespace never survives normalisation, so stripping it first changes nothing. */
  lemma NormalizeIgnoresWhitespace(code: string)
    ensures NormalizeSyncCode(Filter(NotWhitespace, code)) == NormalizeSyncCode(code)
  {
    forall i | 0 <= i < |code| && IsAsciiAlnum(code[i])
      ensures NotWhitespace(code[i])
    {
      SymbolFacts(code[i]);
    }
    FilterFilter(IsAsciiAlnum, NotWhitespace, code);
  }

  /** Filtering `XXXX-XXXX` down to symbols drops exactly the hyphen. */
  lemma HyphenDropped(c: string)
    requires |c| == 9 && c[4] == '-'
    requires forall i :: 0 <= i < 9 && i != 4 ==> IsAsciiAlnum(c[i])
    ensures Filter(IsAsciiAlnum, c) == c[..4] + c[5..]
  {
    var a, h, b := c[..4], [c[4]], c[5..];
    assert c == (a + h) + b;
    forall i | 0 <= i < 4
      ensures IsAsciiAlnum(a[i]) && IsAsciiAlnum(b[i])
    {
      assert a[i] == c[i] && b[i] == c[i + 5];
    }
    FilterKeepsAll(IsAsciiAlnum, a);
    FilterDropsAll(IsAsciiAlnum, h);
    FilterKeepsAll(IsAsciiAlnum, b);
    FilterConcat(IsAsciiAlnum, a, h);
    FilterConcat(IsAsciiAlnum, a + h, b);
    assert Filter(IsAsciiAlnum, a + h) == a;
  }

  /** Every code the (corrected) validator's pattern accepts normalises to exactly eight symbols. */
  lemma ValidatedCodeHasEightSymbols(code: string)
    requires CodePattern(AsciiUpperString(Filter(NotWhitespace, code)))
    ensures |NormalizeSyncCode(code)| == 8
  {
    var c := Filter(NotWhitespace, code);
    NormalizeIgnoresWhitespace(code);
    var u := AsciiUpperString(c);
    forall i | 0 <= i < |c| && IsCodeChar(u[i])
      ensures IsAsciiAlnum(c[i])
    {
      assert u[i] == AsciiUpper(c[i]);
    }
    if |u| == 8 {
      FilterKeepsAll(IsAsciiAlnum, c);
    } else {
      assert u[4] == AsciiUpper(c[4]);
      HyphenDropped(c);
    }
  }

  /** On strings of symbols and hyphens, JavaScript's upper-casing is ASCII upper-casing. */
  lemma {:induction false} JsUpperOfCodeString(s: string)
    requires forall i :: 0 <= i < |s| ==> IsAsciiAlnum(s[i]) || s[i] == '-'
    ensures JsUpperString(s) == AsciiUpperString(s)
  {
    if |s| > 0 {
      JsUpperOfCodeString(s[1..]);
      SymbolFacts(s[0]);
      assert AsciiUpperString(s) == [AsciiUpper(s[0])] + AsciiUpperString(s[1..]);
    }
  }

  /** The corrected validator accepts only codes the one as written accepts too. */
  lemma ValidateSyncCodeNarrows(code: string)
    requires ValidateSyncCode(code)
    ensures ValidateSyncCodeAsWritten(code)
  {
    var c := Filter(NotWhitespace, code);
    var u := AsciiUpperString(c);
    forall i | 0 <= i < |c|
      ensures IsAsciiAlnum(c[i]) || c[i] == '-'
    {
      assert u[i] == AsciiUpper(c[i]);
    }
    JsUpperOfCodeString(c);
  }

  /** validateSyncCode as written accepts `ßß-ßß`: upper-casing turns it into
      `SSSS-SSSS`. normalizeSyncCode, which drops every non-ASCII character
      before upper-casing, turns the same code into the empty string, so the
      lookup that follows a successful validation can never find it. The
      corrected validator rejects it. */
  lemma AsWrittenAcceptsUnnormalisableCode()
    ensures ValidateSyncCodeAsWritten(SharpCode())
    ensures NormalizeSyncCode(SharpCode()) == ""
    ensures !ValidateSyncCode(SharpCode())
  {
    SharpCodeAccepted();
    SharpCodeNormalizesToNothing();
    SharpCodeHasNoWhitespace();
    assert AsciiUpperString(SharpCode())[0] == '\U{00DF}';
  }

  lemma SharpCodeAccepted()
    ensures ValidateSyncCodeAsWritten(SharpCode())
  {
    SharpCodeHasNoWhitespace();
    SharpCodeUpper();
    SharpUpperMatches();
  }

  lemma SharpUpperMatches()
    ensures CodePattern("SSSS-SSSS")
  {
    var u := "SSSS-SSSS";
    forall i | 0 <= i < 9 && i != 4
      ensures IsCodeChar(u[i])
    {
      assert u[i] == 'S';
    }
  }

  lemma SharpCodeNormalizesToNothing()
    ensures NormalizeSyncCode(SharpCode()) == ""
  {
    var code := SharpCode();
    forall i | 0 <= i < 5
      ensures !IsAsciiAlnum(code[i])
    {
      assert code[i] == '-' || code[i] == '\U{00DF}';
    }
    FilterDropsAll(IsAsciiAlnum, code);
  }

  lemma SharpCodeHasNoWhitespace()
    ensures Filter(NotWhitespace, SharpCode()) == SharpCode()
  {
    var code := SharpCode();
    forall i | 0 <= i < 5
      ensures NotWhitespace(code[i])
    {
      assert code[i] == '-' || code[i] == '\U{00DF}';
    }
    FilterKeepsAll(NotWhitespace, code);
  }

  /** `ßß-ßß` */
  function SharpCode(): (s: string)
    ensures |s| == 5
  {
    "\U{00DF}\U{00DF}-\U{00DF}\U{00DF}"
  }

  lemma SharpCodeUpper()
    ensures JsUpperString(SharpCode()) == "SSSS-SSSS"
  {
    var code := SharpCode();
    assert JsUpper(code[4]) == "SS" && JsUpper(code[3]) == "SS";
    assert JsUpper(code[2]) == "-";
    assert JsUpper(code[1]) == "SS" && JsUpper(code[0]) == "SS";
    assert JsUpperString(code[5..]) == "";
    assert JsUpperString(code[4..]) == "SS";
    assert JsUpperString(code[3..]) == "SSSS";
    assert JsUpperString(code[2..]) == "-SSSS";
    assert JsUpperString(code[1..]) == "SS-SSSS";
  }

  /** Every character of a generated code but the hyphen is a symbol. */
  lemma GeneratedSymbols(random: seq<byte>)
    requires |random| == 8
    ensures forall i :: 0 <= i < 9 && i != 4 ==> IsCodeChar(GenerateSyncCode(random)[i])
  {
    var code := GenerateSyncCode(random);
    forall i | 0 <= i < 9 && i != 4
      ensures IsCodeChar(code[i])
    {
      var j := if i < 4 then i else i - 1;
      assert code[i] == Symbol(random[j] as int % 36);
    }
  }

  /** Every generated code is accepted by the validator. */
  lemma GeneratedCodeIsValid(random: seq<byte>)
    requires |random| == 8
    ensures ValidateSyncCode(GenerateSyncCode(random))
  {
    var code := GenerateSyncCode(random);
    GeneratedSymbols(random);
    CodeTextUnchanged(code);
    assert AsciiUpperString(Filter(NotWhitespace, code)) == code;
  }

  /** A string of symbols and hyphens has no whitespace to strip and nothing to upper-case. */
  lemma CodeTextUnchanged(code: string)
    requires forall i :: 0 <= i < |code| ==> IsCodeChar(code[i]) || code[i] == '-'
    ensures Filter(NotWhitespace, code) == code
    ensures AsciiUpperString(code) == code
  {
    forall i | 0 <= i < |code|
      ensures NotWhitespace(code[i]) && AsciiUpper(code[i]) == code[i]
    {
      SymbolFacts(code[i]);
    }
    FilterKeepsAll(NotWhitespace, code);
  }

  /** Normalising a generated code leaves its eight symbols. */
  lemma NormalizeGenerated(random: seq<byte>)
    requires |random| == 8
    ensures NormalizeSyncCode(GenerateSyncCode(random)) == CodeSymbols(random)
  {
    var code := GenerateSyncCode(random);
    var chars := CodeSymbols(random);
    GeneratedSymbols(random);
    HyphenDropped(code);
    assert code[..4] + code[5..] == chars;
    CodeCharsAreFixed(chars);
  }

  /** The code's symbols give back the random bytes modulo 36: normalising a
      generated code and looking each symbol up in the alphabet recovers them. */
  lemma GeneratedCodeEncodesRandom(random: seq<byte>)
    requires |random| == 8
    ensures |NormalizeSyncCode(GenerateSyncCode(random))| == 8
    ensures forall i :: 0 <= i < 8 ==>
      IndexOf(Alphabet(), NormalizeSyncCode(GenerateSyncCode(random))[i]) == random[i] as int % 36
  {
    NormalizeGenerated(random);
    AlphabetDistinct();
    var chars := CodeSymbols(random);
    forall i | 0 <= i < 8
      ensures IndexOf(Alphabet(), chars[i]) == random[i] as int % 36
    {
      IndexOfAt(Alphabet(), random[i] as int % 36);
    }
  }

  lemma IndexOfAt<T>(s: seq<T>, j: int)
    requires NoDups(s) && 0 <= j < |s|
    ensures IndexOf(s, s[j]) == j
  {
    var k := IndexOf(s, s[j]);
  }

  // ---------------------------------------------------------------------
  // Checksum

  /** The lower-case hexadecimal digits `0123456789abcdef`. */
  function HexDigits(): (h: string)
    ensures |h| == 16
    ensures forall i :: 0 <= i < 16 ==> h[i] == HexDigit(i)
  {
    seq(16, i requires 0 <= i < 16 => HexDigit(i))
  }

  function HexDigit(i: nat): char {
    if i < 10 then ('0' as int + i % 10) as char else ('a' as int + (i - 10) % 6) as char
  }

  /** `b.toString(16).padStart(2, '0')` */
  function ByteHex(b: byte): (h: string)
    ensures |h| == 2
  {
    [HexDigits()[b as int / 16], HexDigits()[b as int % 16]]
  }

  /** `bytes.map(ByteHex).join('')` */
  function HexOf(bytes: seq<byte>): (h: string)
    ensures |h| == 2 * |bytes|
    ensures forall i :: 0 <= i < |bytes| ==>
      h[2 * i] == HexDigits()[bytes[i] as int / 16] && h[2 * i + 1] == HexDigits()[bytes[i] as int % 16]
  {
    if |bytes| == 0 then "" else ByteHex(bytes[0]) + HexOf(bytes[1..])
  }

  lemma HexOfDigits(bytes: seq<byte>)
    ensures forall i :: 0 <= i < |HexOf(bytes)| ==> HexOf(bytes)[i] in HexDigits()
  {
    var h := HexOf(bytes);
    forall i | 0 <= i < |h|
      ensures h[i] in HexDigits()
    {
      assert i == 2 * (i / 2) || i == 2 * (i / 2) + 1;
    }
  }

  /** calculateChecksum's text from a digest: the first eight characters of
      the lower-case hexadecimal rendering. */
  function ChecksumHex(digest: seq<byte>): (r: string)
    ensures |r| == if |digest| >= 4 then 8 else 2 * |digest|
    ensures forall i :: 0 <= i < |r| ==> r[i] in HexDigits()
  {
    HexOfDigits(digest);
    var h := HexOf(digest);
    if |h| <= 8 then h else h[..8]
  }

  /** The value of a lower-case hexadecimal digit. */
  function HexValue(c: char): int {
    IndexOf(HexDigits(), c)
  }

  /** The checksum text determines the first four digest bytes: reading its
      digit pairs back gives them. */
  lemma ChecksumEncodesDigestPrefix(digest: seq<byte>)
    requires |digest| >= 4
    ensures forall i :: 0 <= i < 4 ==>
      HexValue(ChecksumHex(digest)[2 * i]) * 16 + HexValue(ChecksumHex(digest)[2 * i + 1]) == digest[i] as int
  {
    var h := HexOf(digest);
    var r := ChecksumHex(digest);
    assert r == h[..8];
    forall i | 0 <= i < 4
      ensures HexValue(r[2 * i]) * 16 + HexValue(r[2 * i + 1]) == digest[i] as int
    {
      assert r[2 * i] == h[2 * i] && r[2 * i + 1] == h[2 * i + 1];
      ByteHexValue(digest[i]);
    }
  }

  /** A byte's two digits read back as the byte. */
  lemma ByteHexValue(b: byte)
    ensures HexValue(HexDigits()[b as int / 16]) * 16 + HexValue(HexDigits()[b as int % 16]) == b as int
  {
    HexDigitsDistinct();
    IndexOfAt(HexDigits(), b as int / 16);
    IndexOfAt(HexDigits(), b as int % 16);
  }

  lemma HexDigitsDistinct()
    ensures NoDups(HexDigits())
  {
    forall i, j | 0 <= i < j < 16
      ensures HexDigits()[i] != HexDigits()[j]
    {
      assert HexDigit(i) != HexDigit(j);
    }
  }

  // ---------------------------------------------------------------------
  // Envelope

  /** The encrypted envelope, as the object `JSON.parse` gives back. */
  datatype Envelope = Envelope(
    salt: Option<string>,
    iv: Option<string>,
    data: Option<string>,
    timestamp: Option<int>,
    version: Option<string>)

  datatype Primitives = Primitives(
    deriveKey: (string, seq<byte>) -> seq<byte>,                      // PBKDF2-SHA-256, 100000 iterations, 256-bit key
    aesEncrypt: (seq<byte>, seq<byte>, seq<byte>) -> seq<byte>,       // key, iv, plaintext
    aesDecrypt: (seq<byte>, seq<byte>, seq<byte>) -> Option<seq<byte>>, // None: authentication failed
    toBase64: seq<byte> -> string,                                    // btoa over the bytes
    fromBase64: string -> Option<seq<byte>>,                          // atob; None where it throws
    serialize: Snapshot -> seq<byte>,                                 // JSON.stringify, then UTF-8
    serializeText: string -> seq<byte>,                               // JSON.stringify of a string, then UTF-8
    parse: seq<byte> -> Option<Snapshot>,                             // UTF-8 decode, then JSON.parse
    envelopeText: Envelope -> string,                                 // JSON.stringify
    parseEnvelope: string -> Option<Envelope>,                        // JSON.parse
    digest: seq<byte> -> seq<byte>)                                   // SHA-256

  /** What the standards promise of the primitives: decryption inverts
      encryption under the same key and fails authentication under another;
      distinct passphrases derive distinct keys; base64 and JSON round-trip;
      the JSON text of an object opens with `{` (byte 123) and that of a
      string with `"` (byte 34); SHA-256 yields 32 bytes. */
  ghost predicate Sound(p: Primitives) {
    && (forall k, iv, m :: p.aesDecrypt(k, iv, p.aesEncrypt(k, iv, m)) == Some(m))
    && (forall k, iv, m :: |p.aesEncrypt(k, iv, m)| > 0)
    && (forall k1, k2, iv, m :: k1 != k2 ==> p.aesDecrypt(k2, iv, p.aesEncrypt(k1, iv, m)).None?)
    && (forall c1, c2, salt :: c1 != c2 ==> p.deriveKey(c1, salt) != p.deriveKey(c2, salt))
    && (forall b :: p.fromBase64(p.toBase64(b)) == Some(b))
    && (forall b: seq<byte> :: |b| > 0 ==> |p.toBase64(b)| > 0)
    && (forall s :: p.parse(p.serialize(s)) == Some(s))
    && (forall e :: p.parseEnvelope(p.envelopeText(e)) == Some(e))
    && (forall s :: |p.serialize(s)| > 0 && p.serialize(s)[0] == 123)
    && (forall t :: |p.serializeText(t)| > 0 && p.serializeText(t)[0] == 34)
    && (forall b :: |p.digest(b)| == 32)
  }

  datatype CryptoError = EncryptionFailed | DecryptionFailed

  /** calculateChecksum */
  function Checksum(data: Snapshot, p: Primitives): (r: string)
    ensures Sound(p) ==> |r| == 8
  {
    ChecksumHex(p.digest(p.serialize(data)))
  }

  /** calculateChecksum of whatever value it is given: the JSON text hashed is
      an object's for an object and a quoted string's for text. */
  function ChecksumOf(v: Exported, p: Primitives): (r: string)
    ensures v.AsObject? ==> r == Checksum(v.obj, p)
    ensures Sound(p) ==> |r| == 8
  {
    match v
    case AsObject(d) => Checksum(d, p)
    case AsText(t) => ChecksumHex(p.digest(p.serializeText(t)))
  }

  /** The checksum of text and that of an object hash different JSON texts,
      so they agree only where SHA-256 collides on the first four bytes. */
  lemma TextAndObjectHashDiffer(t: string, d: Snapshot, p: Primitives)
    requires Sound(p)
    ensures p.serializeText(t) != p.serialize(d)
    ensures ChecksumOf(AsText(t), p) == Checksum(d, p) ==>
      p.digest(p.serializeText(t))[..4] == p.digest(p.serialize(d))[..4]
  {
    var a, b := p.serializeText(t), p.serialize(d);
    assert a[0] == 34 && b[0] == 123;
    assert |p.digest(a)| == 32 && |p.digest(b)| == 32;
    if ChecksumHex(p.digest(a)) == ChecksumHex(p.digest(b)) {
      SameChecksumSamePrefix(p.digest(a), p.digest(b));
    }
  }

  /** Equal checksum texts come from digests that agree on their first four bytes. */
  lemma SameChecksumSamePrefix(a: seq<byte>, b: seq<byte>)
    requires |a| >= 4 && |b| >= 4 && ChecksumHex(a) == ChecksumHex(b)
    ensures a[..4] == b[..4]
  {
    ChecksumEncodesDigestPrefix(a);
    ChecksumEncodesDigestPrefix(b);
    forall i | 0 <= i < 4
      ensures a[i] == b[i]
    {
      assert a[i] as int == HexValue(ChecksumHex(a)[2 * i]) * 16 + HexValue(ChecksumHex(a)[2 * i + 1]);
    }
  }

  /** deriveKey: the salt arrives base64-encoded and is decoded first. */
  function DeriveKey(passphrase: string, saltText: string, p: Primitives): (r: Option<seq<byte>>)
    ensures r.Some? <==> p.fromBase64(saltText).Some?
    ensures Sound(p) ==> forall salt :: saltText == p.toBase64(salt) ==> r == Some(p.deriveKey(passphrase, salt))
  {
    match p.fromBase64(saltText)
    case None => None
    case Some(salt) => Some(p.deriveKey(passphrase, salt))
  }

  /** encryptData up to the final `JSON.stringify`, with the 16 salt bytes and
      12 IV bytes `crypto.getRandomValues` fills in. */
  function EncryptEnvelope(data: Snapshot, passphrase: string, salt: seq<byte>, iv: seq<byte>, now: int, p: Primitives)
    : (r: Result<Envelope, CryptoError>)
    requires |salt| == 16 && |iv| == 12
    ensures r.Ok? ==> r.value.version == Some("1.0.0") && r.value.timestamp == Some(now)
    ensures r.Ok? ==> r.value.salt == Some(p.toBase64(salt)) && r.value.iv == Some(p.toBase64(iv))
    ensures Sound(p) ==> r.Ok? && HasCipherFields(r.value)
  {
    var saltText := p.toBase64(salt);
    match DeriveKey(passphrase, saltText, p)
    case None => Err(EncryptionFailed)
    case Some(key) =>
      var sealed := p.aesEncrypt(key, iv, p.serialize(data));
      Ok(Envelope(Some(saltText), Some(p.toBase64(iv)), Some(p.toBase64(sealed)), Some(now), Some("1.0.0")))
  }

  /** encryptData: the envelope as JSON text. */
  function EncryptData(data: Snapshot, passphrase: string, salt: seq<byte>, iv: seq<byte>, now: int, p: Primitives)
    : (r: Result<string, CryptoError>)
    requires |salt| == 16 && |iv| == 12
    ensures Sound(p) ==> r.Ok? && p.parseEnvelope(r.value) == Some(EncryptEnvelope(data, passphrase, salt, iv, now, p).value)
  {
    match EncryptEnvelope(data, passphrase, salt, iv, now, p)
    case Err(e) => Err(e)
    case Ok(env) => Ok(p.envelopeText(env))
  }

  /** The structure check of decryptData: `salt`, `iv` and `data` all truthy. */
  predicate HasCipherFields(e: Envelope) {
    Truthy(e.salt) && Truthy(e.iv) && Truthy(e.data)
  }

  /** The result of decryptData, and whether it got as far as deriving a key. */
  datatype DecryptOutcome = DecryptOutcome(result: Result<Snapshot, CryptoError>, keyDerived: bool)

  /** The steps of decryptData after the structure check: derive the key,
      decode IV and ciphertext, decrypt, parse. None where any step throws. */
  function OpenEnvelope(e: Envelope, passphrase: string, p: Primitives): Option<Snapshot>
    requires HasCipherFields(e)
  {
    match DeriveKey(passphrase, e.salt.value, p)
    case None => None
    case Some(key) =>
      if p.fromBase64(e.iv.value).None? || p.fromBase64(e.data.value).None? then None
      else
        match p.aesDecrypt(key, p.fromBase64(e.iv.value).value, p.fromBase64(e.data.value).value)
        case None => None
        case Some(plain) => p.parse(plain)
  }

  /** decryptData: every failure becomes the one error the function throws. */
  function DecryptData(text: string, passphrase: string, p: Primitives): (r: DecryptOutcome)
    ensures p.parseEnvelope(text).None? ==> r.result.Err? && !r.keyDerived
    ensures p.parseEnvelope(text).Some? && !HasCipherFields(p.parseEnvelope(text).value) ==>
      r.result.Err? && !r.keyDerived
    ensures r.result.Ok? ==> r.keyDerived
  {
    match p.parseEnvelope(text)
    case None => DecryptOutcome(Err(DecryptionFailed), false)
    case Some(e) =>
      if !HasCipherFields(e) then DecryptOutcome(Err(DecryptionFailed), false)
      else
        match OpenEnvelope(e, passphrase, p)
        case None => DecryptOutcome(Err(DecryptionFailed), true)
        case Some(s) => DecryptOutcome(Ok(s), true)
  }

  /** Decrypting with the passphrase used to encrypt gives the data back. */
  lemma EncryptDecryptRoundTrip(data: Snapshot, passphrase: string, salt: seq<byte>, iv: seq<byte>, now: int, p: Primitives)
    requires |salt| == 16 && |iv| == 12
    requires Sound(p)
    ensures DecryptData(EncryptData(data, passphrase, salt, iv, now, p).value, passphrase, p).result == Ok(data)
  {
    var key := p.deriveKey(passphrase, salt);
    assert p.fromBase64(p.toBase64(salt)) == Some(salt);
    var sealed := p.aesEncrypt(key, iv, p.serialize(data));
    assert p.fromBase64(p.toBase64(iv)) == Some(iv);
    assert p.fromBase64(p.toBase64(sealed)) == Some(sealed);
    assert p.aesDecrypt(key, iv, sealed) == Some(p.serialize(data));
  }

  /** Decrypting with any other passphrase fails. */
  lemma WrongPassphraseRejected(data: Snapshot, passphrase: string, other: string, salt: seq<byte>, iv: seq<byte>, now: int, p: Primitives)
    requires |salt| == 16 && |iv| == 12
    requires Sound(p)
    requires other != passphrase
    ensures DecryptData(EncryptData(data, passphrase, salt, iv, now, p).value, other, p).result.Err?
  {
    var key := p.deriveKey(passphrase, salt);
    var otherKey := p.deriveKey(other, salt);
    assert key != otherKey;
    assert p.fromBase64(p.toBase64(salt)) == Some(salt);
    var sealed := p.aesEncrypt(key, iv, p.serialize(data));
    assert p.fromBase64(p.toBase64(iv)) == Some(iv);
    assert p.fromBase64(p.toBase64(sealed)) == Some(sealed);
    assert p.aesDecrypt(otherKey, iv, sealed).None?;
  }
}
