/**
 backend/handler_objects.go: the Content-Disposition header of a download, which carries the object
 name twice, as a plain fallback and percent-encoded.
 */
module Disposition {
  import opened Options
  import opened Utf8

  const PERCENT: byte := 0x25
  const DOUBLE_QUOTE: byte := 0x22
  const BACKSLASH: byte := 0x5C
  const UNDERSCORE: byte := 0x5F

  /** attr-char of section 3.2.1 of RFC 8187: letters, digits and ! # $ & + - . ^ _ ` | ~ */
  predicate AttrChar(b: byte) {
    0x61 <= b <= 0x7A || 0x41 <= b <= 0x5A || 0x30 <= b <= 0x39 ||
    b in {0x21, 0x23, 0x24, 0x26, 0x2B, 0x2D, 0x2E, 0x5E, 0x5F, 0x60, 0x7C, 0x7E}
  }

  predicate UpperHex(b: byte) {
    0x30 <= b <= 0x39 || 0x41 <= b <= 0x46
  }

  function HexDigit(v: int): (b: byte)
    requires 0 <= v < 16
    ensures UpperHex(b) && HexValue(b) == v
  {
    if v < 10 then 0x30 + v else 0x37 + v
  }

  function HexValue(b: byte): (v: int)
    requires UpperHex(b)
    ensures 0 <= v < 16
  {
    if b <= 0x39 then b - 0x30 else b - 0x37
  }

  function Escape(s: bytes): bytes {
    if s == [] then []
    else
      var n := |s| - 1;
      Escape(s[..n]) + if AttrChar(s[n]) then [s[n]] else [PERCENT, HexDigit(s[n] / 16), HexDigit(s[n] % 16)]
  }

  /** value-chars of section 3.2.1 of RFC 8187: attr-chars and percent-encoded bytes. */
  predicate ValueChars(s: bytes) {
    s == [] || (AttrChar(s[0]) && ValueChars(s[1..])) ||
    (|s| >= 3 && s[0] == PERCENT && UpperHex(s[1]) && UpperHex(s[2]) && ValueChars(s[3..]))
  }

  function Unescape(s: bytes): Option<bytes> {
    if s == [] then Some([])
    else if s[0] != PERCENT then
      var rest := Unescape(s[1..]);
      if rest.None? then None else Some([s[0]] + rest.value)
    else if |s| < 3 || !UpperHex(s[1]) || !UpperHex(s[2]) then None
    else
      var rest := Unescape(s[3..]);
      if rest.None? then None else Some([16 * HexValue(s[1]) + HexValue(s[2])] + rest.value)
  }

  method Rfc8187Escape(s: bytes) returns (b: bytes)
    ensures b == Escape(s)
    ensures ValueChars(b) && Unescape(b) == Some(s)
  {
    b := [];
    for i := 0 to |s|
      invariant b == Escape(s[..i])
    {
      assert s[..i + 1][..i] == s[..i];
      var c := s[i];
      if 0x61 <= c <= 0x7A || 0x41 <= c <= 0x5A || 0x30 <= c <= 0x39 ||
         c in {0x21, 0x23, 0x24, 0x26, 0x2B, 0x2D, 0x2E, 0x5E, 0x5F, 0x60, 0x7C, 0x7E}
      {
        b := b + [c];
      } else {
        b := b + [PERCENT, HexDigit(c / 16), HexDigit(c % 16)];
      }
    }
    assert s[..|s|] == s;
    EscapeRoundTrip(s);
  }

  /** Decoding works piece by piece. */
  lemma {:induction false} UnescapeConcat(a: bytes, b: bytes)
    requires Unescape(a).Some? && ValueChars(a)
    ensures Unescape(b).Some? ==> Unescape(a + b) == Some(Unescape(a).value + Unescape(b).value)
    ensures ValueChars(b) ==> ValueChars(a + b)
  {
    if a == [] {
      assert a + b == b;
      if Unescape(b).Some? {
        assert Unescape(a).value + Unescape(b).value == Unescape(b).value;
      }
    } else {
      var k := if a[0] == PERCENT then 3 else 1;
      assert (a + b)[k..] == a[k..] + b;
      UnescapeConcat(a[k..], b);
      if Unescape(b).Some? {
        Regroup(if k == 3 then [16 * HexValue(a[1]) + HexValue(a[2])] else [a[0]],
                Unescape(a[k..]).value, Unescape(b).value);
      }
    }
  }

  lemma EscapedByte(b: byte)
    ensures var e := if AttrChar(b) then [b] else [PERCENT, HexDigit(b / 16), HexDigit(b % 16)];
            Unescape(e) == Some([b]) && ValueChars(e)
  {
    var none: bytes := [];
    assert Unescape(none) == Some(none) && [b] + none == [b];
    var e: bytes := if AttrChar(b) then [b] else [PERCENT, HexDigit(b / 16), HexDigit(b % 16)];
    if AttrChar(b) {
      assert e[1..] == none;
    } else {
      assert e[3..] == none;
      assert 16 * HexValue(e[1]) + HexValue(e[2]) == b;
    }
  }

  /** attr-char as characters. */
  predicate Unescaped(c: char) {
    'a' <= c <= 'z' || 'A' <= c <= 'Z' || '0' <= c <= '9' || c in "!#$&+-.^_`|~"
  }

  /** Byte by byte: the characters allowed stay, and any other byte is written as two upper-case digits. */
  lemma EscapedOne(b: byte)
    ensures Escape([b]) == if Unescaped(b as char) then [b]
                           else ['%' as int, "0123456789ABCDEF"[b / 16] as int, "0123456789ABCDEF"[b % 16] as int]
  {
    assert [b][..0] == [];
    AllowedCharacters(b);
  }

  lemma AllowedCharacters(b: byte)
    ensures AttrChar(b) <==> Unescaped(b as char)
  {
    var symbols := "!#$&+-.^_`|~";
    assert symbols[0] == '!' && symbols[1] == '#' && symbols[2] == '$' && symbols[3] == '&' && symbols[4] == '+'
           && symbols[5] == '-' && symbols[6] == '.' && symbols[7] == '^' && symbols[8] == '_' && symbols[9] == '`'
           && symbols[10] == '|' && symbols[11] == '~';
  }

  lemma {:induction false} EscapeConcat(a: bytes, b: bytes)
    ensures Escape(a + b) == Escape(a) + Escape(b)
    decreases |b|
  {
    if b == [] {
      assert a + b == a;
    } else {
      var n := |b| - 1;
      assert (a + b)[..|a + b| - 1] == a + b[..n];
      EscapeConcat(a, b[..n]);
      Regroup(Escape(a), Escape(b[..n]),
              if AttrChar(b[n]) then [b[n]] else [PERCENT, HexDigit(b[n] / 16), HexDigit(b[n] % 16)]);
    }
  }

  /** Every byte string comes back from its escaped form, which uses only the characters allowed. */
  lemma {:induction false} EscapeRoundTrip(s: bytes)
    ensures Unescape(Escape(s)) == Some(s) && ValueChars(Escape(s))
  {
    if s != [] {
      var n := |s| - 1;
      EscapeRoundTrip(s[..n]);
      EscapedByte(s[n]);
      UnescapeConcat(Escape(s[..n]),
                     if AttrChar(s[n]) then [s[n]] else [PERCENT, HexDigit(s[n] / 16), HexDigit(s[n] % 16)]);
      assert s == s[..n] + [s[n]];
    }
  }

  // ---- The header ----

  function Ascii(s: string): (b: bytes)
    ensures |b| == |s| && forall i :: 0 <= i < |s| && (s[i] as int) < 128 ==> b[i] == s[i] as int
  {
    seq(|s|, i requires 0 <= i < |s| => if (s[i] as int) < 128 then s[i] as int else 0x3F)
  }

  /** The word download. */
  const DOWNLOAD: bytes := [0x64, 0x6F, 0x77, 0x6E, 0x6C, 0x6F, 0x61, 0x64]

  /** What one character of the name becomes in the fallback: a byte or nothing. */
  function FallbackByte(b: byte): bytes {
    if b == DOUBLE_QUOTE || b == BACKSLASH then [UNDERSCORE]
    else if b < 0x20 || b == 0x7F then []
    else if b > 0x7E then [UNDERSCORE]
    else [b]
  }

  predicate SafeInQuotes(s: bytes) {
    forall i :: 0 <= i < |s| ==> 0x20 <= s[i] <= 0x7E && s[i] != DOUBLE_QUOTE && s[i] != BACKSLASH
  }

  /** Characters are whole UTF-8 sequences; a byte that begins none counts as one character. */
  function CharLength(s: bytes): (k: nat)
    requires s != []
    ensures 1 <= k <= |s|
  {
    if SequenceLength(s) == 0 then 1 else SequenceLength(s)
  }

  /** The fallback before it is checked for being empty: one byte or none for each character. */
  function FallbackBytes(s: bytes): bytes {
    if s == [] then [] else FallbackByte(s[0]) + FallbackBytes(s[CharLength(s)..])
  }

  /** The characters up to i are in ascii; what is left of the name gives the rest of the fallback. */
  ghost predicate LeftOver(ascii: bytes, name: bytes, i: nat) {
    i <= |name| && ascii + FallbackBytes(name[i..]) == FallbackBytes(name)
  }

  lemma LeftOverStart(name: bytes)
    ensures LeftOver([], name, 0)
  {
    assert name[0..] == name;
  }

  lemma LeftOverStep(ascii: bytes, name: bytes, i: nat, more: bytes, k: nat)
    requires i < |name| && LeftOver(ascii, name, i)
    requires more == FallbackByte(name[i]) && k == CharLength(name[i..])
    ensures LeftOver(ascii + more, name, i + k)
  {
    assert name[i..][k..] == name[i + k..];
    Regroup(ascii, more, FallbackBytes(name[i + k..]));
  }

  lemma LeftOverEnd(ascii: bytes, name: bytes)
    requires LeftOver(ascii, name, |name|)
    ensures ascii == FallbackBytes(name)
  {
    assert name[|name|..] == [];
  }

  method FallbackName(name: bytes) returns (fallback: bytes)
    ensures fallback == if FallbackBytes(name) == [] then DOWNLOAD else FallbackBytes(name)
    ensures fallback != [] && SafeInQuotes(fallback)
    ensures SafeInQuotes(name) && name != [] ==> fallback == name
  {
    var ascii: bytes := [];
    var i := 0;
    LeftOverStart(name);
    while i < |name|
      invariant LeftOver(ascii, name, i)
    {
      var more := FallbackByte(name[i]);
      var k := CharLength(name[i..]);
      LeftOverStep(ascii, name, i, more, k);
      ascii := ascii + more;
      i := i + k;
    }
    LeftOverEnd(ascii, name);
    DownloadIsSafe();
    FallbackFacts(name);
    fallback := if ascii == [] then DOWNLOAD else ascii;
  }

  lemma DownloadIsSafe()
    ensures SafeInQuotes(DOWNLOAD)
  {
  }

  lemma SafeConcat(b: byte, rest: bytes)
    requires SafeInQuotes(rest)
    ensures SafeInQuotes(FallbackByte(b) + rest)
  {
  }

  lemma SafeByte(s: bytes)
    requires s != [] && SafeInQuotes(s)
    ensures FallbackByte(s[0]) == [s[0]] && CharLength(s) == 1 && SafeInQuotes(s[1..])
  {
  }

  /** The fallback needs no quoting, and a name that needs none is its own fallback. */
  lemma {:induction false} FallbackFacts(s: bytes)
    ensures SafeInQuotes(FallbackBytes(s))
    ensures SafeInQuotes(s) ==> FallbackBytes(s) == s
  {
    if s != [] {
      var rest := s[CharLength(s)..];
      FallbackFacts(rest);
      SafeConcat(s[0], FallbackBytes(rest));
      if SafeInQuotes(s) {
        SafeByte(s);
        assert s == [s[0]] + rest;
      }
    }
  }

  /** What one code point leaves in the fallback. */
  lemma FallbackOfCodePoint(cp: int, rest: bytes, t: bytes)
    requires ScalarValue(cp) && t == Encode(cp) + rest
    ensures FallbackBytes(t)
         == (if cp == '"' as int || cp == '\\' as int || cp > 0x7F then ['_' as int]
             else if cp < 0x20 || cp == 0x7F then [] else [cp]) + FallbackBytes(rest)
  {
    var e := Encode(cp);
    CodePointOfEncoded(cp);
    SequenceFacts(e);
    SequenceOfConcat(e, rest, |e|);
    assert e[|e|..] + rest == rest;
    assert t[0] == e[0] && t[CharLength(t)..] == rest;
    assert FallbackBytes(t) == FallbackByte(e[0]) + FallbackBytes(rest);
    if cp == 0x7F {
      assert [] + FallbackBytes(rest) == FallbackBytes(rest);
    }
  }

  /** A byte that begins no character leaves an underscore. */
  lemma FallbackOfBadByte(t: bytes)
    requires t != [] && SequenceLength(t) == 0
    ensures FallbackBytes(t) == ['_' as int] + FallbackBytes(t[1..])
  {
  }

  const PREFIX := "attachment; filename=\""
  const MIDDLE := "\"; filename*=UTF-8''"

  function FirstQuote(s: bytes): (i: nat)
    ensures i <= |s| && (i < |s| ==> s[i] == DOUBLE_QUOTE) && forall j :: 0 <= j < i ==> s[j] != DOUBLE_QUOTE
  {
    if s == [] || s[0] == DOUBLE_QUOTE then 0 else 1 + FirstQuote(s[1..])
  }

  /** What a recipient reads: the fallback up to the closing quote, and the decoded name. */
  function ReadHeader(h: bytes): Option<(bytes, bytes)> {
    var prefix, middle := Ascii(PREFIX), Ascii(MIDDLE);
    if !(prefix <= h) then None
    else
      var rest := h[|prefix|..];
      var q := FirstQuote(rest);
      if !(middle <= rest[q..]) || Unescape(rest[q..][|middle|..]).None? then None
      else Some((rest[..q], Unescape(rest[q..][|middle|..]).value))
  }

  lemma OneCharacter()
    ensures Ascii(".") == [0x2E] && Ascii("/") == [0x2F]
  {
  }

  /** A recipient reads back a usable fallback and exactly the object's name. */
  method AttachmentDisposition(name: bytes) returns (h: bytes)
    ensures ReadHeader(h).Some?
    ensures ReadHeader(h).value.1 == if name == [] || name == [0x2E] || name == [0x2F] then DOWNLOAD else name
    ensures var (fallback, exact) := ReadHeader(h).value;
            && fallback != [] && SafeInQuotes(fallback) && (SafeInQuotes(exact) ==> fallback == exact)
            && fallback == if FallbackBytes(exact) == [] then DOWNLOAD else FallbackBytes(exact)
  {
    var n := name;
    OneCharacter();
    if n == [] || n == Ascii(".") || n == Ascii("/") {
      n := DOWNLOAD;
    }
    var fallback := FallbackName(n);
    var escaped := Rfc8187Escape(n);
    h := Ascii(PREFIX) + fallback + Ascii(MIDDLE) + escaped;
    HeaderSplits(fallback, escaped);
  }

  /** Reading a header whose parts are given. */
  lemma ReadParts(h: bytes, rest: bytes, fallback: bytes, escaped: bytes)
    requires Ascii(PREFIX) <= h && rest == h[|PREFIX|..]
    requires FirstQuote(rest) == |fallback| && rest[..|fallback|] == fallback
    requires rest[|fallback|..] == Ascii(MIDDLE) + escaped && Unescape(escaped).Some?
    ensures ReadHeader(h) == Some((fallback, Unescape(escaped).value))
  {
    var middle, end := Ascii(MIDDLE), rest[|fallback|..];
    assert middle <= end && end[|middle|..] == escaped;
  }

  lemma HeaderSplits(fallback: bytes, escaped: bytes)
    requires SafeInQuotes(fallback) && Unescape(escaped).Some?
    ensures ReadHeader(Ascii(PREFIX) + fallback + Ascii(MIDDLE) + escaped) == Some((fallback, Unescape(escaped).value))
  {
    var prefix, middle := Ascii(PREFIX), Ascii(MIDDLE);
    var rest := fallback + middle + escaped;
    var h := prefix + fallback + middle + escaped;
    assert h == prefix + rest;
    QuoteEndsFallback(fallback, middle, escaped, rest);
    ReadParts(h, rest, fallback, escaped);
  }

  lemma QuoteEndsFallback(fallback: bytes, middle: bytes, escaped: bytes, rest: bytes)
    requires SafeInQuotes(fallback) && middle != [] && middle[0] == DOUBLE_QUOTE && rest == fallback + middle + escaped
    ensures FirstQuote(rest) == |fallback| && rest[..|fallback|] == fallback
    ensures rest[|fallback|..] == middle + escaped
  {
    assert rest[|fallback|] == middle[0];
    forall j | 0 <= j < |fallback| ensures rest[j] != DOUBLE_QUOTE {
      assert rest[j] == fallback[j];
    }
  }
}
