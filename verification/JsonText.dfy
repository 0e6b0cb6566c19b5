/**
 The text of JSON (RFC 8259) as Go's encoding/json scans it: strings and their decoding, white
 space, and where a value of any kind ends. The lemmas on cut text say what is left of these when
 only the first bytes of a body were read.
 */
module JsonText {
  import opened Options
  import opened Utf8

  // ---- Strings (section 7 of RFC 8259) ----

  const QUOTE: byte := 0x22
  const BACKSLASH: byte := 0x5C

  predicate HexDigit(b: byte) {
    0x30 <= b <= 0x39 || 0x41 <= b <= 0x46 || 0x61 <= b <= 0x66
  }

  function HexValue(b: byte): (v: int)
    requires HexDigit(b)
    ensures 0 <= v < 16
  {
    if b <= 0x39 then b - 0x30 else if b <= 0x46 then b - 0x37 else b - 0x57
  }

  /** The letter of a two-byte escape, and the byte it stands for. */
  function ShortEscape(b: byte): (r: Option<byte>)
    ensures r.Some? ==> r.value < 0x80
  {
    if b == QUOTE || b == BACKSLASH || b == 0x2F then Some(b)
    else if b == 0x62 then Some(8)
    else if b == 0x66 then Some(12)
    else if b == 0x6E then Some(10)
    else if b == 0x72 then Some(13)
    else if b == 0x74 then Some(9)
    else None
  }

  predicate HexEscapeAt(s: bytes, i: nat) {
    i + 6 <= |s| && s[i] == BACKSLASH && s[i + 1] == 0x75 && forall k :: i + 2 <= k < i + 6 ==> HexDigit(s[k])
  }

  function HexEscapeValue(s: bytes, i: nat): (v: int)
    requires HexEscapeAt(s, i)
    ensures 0 <= v < 0x10000
  {
    4096 * HexValue(s[i + 2]) + 256 * HexValue(s[i + 3]) + 16 * HexValue(s[i + 4]) + HexValue(s[i + 5])
  }

  /** How many bytes the character or escape at i takes; 0 when the string cannot continue here. */
  function StepLength(s: bytes, i: nat): (n: nat)
    ensures i + n <= |s| || n == 0
  {
    if i >= |s| || s[i] == QUOTE || s[i] < 0x20 then 0
    else if s[i] != BACKSLASH then 1
    else if HexEscapeAt(s, i) then 6
    else if i + 1 < |s| && ShortEscape(s[i + 1]).Some? then 2
    else 0
  }

  /** The index of the closing quote of the string whose content starts at i. */
  function StringEnd(s: bytes, i: nat): (end: Option<nat>)
    ensures end.Some? ==> i <= end.value < |s| && s[end.value] == QUOTE
    decreases |s| - i
  {
    if i < |s| && s[i] == QUOTE then Some(i)
    else if StepLength(s, i) == 0 then None
    else StringEnd(s, i + StepLength(s, i))
  }

  const REPLACEMENT := 0xFFFD

  predicate Surrogate(v: int) {
    0xD800 <= v <= 0xDFFF
  }

  /** The code point of the escape at i and the bytes it takes: a surrogate pair counts as one. */
  function EscapedRune(raw: bytes, i: nat): (r: (int, nat))
    requires HexEscapeAt(raw, i)
    ensures ScalarValue(r.0) && (r.1 == 6 || (r.1 == 12 && i + 12 <= |raw|))
  {
    var v := HexEscapeValue(raw, i);
    if !Surrogate(v) then (v, 6)
    else if v < 0xDC00 && HexEscapeAt(raw, i + 6) && 0xDC00 <= HexEscapeValue(raw, i + 6) <= 0xDFFF
    then (0x10000 + (v - 0xD800) * 1024 + HexEscapeValue(raw, i + 6) - 0xDC00, 12)
    else (REPLACEMENT, 6)
  }

  /** The decoded content; bytes that are not UTF-8 become U+FFFD, like lone surrogates. */
  function Unquote(raw: bytes): bytes
    decreases |raw|, 1
  {
    if raw == [] then [] else if raw[0] == BACKSLASH then UnquoteEscape(raw) else UnquotePlain(raw)
  }

  /** Content that begins with a backslash. */
  function UnquoteEscape(raw: bytes): bytes
    requires raw != []
    decreases |raw|, 0
  {
    if HexEscapeAt(raw, 0) then
      var (cp, n) := EscapedRune(raw, 0);
      Encode(cp) + Unquote(raw[n..])
    else if |raw| > 1 && ShortEscape(raw[1]).Some? then [ShortEscape(raw[1]).value] + Unquote(raw[2..])
    else Unquote(raw[1..])
  }

  function UnquotePlain(raw: bytes): bytes
    requires raw != []
    decreases |raw|, 0
  {
    if SequenceLength(raw) == 0 then Encode(REPLACEMENT) + Unquote(raw[1..])
    else raw[..SequenceLength(raw)] + Unquote(raw[SequenceLength(raw)..])
  }

  /** Whatever the bytes between the quotes are, what they decode to is UTF-8. */
  lemma {:induction false} UnquotedIsValid(raw: bytes)
    ensures Valid(Unquote(raw))
    decreases |raw|
  {
    if raw == [] {
    } else if raw[0] == BACKSLASH {
      if HexEscapeAt(raw, 0) {
        var (cp, n) := EscapedRune(raw, 0);
        UnquotedIsValid(raw[n..]);
        ValidConcat(Encode(cp), Unquote(raw[n..]));
      } else if |raw| > 1 && ShortEscape(raw[1]).Some? {
        UnquotedIsValid(raw[2..]);
        ValidConcat([ShortEscape(raw[1]).value], Unquote(raw[2..]));
      } else {
        UnquotedIsValid(raw[1..]);
      }
    } else if SequenceLength(raw) == 0 {
      UnquotedIsValid(raw[1..]);
      ValidConcat(Encode(REPLACEMENT), Unquote(raw[1..]));
    } else {
      var k := SequenceLength(raw);
      assert raw[..k][k..] == [];
      UnquotedIsValid(raw[k..]);
      ValidConcat(raw[..k], Unquote(raw[k..]));
    }
  }

  predicate Space(b: byte) {
    b == 0x20 || b == 0x09 || b == 0x0A || b == 0x0D
  }

  function SkipSpace(s: bytes, i: nat): (j: nat)
    ensures i <= j && (i <= |s| ==> j <= |s|) && (j < |s| ==> !Space(s[j]))
    ensures forall k :: i <= k < j ==> k < |s| && Space(s[k])
    decreases |s| - i
  {
    if i < |s| && Space(s[i]) then SkipSpace(s, i + 1) else i
  }

  // ---- Values, as the scanner of encoding/json delimits them ----

  predicate Digit(b: byte) {
    0x30 <= b <= 0x39
  }

  /** Inside a number: what was read last. A number may end behind a zero or behind digits. */
  datatype NumberState = Minus | Zero | Whole | Point | Fraction | Exponent | ExponentSign | ExponentDigits

  predicate MayEnd(st: NumberState) {
    st.Zero? || st.Whole? || st.Fraction? || st.ExponentDigits?
  }

  /** How a number goes on with the byte b, if it can. */
  function NextNumberState(st: NumberState, b: byte): Option<NumberState> {
    match st
    case Minus => if b == 0x30 then Some(Zero) else if Digit(b) then Some(Whole) else None
    case Point => if Digit(b) then Some(Fraction) else None
    case Exponent =>
      if b == 0x2B || b == 0x2D then Some(ExponentSign) else if Digit(b) then Some(ExponentDigits) else None
    case ExponentSign => if Digit(b) then Some(ExponentDigits) else None
    case ExponentDigits => if Digit(b) then Some(ExponentDigits) else None
    case _ =>
      if !st.Zero? && Digit(b) then Some(st)
      else if !st.Fraction? && b == 0x2E then Some(Point)
      else if b == 0x65 || b == 0x45 then Some(Exponent)
      else None
  }

  /** Behind the number of which the part before i was read; Minus also stands for its beginning. */
  function NumberEnd(s: bytes, i: nat, st: NumberState): (j: Option<nat>)
    ensures j.Some? ==> i <= j.value && (i <= |s| ==> j.value <= |s|) && (i < j.value || MayEnd(st))
    decreases |s| - i
  {
    if i < |s| && NextNumberState(st, s[i]).Some? then NumberEnd(s, i + 1, NextNumberState(st, s[i]).value)
    else if MayEnd(st) then Some(i)
    else None
  }

  const TRUE: bytes := [0x74, 0x72, 0x75, 0x65]
  const FALSE: bytes := [0x66, 0x61, 0x6C, 0x73, 0x65]
  const NULL: bytes := [0x6E, 0x75, 0x6C, 0x6C]

  function WordEnd(s: bytes, i: nat, word: bytes): (j: Option<nat>)
    requires word != []
    ensures j.Some? ==> i < j.value <= |s|
  {
    if i + |word| <= |s| && s[i..i + |word|] == word then Some(i + |word|) else None
  }

  /** A number, true, false or null. */
  function ScalarEnd(s: bytes, i: nat): (j: Option<nat>)
    ensures j.Some? ==> i < j.value <= |s|
  {
    if i >= |s| then None
    else if s[i] == 0x74 then WordEnd(s, i, TRUE)
    else if s[i] == 0x66 then WordEnd(s, i, FALSE)
    else if s[i] == 0x6E then WordEnd(s, i, NULL)
    else NumberEnd(s, if s[i] == 0x2D then i + 1 else i, Minus)
  }

  /** Behind the byte b, if it comes next but for white space. */
  function Behind(s: bytes, i: nat, b: byte): (j: Option<nat>)
    ensures j.Some? ==> i < j.value <= |s|
  {
    var j := SkipSpace(s, i);
    if j < |s| && s[j] == b then Some(j + 1) else None
  }

  /** Behind the string that comes next. */
  function QuotedEnd(s: bytes, i: nat): (j: Option<nat>)
    ensures j.Some? ==> i < j.value <= |s|
  {
    var open := Behind(s, i, QUOTE);
    if open.None? then None
    else
      var end := StringEnd(s, open.value);
      if end.None? then None else Some(end.value + 1)
  }

  /** Behind the value whose first byte is at i. */
  function ValueAtEnd(s: bytes, i: nat): (j: Option<nat>)
    ensures j.Some? ==> i < j.value <= |s|
    decreases |s| - i, 0
  {
    if i >= |s| then None
    else if s[i] == QUOTE then QuotedEnd(s, i)
    else if s[i] == 0x7B then ObjectEnd(s, i + 1)
    else if s[i] == 0x5B then ArrayEnd(s, i + 1)
    else ScalarEnd(s, i)
  }

  function ObjectEnd(s: bytes, i: nat): (j: Option<nat>)
    ensures j.Some? ==> i < j.value <= |s|
    decreases |s| - i, 3
  {
    if Behind(s, i, 0x7D).Some? then Behind(s, i, 0x7D) else MembersEnd(s, i)
  }

  function ArrayEnd(s: bytes, i: nat): (j: Option<nat>)
    ensures j.Some? ==> i < j.value <= |s|
    decreases |s| - i, 3
  {
    if Behind(s, i, 0x5D).Some? then Behind(s, i, 0x5D) else ElementsEnd(s, i)
  }

  /** Behind the value that comes next; None when there is none. */
  function ValueEnd(s: bytes, i: nat): (j: Option<nat>)
    ensures j.Some? ==> i < j.value <= |s|
    decreases |s| - i, 1
  {
    var j := SkipSpace(s, i);
    if j >= |s| then None else ValueAtEnd(s, j)
  }

  /** Behind the bracket that closes an array of which an element starts at i. */
  function ElementsEnd(s: bytes, i: nat): (j: Option<nat>)
    ensures j.Some? ==> i < j.value <= |s|
    decreases |s| - i, 2
  {
    var v := ValueEnd(s, i);
    if v.None? then None
    else
      var comma := Behind(s, v.value, 0x2C);
      if comma.Some? then ElementsEnd(s, comma.value) else Behind(s, v.value, 0x5D)
  }

  /** Behind the colon that follows the field name at i. */
  function NameEnd(s: bytes, i: nat): (j: Option<nat>)
    ensures j.Some? ==> i < j.value <= |s|
  {
    var name := QuotedEnd(s, i);
    if name.None? then None else Behind(s, name.value, 0x3A)
  }

  /** Behind the brace that closes an object of which a field starts at i. */
  function MembersEnd(s: bytes, i: nat): (j: Option<nat>)
    ensures j.Some? ==> i < j.value <= |s|
    decreases |s| - i, 2
  {
    var name := NameEnd(s, i);
    if name.None? then None
    else
      var v := ValueEnd(s, name.value);
      if v.None? then None
      else
        var comma := Behind(s, v.value, 0x2C);
        if comma.Some? then MembersEnd(s, comma.value) else Behind(s, v.value, 0x7D)
  }

  // ---- Cut text ----

  /** The end found in the whole text is found in the first c bytes if it lies there, and no other is. */
  ghost predicate SameEnd(full: Option<nat>, cut: Option<nat>, c: nat) {
    (full.Some? && full.value <= c ==> cut == full) && (cut.Some? ==> cut == full && cut.value <= c)
  }

  /** Likewise, but the text may end early in what was found: a number goes on for as long as there are digits. */
  ghost predicate SameEndBefore(full: Option<nat>, cut: Option<nat>, c: nat) {
    (full.Some? && full.value <= c ==> cut == full) &&
    (cut.Some? ==> cut.value <= c && (cut.value < c ==> cut == full))
  }

  lemma {:induction false} SkipSpaceCut(s: bytes, c: nat, i: nat)
    requires i <= c <= |s|
    ensures SkipSpace(s[..c], i) == if SkipSpace(s, i) < c then SkipSpace(s, i) else c
    decreases |s| - i
  {
    if i < c && Space(s[i]) {
      SkipSpaceCut(s, c, i + 1);
    }
  }

  /** A string ends in the cut text exactly where it does in the whole text, or not at all. */
  lemma {:induction false} StringEndCut(s: bytes, c: nat, i: nat)
    requires i <= c <= |s|
    ensures StringEnd(s[..c], i)
         == if StringEnd(s, i).Some? && StringEnd(s, i).value < c then StringEnd(s, i) else None
    decreases |s| - i
  {
    if i < c && s[i] != QUOTE && StepLength(s, i) != 0 && i + StepLength(s, i) <= c {
      StringEndCut(s, c, i + StepLength(s, i));
    }
  }

  lemma {:induction false} NumberCut(s: bytes, c: nat, i: nat, st: NumberState)
    requires i <= c <= |s|
    ensures SameEndBefore(NumberEnd(s, i, st), NumberEnd(s[..c], i, st), c)
    decreases |s| - i
  {
    if i < c && NextNumberState(st, s[i]).Some? {
      NumberCut(s, c, i + 1, NextNumberState(st, s[i]).value);
    }
  }

  lemma WordCut(s: bytes, c: nat, i: nat, word: bytes)
    requires i <= c <= |s| && word != []
    ensures SameEnd(WordEnd(s, i, word), WordEnd(s[..c], i, word), c)
  {
    if i + |word| <= c {
      assert s[..c][i..i + |word|] == s[i..i + |word|];
    }
  }

  lemma ScalarCut(s: bytes, c: nat, i: nat)
    requires i < c <= |s|
    ensures SameEndBefore(ScalarEnd(s, i), ScalarEnd(s[..c], i), c)
  {
    WordCut(s, c, i, TRUE);
    WordCut(s, c, i, FALSE);
    WordCut(s, c, i, NULL);
    NumberCut(s, c, if s[i] == 0x2D then i + 1 else i, Minus);
  }

  lemma BehindCut(s: bytes, c: nat, i: nat, b: byte)
    requires i <= c <= |s|
    ensures SameEnd(Behind(s, i, b), Behind(s[..c], i, b), c)
  {
    SkipSpaceCut(s, c, i);
  }

  lemma QuotedCut(s: bytes, c: nat, i: nat)
    requires i <= c <= |s|
    ensures SameEnd(QuotedEnd(s, i), QuotedEnd(s[..c], i), c)
  {
    BehindCut(s, c, i, QUOTE);
    var open := Behind(s[..c], i, QUOTE);
    if open.Some? {
      StringEndCut(s, c, open.value);
    }
  }

  lemma NameCut(s: bytes, c: nat, i: nat)
    requires i <= c <= |s|
    ensures SameEnd(NameEnd(s, i), NameEnd(s[..c], i), c)
  {
    QuotedCut(s, c, i);
    var name := QuotedEnd(s[..c], i);
    if name.Some? {
      BehindCut(s, c, name.value, 0x3A);
    }
  }

  lemma ValueAtCut(s: bytes, c: nat, i: nat)
    requires i < c <= |s|
    ensures SameEndBefore(ValueAtEnd(s, i), ValueAtEnd(s[..c], i), c)
    decreases |s| - i, 0
  {
    if s[i] == QUOTE {
      QuotedCut(s, c, i);
    } else if s[i] == 0x7B {
      ObjectCut(s, c, i + 1);
    } else if s[i] == 0x5B {
      ArrayCut(s, c, i + 1);
    } else {
      ScalarCut(s, c, i);
    }
  }

  lemma ObjectCut(s: bytes, c: nat, i: nat)
    requires i <= c <= |s|
    ensures SameEnd(ObjectEnd(s, i), ObjectEnd(s[..c], i), c)
    decreases |s| - i, 3
  {
    BehindCut(s, c, i, 0x7D);
    if Behind(s, i, 0x7D).None? {
      MembersCut(s, c, i);
    } else if Behind(s, i, 0x7D).value > c {
      SkipSpaceCut(s, c, i);
    }
  }

  lemma ArrayCut(s: bytes, c: nat, i: nat)
    requires i <= c <= |s|
    ensures SameEnd(ArrayEnd(s, i), ArrayEnd(s[..c], i), c)
    decreases |s| - i, 3
  {
    BehindCut(s, c, i, 0x5D);
    if Behind(s, i, 0x5D).None? {
      ElementsCut(s, c, i);
    } else if Behind(s, i, 0x5D).value > c {
      SkipSpaceCut(s, c, i);
    }
  }

  /** What a value in the cut text may be: the same value, or one that the cut ends. */
  lemma ValueCut(s: bytes, c: nat, i: nat)
    requires i <= c <= |s|
    ensures SameEndBefore(ValueEnd(s, i), ValueEnd(s[..c], i), c)
    decreases |s| - i, 1
  {
    SkipSpaceCut(s, c, i);
    if SkipSpace(s, i) < c {
      ValueAtCut(s, c, SkipSpace(s, i));
    }
  }

  lemma ElementsCut(s: bytes, c: nat, i: nat)
    requires i <= c <= |s|
    ensures SameEnd(ElementsEnd(s, i), ElementsEnd(s[..c], i), c)
    decreases |s| - i, 2
  {
    ValueCut(s, c, i);
    var v := ValueEnd(s[..c], i);
    if v.Some? {
      BehindCut(s, c, v.value, 0x2C);
      BehindCut(s, c, v.value, 0x5D);
      var comma := Behind(s[..c], v.value, 0x2C);
      if comma.Some? {
        ElementsCut(s, c, comma.value);
      }
    }
  }

  lemma MembersCut(s: bytes, c: nat, i: nat)
    requires i <= c <= |s|
    ensures SameEnd(MembersEnd(s, i), MembersEnd(s[..c], i), c)
    decreases |s| - i, 2
  {
    NameCut(s, c, i);
    var name := NameEnd(s[..c], i);
    if name.Some? {
      ValueCut(s, c, name.value);
      var v := ValueEnd(s[..c], name.value);
      if v.Some? {
        BehindCut(s, c, v.value, 0x2C);
        BehindCut(s, c, v.value, 0x7D);
        var comma := Behind(s[..c], v.value, 0x2C);
        if comma.Some? {
          MembersCut(s, c, comma.value);
        }
      }
    }
  }

  lemma SplitWindow(t: bytes, i: nat, a: bytes, b: bytes)
    requires i + |a| + |b| <= |t| && t[i..i + |a| + |b|] == a + b
    ensures t[i..i + |a|] == a && t[i + |a|..i + |a| + |b|] == b
  {
    assert t[i..i + |a|] == t[i..i + |a| + |b|][..|a|] == (a + b)[..|a|];
    assert t[i + |a|..i + |a| + |b|] == t[i..i + |a| + |b|][|a|..] == (a + b)[|a|..];
  }
}
