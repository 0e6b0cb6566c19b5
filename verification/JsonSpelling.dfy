/**
 The ways to write a text as the content of a JSON string (section 7 of RFC 8259), and that what is
 read from any of them is that text.
 */
module JsonSpelling {
  import opened JsonText
  import opened Options
  import opened Utf8

  /**
   How one code point is written: as it is, by a two-character escape, by four hexadecimal digits, or
   by a surrogate pair, each digit in either case. What is left cannot stand for a code point: one
   half of a pair on its own, and a byte that begins no UTF-8 sequence.
   */
  datatype Spelling =
    | Plain(cp: int)
    | Short(cp: int)
    | Hex(cp: int, upper: seq<bool>)
    | Pair(cp: int, upper: seq<bool>, upperLow: seq<bool>)
    | Lone(half: int, upper: seq<bool>)
    | Bad(b: byte)

  const LOWER := "0123456789abcdef"
  const UPPER := "0123456789ABCDEF"

  /** The letters of the short escapes, and what they stand for. */
  const SHORT: map<int, char> :=
    map[0x22 := '"', 0x5C := '\\', 0x2F := '/', 8 := 'b', 12 := 'f', 10 := 'n', 13 := 'r', 9 := 't']

  function DigitByte(v: int, upper: bool): (b: byte)
    requires 0 <= v < 16
    ensures HexDigit(b) && HexValue(b) == v
  {
    if upper then UPPER[v] as int else LOWER[v] as int
  }

  /** A number below 16^4 in base 16. */
  function FourDigits(n: int, upper: seq<bool>): (d: bytes)
    requires 0 <= n < 0x10000 && |upper| == 4
    ensures |d| == 4
  {
    [DigitByte(n / 4096, upper[0]), DigitByte(n / 256 % 16, upper[1]),
     DigitByte(n / 16 % 16, upper[2]), DigitByte(n % 16, upper[3])]
  }

  function Unit(n: int, upper: seq<bool>): (u: bytes)
    requires 0 <= n < 0x10000 && |upper| == 4
    ensures |u| == 6
  {
    [BACKSLASH, 0x75] + FourDigits(n, upper)
  }

  /** The halves of a surrogate pair (section 3 of RFC 2781). */
  function High(cp: int): int {
    0xD800 + (cp - 0x10000) / 0x400
  }

  function Low(cp: int): int {
    0xDC00 + (cp - 0x10000) % 0x400
  }

  /** The spelling can be used, by itself. */
  predicate Usable(sp: Spelling) {
    match sp
    case Plain(cp) => ScalarValue(cp) && cp >= 0x20 && cp != 0x22 && cp != 0x5C
    case Short(cp) => cp in SHORT
    case Hex(cp, upper) => ScalarValue(cp) && cp < 0x10000 && |upper| == 4
    case Pair(cp, upper, upperLow) => 0x10000 <= cp <= 0x10FFFF && |upper| == 4 && |upperLow| == 4
    case Lone(half, upper) => 0xD800 <= half <= 0xDFFF && |upper| == 4
    case Bad(b) => b >= 0x80
  }

  function Text(sp: Spelling): (t: bytes)
    requires Usable(sp)
    ensures t != []
  {
    match sp
    case Plain(cp) => Encode(cp)
    case Short(cp) => [BACKSLASH, SHORT[cp] as int]
    case Hex(cp, upper) => Unit(cp, upper)
    case Pair(cp, upper, upperLow) => Unit(High(cp), upper) + Unit(Low(cp), upperLow)
    case Lone(half, upper) => Unit(half, upper)
    case Bad(b) => [b]
  }

  /** The code point read; U+FFFD for what stands for none. */
  function Meaning(sp: Spelling): (cp: int)
    requires Usable(sp)
    ensures ScalarValue(cp)
  {
    match sp
    case Plain(cp) => cp
    case Short(cp) => cp
    case Hex(cp, _) => cp
    case Pair(cp, _, _) => cp
    case Lone(_, _) => REPLACEMENT
    case Bad(_) => REPLACEMENT
  }

  predicate AllUsable(sps: seq<Spelling>) {
    forall k :: 0 <= k < |sps| ==> Usable(sps[k])
  }

  function Content(sps: seq<Spelling>): bytes
    requires AllUsable(sps)
  {
    if sps == [] then [] else Text(sps[0]) + Content(sps[1..])
  }

  /** The text in UTF-8. */
  function Meant(sps: seq<Spelling>): bytes
    requires AllUsable(sps)
  {
    if sps == [] then [] else Encode(Meaning(sps[0])) + Meant(sps[1..])
  }

  predicate LowHalfAt(s: bytes, i: nat) {
    HexEscapeAt(s, i) && 0xDC00 <= HexEscapeValue(s, i) <= 0xDFFF
  }

  /** A half on its own is not the first half of a pair, and a bad byte begins no sequence with what follows. */
  predicate Stands(sp: Spelling, rest: bytes) {
    (sp.Lone? && sp.half < 0xDC00 ==> !LowHalfAt(rest, 0)) && (sp.Bad? ==> SequenceLength([sp.b] + rest) == 0)
  }

  predicate Spelled(sps: seq<Spelling>) {
    AllUsable(sps) && (sps == [] || (Stands(sps[0], Content(sps[1..])) && Spelled(sps[1..])))
  }

  lemma SpelledCons(sp: Spelling, rest: seq<Spelling>)
    requires Usable(sp) && AllUsable(rest) && Spelled(rest) && Stands(sp, Content(rest))
    ensures Spelled([sp] + rest) && Content([sp] + rest) == Text(sp) + Content(rest)
    ensures Meant([sp] + rest) == Encode(Meaning(sp)) + Meant(rest)
  {
    var all := [sp] + rest;
    assert all[1..] == rest && all[0] == sp;
  }

  // ---- Reading ----

  /** A text with a four-digit escape at i. */
  lemma UnitAt(t: bytes, i: nat, n: int, upper: seq<bool>)
    requires 0 <= n < 0x10000 && |upper| == 4 && i + 6 <= |t| && t[i..i + 6] == Unit(n, upper)
    ensures HexEscapeAt(t, i) && HexEscapeValue(t, i) == n
  {
    var u := Unit(n, upper);
    forall k | 0 <= k < 6 ensures t[i + k] == u[k] {
      assert t[i..i + 6][k] == t[i + k];
    }
    assert t[i] == t[i + 0] == u[0];
    assert u[2] == DigitByte(n / 4096, upper[0]) && u[3] == DigitByte(n / 256 % 16, upper[1]);
    assert u[4] == DigitByte(n / 16 % 16, upper[2]) && u[5] == DigitByte(n % 16, upper[3]);
    assert t[i + 1] == u[1] && t[i + 2] == u[2] && t[i + 3] == u[3] && t[i + 4] == u[4] && t[i + 5] == u[5];
    BaseSixteen(n);
  }

  lemma BaseSixteen(n: nat)
    ensures n == 4096 * (n / 4096) + 256 * (n / 256 % 16) + 16 * (n / 16 % 16) + n % 16
  {
    assert n == 16 * (n / 16) + n % 16;
    assert n / 16 == 16 * (n / 256) + n / 16 % 16;
    assert n / 256 == 16 * (n / 4096) + n / 256 % 16;
  }

  lemma UnquoteUnit(t: bytes, rest: bytes, n: int, upper: seq<bool>)
    requires 0 <= n < 0x10000 && |upper| == 4 && t == Unit(n, upper) + rest
    requires n < 0xD800 || n >= 0xDC00 || !LowHalfAt(rest, 0)
    ensures Unquote(t) == Encode(if Surrogate(n) then REPLACEMENT else n) + Unquote(rest)
  {
    assert t[0..6] == Unit(n, upper) && t[6..] == rest;
    UnitAt(t, 0, n, upper);
    SameEscape(t, 6, rest);
    assert EscapedRune(t, 0) == (if Surrogate(n) then REPLACEMENT else n, 6);
    assert Unquote(t) == UnquoteEscape(t);
  }

  /** What is at k in a text is at the beginning of the text from k on. */
  lemma SameEscape(t: bytes, k: nat, rest: bytes)
    requires k <= |t| && rest == t[k..]
    ensures HexEscapeAt(t, k) <==> HexEscapeAt(rest, 0)
    ensures HexEscapeAt(t, k) ==> HexEscapeValue(t, k) == HexEscapeValue(rest, 0)
  {
    if k + 6 <= |t| {
      assert rest[0] == t[k] && rest[1] == t[k + 1] && rest[2] == t[k + 2] && rest[3] == t[k + 3]
             && rest[4] == t[k + 4] && rest[5] == t[k + 5];
    }
  }

  lemma PairValue(cp: int)
    requires 0x10000 <= cp <= 0x10FFFF
    ensures 0xD800 <= High(cp) < 0xDC00 <= Low(cp) <= 0xDFFF
    ensures 0x10000 + (High(cp) - 0xD800) * 1024 + Low(cp) - 0xDC00 == cp
  {
  }

  lemma UnquotePair(t: bytes, rest: bytes, cp: int, upper: seq<bool>, upperLow: seq<bool>)
    requires 0x10000 <= cp <= 0x10FFFF && |upper| == 4 && |upperLow| == 4
    requires t == Unit(High(cp), upper) + (Unit(Low(cp), upperLow) + rest)
    ensures Unquote(t) == Encode(cp) + Unquote(rest)
  {
    var high, low := Unit(High(cp), upper), Unit(Low(cp), upperLow);
    PairValue(cp);
    TwoUnits(t, high, low, rest);
    UnitAt(t, 0, High(cp), upper);
    UnitAt(t, 6, Low(cp), upperLow);
    UnquoteTwelve(t, rest, cp);
  }

  lemma TwoUnits(t: bytes, high: bytes, low: bytes, rest: bytes)
    requires |high| == 6 && |low| == 6 && t == high + (low + rest)
    ensures |t| >= 12 && t[0..6] == high && t[6..12] == low && t[12..] == rest
  {
    assert t[6..] == low + rest;
  }

  lemma UnquoteTwelve(t: bytes, rest: bytes, cp: int)
    requires 0x10000 <= cp <= 0x10FFFF && |t| >= 12 && t[12..] == rest
    requires HexEscapeAt(t, 0) && HexEscapeValue(t, 0) == High(cp)
    requires HexEscapeAt(t, 6) && HexEscapeValue(t, 6) == Low(cp)
    ensures Unquote(t) == Encode(cp) + Unquote(rest)
  {
    PairValue(cp);
    assert EscapedRune(t, 0) == (cp, 12);
    assert Unquote(t) == UnquoteEscape(t);
  }

  lemma UnquoteShort(t: bytes, rest: bytes, cp: int)
    requires cp in SHORT && t == [BACKSLASH, SHORT[cp] as int] + rest
    ensures Unquote(t) == Encode(cp) + Unquote(rest)
  {
    assert t[2..] == rest;
    assert t[0] == BACKSLASH && t[1] == SHORT[cp] as int;
    assert ShortEscape(t[1]) == Some(cp) && t[1] != 0x75;
    assert Encode(cp) == [cp];
    assert Unquote(t) == UnquoteEscape(t);
  }

  lemma UnquoteSequence(t: bytes, rest: bytes, cp: int)
    requires ScalarValue(cp) && cp != 0x5C && t == Encode(cp) + rest
    ensures Unquote(t) == Encode(cp) + Unquote(rest)
  {
    var e := Encode(cp);
    CodePointOfEncoded(cp);
    SequenceOfConcat(e, rest, |e|);
    assert e[|e|..] + rest == rest && t[..|e|] == e;
    assert t[0] == e[0];
    assert Unquote(t) == UnquotePlain(t);
  }

  lemma UnquoteBad(t: bytes, rest: bytes, b: byte)
    requires b >= 0x80 && t == [b] + rest && SequenceLength(t) == 0
    ensures Unquote(t) == Encode(REPLACEMENT) + Unquote(rest)
  {
    assert t[1..] == rest;
    assert Unquote(t) == UnquotePlain(t);
  }

  lemma UnquoteText(sp: Spelling, rest: bytes, t: bytes)
    requires Usable(sp) && Stands(sp, rest) && t == Text(sp) + rest
    ensures Unquote(t) == Encode(Meaning(sp)) + Unquote(rest)
  {
    match sp
    case Plain(cp) => UnquoteSequence(t, rest, cp);
    case Short(cp) => UnquoteShort(t, rest, cp);
    case Hex(cp, upper) => UnquoteUnit(t, rest, cp, upper);
    case Pair(cp, upper, upperLow) =>
      Regroup(Unit(High(cp), upper), Unit(Low(cp), upperLow), rest);
      UnquotePair(t, rest, cp, upper, upperLow);
    case Lone(half, upper) => UnquoteUnit(t, rest, half, upper);
    case Bad(b) => UnquoteBad(t, rest, b);
  }

  /** Whatever spelling is chosen for each code point, what is read is the text, in UTF-8. */
  lemma {:induction false} ContentIsRead(sps: seq<Spelling>)
    requires Spelled(sps)
    ensures Unquote(Content(sps)) == Meant(sps)
  {
    if sps != [] {
      ContentIsRead(sps[1..]);
      UnquoteText(sps[0], Content(sps[1..]), Content(sps));
    }
  }

  // ---- Where a string ends ----

  /** A byte that stands for itself and does not end the string. */
  predicate PlainByte(b: byte) {
    b >= 0x20 && b != QUOTE && b != BACKSLASH
  }

  lemma {:induction false} PlainBytesGoOn(t: bytes, i: nat, k: nat)
    requires i + k <= |t| && forall j :: i <= j < i + k ==> PlainByte(t[j])
    ensures StringEnd(t, i) == StringEnd(t, i + k)
    decreases k
  {
    if k > 0 {
      assert PlainByte(t[i]);
      assert StepLength(t, i) == 1;
      PlainBytesGoOn(t, i + 1, k - 1);
    }
  }

  lemma EncodedIsPlain(cp: int)
    requires ScalarValue(cp) && cp >= 0x20 && cp != 0x22 && cp != 0x5C
    ensures forall j :: 0 <= j < |Encode(cp)| ==> PlainByte(Encode(cp)[j])
  {
    CodePointOfEncoded(cp);
    SequenceFacts(Encode(cp));
  }

  lemma Window(t: bytes, i: nat, w: bytes)
    requires i + |w| <= |t| && t[i..i + |w|] == w
    ensures forall k :: 0 <= k < |w| ==> t[i + k] == w[k]
  {
    forall k | 0 <= k < |w| ensures t[i + k] == w[k] {
      assert t[i..i + |w|][k] == t[i + k];
    }
  }

  lemma PlainGoesOn(t: bytes, i: nat, w: bytes)
    requires i + |w| <= |t| && t[i..i + |w|] == w && forall j :: 0 <= j < |w| ==> PlainByte(w[j])
    ensures StringEnd(t, i) == StringEnd(t, i + |w|)
  {
    Window(t, i, w);
    forall j | i <= j < i + |w| ensures PlainByte(t[j]) {
      assert t[i + (j - i)] == w[j - i];
    }
    PlainBytesGoOn(t, i, |w|);
  }

  lemma ShortGoesOn(t: bytes, i: nat, cp: int)
    requires cp in SHORT && i + 2 <= |t| && t[i..i + 2] == [BACKSLASH, SHORT[cp] as int]
    ensures StringEnd(t, i) == StringEnd(t, i + 2)
  {
    Window(t, i, [BACKSLASH, SHORT[cp] as int]);
    assert t[i + 0] == BACKSLASH && t[i + 1] == SHORT[cp] as int;
    assert StepLength(t, i) == 2;
  }

  lemma UnitGoesOn(t: bytes, i: nat, n: int, upper: seq<bool>)
    requires 0 <= n < 0x10000 && |upper| == 4 && i + 6 <= |t| && t[i..i + 6] == Unit(n, upper)
    ensures StringEnd(t, i) == StringEnd(t, i + 6)
  {
    UnitAt(t, i, n, upper);
    assert StepLength(t, i) == 6;
  }

  lemma PairGoesOn(t: bytes, i: nat, h: int, l: int, upper: seq<bool>, upperLow: seq<bool>, high: bytes, low: bytes)
    requires 0 <= h < 0x10000 && 0 <= l < 0x10000 && |upper| == 4 && |upperLow| == 4
    requires high == Unit(h, upper) && low == Unit(l, upperLow) && i + 12 <= |t| && t[i..i + 12] == high + low
    ensures StringEnd(t, i) == StringEnd(t, i + 12)
  {
    SplitWindow(t, i, high, low);
    UnitGoesOn(t, i, h, upper);
    UnitGoesOn(t, i + 6, l, upperLow);
  }

  lemma TextGoesOn(t: bytes, i: nat, sp: Spelling, next: nat)
    requires Usable(sp) && next == i + |Text(sp)| <= |t| && t[i..next] == Text(sp)
    ensures StringEnd(t, i) == StringEnd(t, next)
  {
    match sp
    case Plain(cp) =>
      EncodedIsPlain(cp);
      PlainGoesOn(t, i, Encode(cp));
    case Short(cp) => ShortGoesOn(t, i, cp);
    case Hex(cp, upper) => UnitGoesOn(t, i, cp, upper);
    case Pair(cp, upper, upperLow) =>
      PairValue(cp);
      PairGoesOn(t, i, High(cp), Low(cp), upper, upperLow, Unit(High(cp), upper), Unit(Low(cp), upperLow));
    case Lone(half, upper) => UnitGoesOn(t, i, half, upper);
    case Bad(b) => PlainGoesOn(t, i, [b]);
  }

  lemma ContentSplits(t: bytes, i: nat, head: bytes, rest: bytes, next: nat, end: nat)
    requires i <= end <= |t| && t[i..end] == head + rest && next == i + |head|
    ensures next <= end && t[i..next] == head && t[next..end] == rest
  {
    assert end == i + |head| + |rest|;
    SplitWindow(t, i, head, rest);
  }

  /** Any content ends at the quote behind it and nowhere before. */
  lemma {:induction false} ContentEnds(sps: seq<Spelling>, t: bytes, i: nat, end: nat)
    requires AllUsable(sps) && i <= end < |t| && t[i..end] == Content(sps) && t[end] == QUOTE
    ensures StringEnd(t, i) == Some(end)
    decreases |sps|
  {
    if sps != [] {
      var head, others := Text(sps[0]), sps[1..];
      var next := i + |head|;
      ContentSplits(t, i, head, Content(others), next, end);
      TextGoesOn(t, i, sps[0], next);
      ContentEnds(others, t, next, end);
    }
  }

  // ---- Nothing else is a string ----

  predicate UpperDigit(b: byte) {
    0x41 <= b <= 0x46
  }

  /** The four digits of an escape, as a number in base 16. */
  lemma UnitOf(s: bytes, i: nat, upper: seq<bool>)
    requires HexEscapeAt(s, i)
    requires upper == [UpperDigit(s[i + 2]), UpperDigit(s[i + 3]), UpperDigit(s[i + 4]), UpperDigit(s[i + 5])]
    ensures s[i..i + 6] == Unit(HexEscapeValue(s, i), upper)
  {
    var n := HexEscapeValue(s, i);
    DigitOf(s[i + 2]);
    DigitOf(s[i + 3]);
    DigitOf(s[i + 4]);
    DigitOf(s[i + 5]);
    DigitsOfNumber(HexValue(s[i + 2]), HexValue(s[i + 3]), HexValue(s[i + 4]), HexValue(s[i + 5]), n);
  }

  lemma DigitOf(b: byte)
    requires HexDigit(b)
    ensures DigitByte(HexValue(b), UpperDigit(b)) == b
  {
  }

  lemma DigitsOfNumber(a: nat, b: nat, c: nat, d: nat, n: nat)
    requires a < 16 && b < 16 && c < 16 && d < 16 && n == 4096 * a + 256 * b + 16 * c + d
    ensures n / 4096 == a && n / 256 % 16 == b && n / 16 % 16 == c && n % 16 == d
  {
    assert n / 16 == 256 * a + 16 * b + c;
    assert n / 256 == 16 * a + b;
  }

  /** The spelling of an escape at i, when the string goes on behind it. */
  lemma EscapeIsSpelled(s: bytes, i: nat, end: nat) returns (sp: Spelling, next: nat)
    requires HexEscapeAt(s, i) && StringEnd(s, i) == Some(end)
    ensures i < next <= end && StringEnd(s, next) == Some(end)
    ensures Usable(sp) && Text(sp) == s[i..next] && Stands(sp, s[next..end])
  {
    var v := HexEscapeValue(s, i);
    var upper := [UpperDigit(s[i + 2]), UpperDigit(s[i + 3]), UpperDigit(s[i + 4]), UpperDigit(s[i + 5])];
    UnitOf(s, i, upper);
    assert StepLength(s, i) == 6;
    next := i + 6;
    if !Surrogate(v) {
      sp := Hex(v, upper);
    } else if v < 0xDC00 && LowHalfAt(s, next) {
      var low := HexEscapeValue(s, next);
      var upperLow := [UpperDigit(s[i + 8]), UpperDigit(s[i + 9]), UpperDigit(s[i + 10]), UpperDigit(s[i + 11])];
      UnitOf(s, next, upperLow);
      assert StepLength(s, next) == 6;
      var cp := 0x10000 + (v - 0xD800) * 1024 + low - 0xDC00;
      HalvesOf(v, low, cp);
      sp := Pair(cp, upper, upperLow);
      assert s[i..i + 12] == s[i..next] + s[next..i + 12];
      next := i + 12;
    } else {
      sp := Lone(v, upper);
      SameEscapeInside(s, next, end);
    }
  }

  lemma HalvesOf(high: int, low: int, cp: int)
    requires 0xD800 <= high < 0xDC00 <= low <= 0xDFFF && cp == 0x10000 + (high - 0xD800) * 1024 + low - 0xDC00
    ensures 0x10000 <= cp <= 0x10FFFF && High(cp) == high && Low(cp) == low
  {
  }

  lemma SameEscapeInside(s: bytes, i: nat, end: nat)
    requires i <= end <= |s|
    ensures HexEscapeAt(s[i..end], 0) ==> HexEscapeAt(s, i) && HexEscapeValue(s[i..end], 0) == HexEscapeValue(s, i)
  {
    var t := s[i..end];
    if HexEscapeAt(t, 0) {
      assert t[0] == s[i] && t[1] == s[i + 1] && t[2] == s[i + 2] && t[3] == s[i + 3] && t[4] == s[i + 4]
             && t[5] == s[i + 5];
    }
  }

  lemma ShortIsSpelled(s: bytes, i: nat, end: nat) returns (sp: Spelling, next: nat)
    requires StringEnd(s, i) == Some(end) && i < end && s[i] == BACKSLASH && !HexEscapeAt(s, i)
    ensures i < next <= end && StringEnd(s, next) == Some(end)
    ensures Usable(sp) && Text(sp) == s[i..next] && Stands(sp, s[next..end])
  {
    next := i + 2;
    assert StepLength(s, i) == 2;
    sp := Short(ShortEscape(s[i + 1]).value);
    assert s[i..next] == [s[i], s[i + 1]];
  }

  lemma BytesAreSpelled(s: bytes, i: nat, end: nat) returns (sp: Spelling, next: nat)
    requires StringEnd(s, i) == Some(end) && i < end && s[i] != BACKSLASH
    ensures i < next <= end && StringEnd(s, next) == Some(end)
    ensures Usable(sp) && Text(sp) == s[i..next] && Stands(sp, s[next..end])
  {
    var rest := s[i..end];
    var k := SequenceLength(rest);
    assert StepLength(s, i) == 1 && PlainByte(s[i]);
    SequenceFacts(rest);
    if k == 0 {
      next, sp := i + 1, Bad(s[i]);
      assert [s[i]] + s[next..end] == rest;
    } else {
      next := i + k;
      SequenceOfPrefix(rest, k);
      assert rest[..k] == s[i..next];
      EncodedCodePoint(s[i..next]);
      sp := Plain(CodePoint(s[i..next]));
      forall j | i <= j < next ensures PlainByte(s[j]) {
        assert s[j] == rest[j - i];
      }
      PlainBytesGoOn(s, i, k);
      if k >= 2 {
        LongSequenceIsHigh(s[i..next]);
      }
    }
  }

  lemma LongSequenceIsHigh(e: bytes)
    requires SequenceLength(e) == |e| >= 2
    ensures CodePoint(e) >= 0x80
  {
  }

  /** The spelling that a string goes on with. */
  lemma NextSpelling(s: bytes, i: nat, end: nat) returns (sp: Spelling, next: nat)
    requires StringEnd(s, i) == Some(end) && i < end
    ensures i < next <= end && StringEnd(s, next) == Some(end)
    ensures Usable(sp) && Text(sp) == s[i..next] && Stands(sp, s[next..end])
  {
    if s[i] != BACKSLASH {
      sp, next := BytesAreSpelled(s, i, end);
    } else if HexEscapeAt(s, i) {
      sp, next := EscapeIsSpelled(s, i, end);
    } else {
      sp, next := ShortIsSpelled(s, i, end);
    }
  }

  lemma SpelledFrom(sp: Spelling, rest: seq<Spelling>, sps: seq<Spelling>, head: bytes, tail: bytes, whole: bytes)
    requires sps == [sp] + rest && whole == head + tail
    requires Usable(sp) && Text(sp) == head && Stands(sp, tail)
    requires AllUsable(rest) && Spelled(rest) && Content(rest) == tail
    ensures Spelled(sps) && Content(sps) == whole
  {
    SpelledCons(sp, rest);
  }

  lemma Halves(s: bytes, i: nat, next: nat, end: nat)
    requires i <= next <= end <= |s|
    ensures s[i..end] == s[i..next] + s[next..end]
  {
  }

  /** Whatever the decoder takes for the content of a string is some list of spellings. */
  lemma {:induction false} ContentIsSpelled(s: bytes, i: nat, end: nat) returns (sps: seq<Spelling>)
    requires StringEnd(s, i) == Some(end)
    ensures Spelled(sps) && Content(sps) == s[i..end]
    decreases end - i
  {
    if i == end {
      sps := [];
    } else {
      var sp, next := NextSpelling(s, i, end);
      var rest := ContentIsSpelled(s, next, end);
      sps := [sp] + rest;
      Halves(s, i, next, end);
      SpelledFrom(sp, rest, sps, s[i..next], s[next..end], s[i..end]);
    }
  }

  // ---- Every text can be written ----

  /** The shortest spelling but for the slash, with lower-case digits where an escape is needed. */
  function SpellingOf(cp: int): (sp: Spelling)
    requires ScalarValue(cp)
    ensures Usable(sp) && !sp.Lone? && !sp.Bad? && Meaning(sp) == cp
  {
    if cp in SHORT && cp != 0x2F then Short(cp)
    else if cp < 0x20 then Hex(cp, [false, false, false, false])
    else Plain(cp)
  }

  /** How a text may begin to be written. */
  lemma WriteFirst(s: bytes) returns (sp: Spelling, head: bytes, tail: bytes)
    requires Valid(s) && s != []
    ensures s == head + tail && |tail| < |s| && Valid(tail)
    ensures Usable(sp) && !sp.Lone? && !sp.Bad? && Encode(Meaning(sp)) == head
  {
    var k := SequenceLength(s);
    head, tail := s[..k], s[k..];
    SequenceOfPrefix(s, k);
    EncodedCodePoint(head);
    sp := SpellingOf(CodePoint(head));
  }

  lemma WrittenFrom(sp: Spelling, rest: seq<Spelling>, sps: seq<Spelling>, head: bytes, tail: bytes, s: bytes)
    requires Usable(sp) && !sp.Lone? && !sp.Bad? && Encode(Meaning(sp)) == head && s == head + tail
    requires Spelled(rest) && Meant(rest) == tail && sps == [sp] + rest
    ensures Spelled(sps) && Meant(sps) == s
  {
    SpelledCons(sp, rest);
  }

  /** Every text in UTF-8 can be written as JSON, and is read as it was. */
  lemma {:induction false} EveryTextIsWritten(s: bytes) returns (sps: seq<Spelling>)
    requires Valid(s)
    ensures Spelled(sps) && Meant(sps) == s && Unquote(Content(sps)) == s
    decreases |s|
  {
    if s == [] {
      sps := [];
    } else {
      var sp, head, tail := WriteFirst(s);
      var rest := EveryTextIsWritten(tail);
      sps := [sp] + rest;
      WrittenFrom(sp, rest, sps, head, tail, s);
    }
    ContentIsRead(sps);
  }
}
