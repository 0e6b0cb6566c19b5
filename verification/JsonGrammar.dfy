/**
 The grammar of JSON (RFC 8259) as texts of values, and that the scanner of JsonText delimits exactly
 these: every text of the grammar, however it is spaced and spelled, and nothing else.
 */
module JsonGrammar {
  import opened JsonSpelling
  import opened JsonText
  import opened Options
  import opened Utf8

  // ---- Numbers (section 6 of RFC 8259) ----

  /** The digits before the point; the point and the digits behind it; the exponent with its letter. */
  datatype Number = Number(minus: bool, whole: bytes, fraction: bytes, exponent: bytes)

  predicate Digits(d: bytes) {
    d != [] && forall k :: 0 <= k < |d| ==> 0x30 <= d[k] <= 0x39
  }

  predicate FitsWhole(whole: bytes) {
    whole == [0x30] || (Digits(whole) && whole[0] != 0x30)
  }

  predicate FitsFraction(fraction: bytes) {
    fraction == [] || (fraction[0] == 0x2E && Digits(fraction[1..]))
  }

  predicate FitsExponent(exponent: bytes) {
    exponent == [] ||
    ((exponent[0] == 0x65 || exponent[0] == 0x45) &&
     (Digits(exponent[1..]) ||
      (|exponent| > 1 && (exponent[1] == 0x2B || exponent[1] == 0x2D) && Digits(exponent[2..]))))
  }

  predicate FitsNumber(n: Number) {
    FitsWhole(n.whole) && FitsFraction(n.fraction) && FitsExponent(n.exponent)
  }

  /** The number and what follows it. */
  function NumberThen(n: Number, tail: bytes): bytes {
    (if n.minus then [0x2D] else []) + (n.whole + (n.fraction + (n.exponent + tail)))
  }

  /** What follows does not go on with the number: only a lone zero can be followed by a digit. */
  predicate Longest(n: Number, tail: bytes) {
    tail == [] ||
    ((Digit(tail[0]) ==> n.whole == [0x30] && n.fraction == [] && n.exponent == []) &&
     (tail[0] == 0x2E ==> n.fraction != [] || n.exponent != []) &&
     (tail[0] == 0x65 || tail[0] == 0x45 ==> n.exponent != []))
  }

  /** Inside a run of digits. */
  predicate Loops(st: NumberState) {
    st.Whole? || st.Fraction? || st.ExponentDigits?
  }

  lemma {:induction false} RunOn(t: bytes, i: nat, run: bytes, tail: bytes, st: NumberState, next: nat)
    requires i <= |t| && t[i..] == run + tail && (run == [] || Digits(run)) && Loops(st) && next == i + |run|
    ensures next <= |t| && t[next..] == tail && NumberEnd(t, i, st) == NumberEnd(t, next, st)
    decreases |run|
  {
    if run == [] {
      assert run + tail == tail;
    } else {
      var rest := run[1..];
      assert run + tail == [run[0]] + (rest + tail);
      OneByte(t, i, run[0], rest + tail, st);
      RunOn(t, i + 1, rest, tail, st, next);
    }
  }

  /** One byte of a number. */
  lemma OneByte(t: bytes, i: nat, b: byte, tail: bytes, st: NumberState)
    requires i <= |t| && t[i..] == [b] + tail && NextNumberState(st, b).Some?
    ensures i < |t| && t[i + 1..] == tail && NumberEnd(t, i, st) == NumberEnd(t, i + 1, NextNumberState(st, b).value)
  {
    assert t[i] == t[i..][0];
    assert t[i + 1..] == t[i..][1..];
  }

  lemma DigitsOn(t: bytes, i: nat, run: bytes, tail: bytes, st: NumberState, to: NumberState, next: nat)
    requires i <= |t| && t[i..] == run + tail && Digits(run) && next == i + |run|
    requires NextNumberState(st, run[0]) == Some(to) && Loops(to)
    ensures next <= |t| && t[next..] == tail && NumberEnd(t, i, st) == NumberEnd(t, next, to)
  {
    var rest := run[1..];
    assert run + tail == [run[0]] + (rest + tail);
    OneByte(t, i, run[0], rest + tail, st);
    RunOn(t, i + 1, rest, tail, to, next);
  }

  lemma WholeOn(t: bytes, i: nat, whole: bytes, tail: bytes, next: nat) returns (st: NumberState)
    requires i <= |t| && t[i..] == whole + tail && FitsWhole(whole) && next == i + |whole|
    ensures next <= |t| && t[next..] == tail && st == if whole == [0x30] then Zero else Whole
    ensures NumberEnd(t, i, Minus) == NumberEnd(t, next, st)
  {
    if whole == [0x30] {
      st := Zero;
      OneByte(t, i, 0x30, tail, Minus);
    } else {
      st := Whole;
      DigitsOn(t, i, whole, tail, Minus, Whole, next);
    }
  }

  lemma FractionOn(t: bytes, i: nat, fraction: bytes, tail: bytes, from: NumberState, next: nat)
    returns (st: NumberState)
    requires i <= |t| && t[i..] == fraction + tail && FitsFraction(fraction) && next == i + |fraction|
    requires from.Zero? || from.Whole?
    ensures next <= |t| && t[next..] == tail && st == if fraction == [] then from else Fraction
    ensures NumberEnd(t, i, from) == NumberEnd(t, next, st)
  {
    if fraction == [] {
      st := from;
      assert fraction + tail == tail;
    } else {
      st := Fraction;
      var run := fraction[1..];
      assert fraction + tail == [0x2E] + (run + tail);
      OneByte(t, i, 0x2E, run + tail, from);
      DigitsOn(t, i + 1, run, tail, Point, Fraction, next);
    }
  }

  lemma ExponentOn(t: bytes, i: nat, exponent: bytes, tail: bytes, from: NumberState, next: nat)
    returns (st: NumberState)
    requires i <= |t| && t[i..] == exponent + tail && FitsExponent(exponent) && next == i + |exponent|
    requires from.Zero? || from.Whole? || from.Fraction?
    ensures next <= |t| && t[next..] == tail && st == if exponent == [] then from else ExponentDigits
    ensures NumberEnd(t, i, from) == NumberEnd(t, next, st)
  {
    if exponent == [] {
      st := from;
      assert exponent + tail == tail;
    } else {
      st := ExponentDigits;
      var run := exponent[1..];
      assert exponent + tail == [exponent[0]] + (run + tail);
      OneByte(t, i, exponent[0], run + tail, from);
      if Digits(run) {
        DigitsOn(t, i + 1, run, tail, Exponent, ExponentDigits, next);
      } else {
        var digits := exponent[2..];
        assert run + tail == [run[0]] + (digits + tail);
        OneByte(t, i + 1, run[0], digits + tail, Exponent);
        DigitsOn(t, i + 2, digits, tail, ExponentSign, ExponentDigits, next);
      }
    }
  }

  lemma NumberStops(t: bytes, i: nat, st: NumberState)
    requires i <= |t| && MayEnd(st) && (i < |t| ==> NextNumberState(st, t[i]).None?)
    ensures NumberEnd(t, i, st) == Some(i)
  {
  }

  /** The number without its sign. */
  lemma NumberComplete(t: bytes, i: nat, n: Number, tail: bytes, end: nat)
    requires i <= |t| && t[i..] == n.whole + (n.fraction + (n.exponent + tail)) && end + |tail| == |t|
    requires FitsNumber(n) && Longest(n, tail)
    ensures NumberEnd(t, i, Minus) == Some(end) && t[end..] == tail
  {
    var a := i + |n.whole|;
    var b := a + |n.fraction|;
    var c := b + |n.exponent|;
    var whole := WholeOn(t, i, n.whole, n.fraction + (n.exponent + tail), a);
    var fraction := FractionOn(t, a, n.fraction, n.exponent + tail, whole, b);
    var exponent := ExponentOn(t, b, n.exponent, tail, fraction, c);
    assert |t[c..]| == |tail| && c == end;
    if tail != [] {
      assert t[end] == t[end..][0];
    }
    NumberStops(t, end, exponent);
  }

  // ---- Values ----

  /**
   A value; a string as what stands between its quotes, arrays and objects with the white space that
   each of their parts stands in.
   */
  datatype Json =
    | Word(word: bytes)
    | Num(number: Number)
    | Str(raw: bytes)
    | Arr(gap: bytes, elements: ElementTexts)
    | Obj(gap: bytes, members: MemberTexts)

  datatype ElementTexts =
    | NoElement
    | ElementText(before: bytes, value: Json, after: bytes, others: ElementTexts)

  datatype MemberTexts =
    | NoMember
    | MemberText(before: bytes, name: bytes, colon: bytes, gap: bytes, value: Json, after: bytes,
                 others: MemberTexts)

  /** What may stand between quotes: a text in some spelling. */
  ghost predicate Writes(raw: bytes) {
    exists sps :: Spelled(sps) && Content(sps) == raw
  }

  lemma WrittenEnds(raw: bytes, t: bytes, i: nat, end: nat)
    requires Writes(raw) && i <= end < |t| && t[i..end] == raw && t[end] == QUOTE
    ensures StringEnd(t, i) == Some(end)
  {
    var sps :| Spelled(sps) && Content(sps) == raw;
    ContentEnds(sps, t, i, end);
  }

  predicate Gap(gap: bytes) {
    forall k :: 0 <= k < |gap| ==> gap[k] in {0x20, 0x09, 0x0A, 0x0D}
  }

  /** The gap of an array or object stands only where it is empty. */
  ghost predicate WellFormed(j: Json) {
    match j
    case Word(word) => word == TRUE || word == FALSE || word == NULL
    case Num(number) => FitsNumber(number)
    case Str(raw) => Writes(raw)
    case Arr(gap, elements) => Gap(gap) && (elements.NoElement? || gap == []) && FineElements(elements)
    case Obj(gap, members) => Gap(gap) && (members.NoMember? || gap == []) && FineMembers(members)
  }

  ghost predicate FineElements(es: ElementTexts) {
    es.NoElement? || (Gap(es.before) && WellFormed(es.value) && Gap(es.after) && FineElements(es.others))
  }

  ghost predicate FineMembers(ms: MemberTexts) {
    ms.NoMember? ||
    (Gap(ms.before) && Writes(ms.name) && Gap(ms.colon) && Gap(ms.gap) && WellFormed(ms.value) && Gap(ms.after)
     && FineMembers(ms.others))
  }

  /** A string in quotes, and what follows it. */
  function Quoted(raw: bytes, tail: bytes): bytes {
    [QUOTE] + (raw + ([QUOTE] + tail))
  }

  /** The text of a value, and what follows it. */
  function TextThen(j: Json, tail: bytes): bytes
    decreases j, 1
  {
    match j
    case Word(word) => word + tail
    case Num(number) => NumberThen(number, tail)
    case Str(raw) => Quoted(raw, tail)
    case Arr(gap, elements) =>
      [0x5B] + if elements.NoElement? then gap + ([0x5D] + tail) else ElementsThen(elements, tail)
    case Obj(gap, members) =>
      [0x7B] + if members.NoMember? then gap + ([0x7D] + tail) else MembersThen(members, tail)
  }

  function ElementsThen(es: ElementTexts, tail: bytes): bytes
    requires es.ElementText?
    decreases es, 1
  {
    es.before + TextThen(es.value, es.after + MoreElementsThen(es.others, tail))
  }

  /** Behind an element: the other ones, or the bracket. */
  function MoreElementsThen(es: ElementTexts, tail: bytes): bytes
    decreases es, 2
  {
    if es.NoElement? then [0x5D] + tail else [0x2C] + ElementsThen(es, tail)
  }

  function MembersThen(ms: MemberTexts, tail: bytes): bytes
    requires ms.MemberText?
    decreases ms, 1
  {
    ms.before + Quoted(ms.name, ms.colon + ([0x3A] + (ms.gap +
      TextThen(ms.value, ms.after + MoreMembersThen(ms.others, tail)))))
  }

  function MoreMembersThen(ms: MemberTexts, tail: bytes): bytes
    decreases ms, 2
  {
    if ms.NoMember? then [0x7D] + tail else [0x2C] + MembersThen(ms, tail)
  }

  /** Only a number needs something behind it, or the end of the text, that it does not go on with. */
  predicate Closes(j: Json, tail: bytes) {
    j.Num? ==> Longest(j.number, tail)
  }

  // ---- The scanner finds every text ----

  lemma {:induction false} SkipGap(t: bytes, i: nat, gap: bytes, text: bytes, at: nat)
    requires i <= |t| && t[i..] == gap + text && Gap(gap) && (text == [] || !Space(text[0])) && at == i + |gap|
    ensures at <= |t| && SkipSpace(t, i) == at && t[at..] == text
    decreases |gap|
  {
    if gap == [] {
      assert gap + text == text;
      if text != [] {
        assert t[i] == t[i..][0];
      }
    } else {
      var rest := gap[1..];
      assert gap[0] in {0x20, 0x09, 0x0A, 0x0D};
      assert t[i] == t[i..][0] == gap[0];
      assert t[i + 1..] == t[i..][1..] == rest + text;
      SkipGap(t, i + 1, rest, text, at);
    }
  }

  lemma BehindGap(t: bytes, i: nat, gap: bytes, b: byte, tail: bytes, next: nat)
    requires i <= |t| && t[i..] == gap + ([b] + tail) && Gap(gap) && !Space(b) && next == i + |gap| + 1
    ensures next <= |t| && Behind(t, i, b) == Some(next) && t[next..] == tail
    ensures forall c: byte :: c != b ==> Behind(t, i, c).None?
  {
    var text, at := [b] + tail, i + |gap|;
    SkipGap(t, i, gap, text, at);
    assert t[at] == t[at..][0] == b;
    assert t[next..] == t[at..][1..];
  }

  lemma QuotedParts(t: bytes, i: nat, raw: bytes, tail: bytes, close: nat)
    requires i <= |t| && t[i..] == Quoted(raw, tail) && close == i + |raw| + 1
    ensures i + 1 <= close < |t| && t[i] == QUOTE && t[close] == QUOTE
    ensures t[i + 1..close] == raw && t[close + 1..] == tail
  {
    var u := t[i..];
    assert t[i] == u[0] && t[close] == u[|raw| + 1];
    assert t[i + 1..close] == u[1..][..|raw|];
    assert t[close + 1..] == u[1..][|raw|..][1..];
  }

  /** A string behind white space. */
  lemma StringComplete(t: bytes, i: nat, gap: bytes, raw: bytes, tail: bytes, at: nat, open: nat, close: nat, next: nat)
    requires Writes(raw) && Gap(gap) && i <= |t| && t[i..] == gap + Quoted(raw, tail)
    requires at == i + |gap| && open == at + 1 && close == open + |raw| && next == close + 1
    ensures next <= |t| && t[next..] == tail && t[at] == QUOTE && SkipSpace(t, i) == at && t[open..close] == raw
    ensures Behind(t, i, QUOTE) == Some(open) && QuotedEnd(t, i) == Some(next)
  {
    SkipGap(t, i, gap, Quoted(raw, tail), at);
    QuotedParts(t, at, raw, tail, close);
    WrittenEnds(raw, t, open, close);
    StringUnfolds(t, i, at, open, close, next);
  }

  lemma StringUnfolds(t: bytes, i: nat, at: nat, open: nat, close: nat, next: nat)
    requires i <= at < open <= close < |t| && open == at + 1 && next == close + 1
    requires SkipSpace(t, i) == at && t[at] == QUOTE && StringEnd(t, open) == Some(close)
    ensures Behind(t, i, QUOTE) == Some(open) && QuotedEnd(t, i) == Some(next)
  {
  }

  lemma WordComplete(t: bytes, i: nat, word: bytes, tail: bytes, end: nat)
    requires i <= |t| && t[i..] == word + tail && (word == TRUE || word == FALSE || word == NULL) && end == i + |word|
    ensures i < end <= |t| && ValueAtEnd(t, i) == Some(end) && t[end..] == tail
  {
    assert t[i] == t[i..][0] == word[0];
    assert t[i..end] == t[i..][..|word|];
    assert t[end..] == t[i..][|word|..];
    assert WordEnd(t, i, word) == Some(end);
  }

  lemma NumberFirst(n: Number, tail: bytes)
    requires FitsNumber(n)
    ensures var text := NumberThen(n, tail);
            text != [] && (if n.minus then text[0] == 0x2D else 0x30 <= text[0] <= 0x39)
  {
  }

  lemma NumberValue(t: bytes, i: nat, n: Number, tail: bytes, end: nat)
    requires i <= |t| && t[i..] == NumberThen(n, tail) && FitsNumber(n) && Longest(n, tail) && end + |tail| == |t|
    ensures i < |t| && ValueAtEnd(t, i) == Some(end) && t[end..] == tail
  {
    var text := n.whole + (n.fraction + (n.exponent + tail));
    NumberFirst(n, tail);
    assert t[i] == t[i..][0];
    if n.minus {
      assert t[i + 1..] == t[i..][1..] == text;
      NumberComplete(t, i + 1, n, tail, end);
    } else {
      var none: bytes := [];
      assert none + text == text;
      NumberComplete(t, i, n, tail, end);
    }
    assert ValueAtEnd(t, i) == ScalarEnd(t, i);
  }

  /** What a value begins with. */
  lemma FirstByte(j: Json, tail: bytes)
    requires WellFormed(j)
    ensures var text := TextThen(j, tail);
            text != [] && !Space(text[0]) && text[0] !in {0x2C, 0x3A, 0x5D, 0x7D}
  {
    if j.Num? {
      NumberFirst(j.number, tail);
    }
  }

  /** Behind white space and one of these bytes nothing goes on with a value. */
  lemma GapCloses(j: Json, gap: bytes, b: byte, tail: bytes)
    requires Gap(gap) && b in {0x2C, 0x5D, 0x7D}
    ensures Closes(j, gap + ([b] + tail))
  {
    if gap != [] {
      assert gap[0] in {0x20, 0x09, 0x0A, 0x0D};
    }
  }

  lemma StrComplete(t: bytes, i: nat, raw: bytes, tail: bytes, open: nat, close: nat, end: nat)
    requires Writes(raw) && i <= |t| && t[i..] == Quoted(raw, tail)
    requires open == i + 1 && close == open + |raw| && end == close + 1
    ensures i < |t| && ValueAtEnd(t, i) == Some(end) && t[end..] == tail
  {
    QuotedParts(t, i, raw, tail, close);
    WrittenEnds(raw, t, open, close);
    AtOnce(t, i);
    StringUnfolds(t, i, i, open, close, end);
    QuotedValue(t, i, end);
  }

  lemma AtOnce(t: bytes, i: nat)
    requires i < |t| && !Space(t[i])
    ensures SkipSpace(t, i) == i
  {
  }

  lemma QuotedValue(t: bytes, i: nat, end: nat)
    requires i < |t| && t[i] == QUOTE && QuotedEnd(t, i) == Some(end)
    ensures ValueAtEnd(t, i) == Some(end)
  {
  }

  lemma ValueComplete(t: bytes, i: nat, j: Json, tail: bytes, end: nat)
    requires WellFormed(j) && i <= |t| && t[i..] == TextThen(j, tail) && Closes(j, tail) && end + |tail| == |t|
    ensures i < |t| && ValueAtEnd(t, i) == Some(end) && t[end..] == tail
    decreases j, 2
  {
    match j
    case Word(word) =>
      assert |t[i..]| == |word| + |tail|;
      WordComplete(t, i, word, tail, end);
    case Num(number) => NumberValue(t, i, number, tail, end);
    case Str(raw) =>
      assert |t[i..]| == 1 + |raw| + 1 + |tail|;
      StrComplete(t, i, raw, tail, i + 1, i + 1 + |raw|, end);
    case Arr(gap, elements) => ArrayComplete(t, i, j, tail, end);
    case Obj(gap, members) => ObjectComplete(t, i, j, tail, end);
  }

  lemma ArrayComplete(t: bytes, i: nat, j: Json, tail: bytes, end: nat)
    requires j.Arr? && WellFormed(j) && i <= |t| && t[i..] == TextThen(j, tail) && end + |tail| == |t|
    ensures i < |t| && t[i] == 0x5B && ArrayEnd(t, i + 1) == Some(end) && t[end..] == tail
    ensures ValueAtEnd(t, i) == Some(end)
    decreases j, 1
  {
    var open := i + 1;
    assert t[i] == t[i..][0];
    assert t[open..] == t[i..][1..];
    ArrayOpened(t, open, j, tail, end);
  }

  /** An array from behind its bracket on. */
  lemma ArrayOpened(t: bytes, open: nat, j: Json, tail: bytes, end: nat)
    requires j.Arr? && WellFormed(j) && open <= |t| && end + |tail| == |t|
    requires t[open..] == if j.elements.NoElement? then j.gap + ([0x5D] + tail) else ElementsThen(j.elements, tail)
    ensures ArrayEnd(t, open) == Some(end) && t[end..] == tail
    decreases j, 0
  {
    if j.elements.NoElement? {
      assert |t[open..]| == |j.gap| + 1 + |tail|;
      BehindGap(t, open, j.gap, 0x5D, tail, end);
    } else {
      NotClosed(t, open, j.elements, tail);
      ElementsComplete(t, open, j.elements, tail, end);
    }
  }

  /** A list with an element does not close at once. */
  lemma NotClosed(t: bytes, i: nat, es: ElementTexts, tail: bytes)
    requires es.ElementText? && FineElements(es) && i <= |t| && t[i..] == ElementsThen(es, tail)
    ensures Behind(t, i, 0x5D).None?
  {
    var text := TextThen(es.value, es.after + MoreElementsThen(es.others, tail));
    FirstByte(es.value, es.after + MoreElementsThen(es.others, tail));
    var at := i + |es.before|;
    SkipGap(t, i, es.before, text, at);
    assert t[at] == t[at..][0];
  }

  /** A value behind white space. */
  lemma GapValue(t: bytes, i: nat, gap: bytes, j: Json, tail: bytes, at: nat, end: nat)
    requires WellFormed(j) && Gap(gap) && i <= |t| && t[i..] == gap + TextThen(j, tail) && at == i + |gap|
    requires Closes(j, tail) && end + |tail| == |t|
    ensures at < |t| && SkipSpace(t, i) == at && t[at..] == TextThen(j, tail)
    ensures ValueEnd(t, i) == Some(end) && t[end..] == tail
    decreases j, 3
  {
    FirstByte(j, tail);
    SkipGap(t, i, gap, TextThen(j, tail), at);
    ValueComplete(t, at, j, tail, end);
  }

  /** Behind a value of a list: a comma and the other ones, or the bracket. */
  ghost predicate GoesOn(t: bytes, i: nat, more: bool, next: nat, close: byte) {
    if more then Behind(t, i, 0x2C) == Some(next) && Behind(t, i, close).None?
    else Behind(t, i, 0x2C).None? && Behind(t, i, close) == Some(next)
  }

  lemma ListGoesOn(t: bytes, i: nat, gap: bytes, es: ElementTexts, tail: bytes, next: nat, more: bool)
    requires FineElements(es) && Gap(gap) && i <= |t| && t[i..] == gap + MoreElementsThen(es, tail)
    requires next == i + |gap| + 1 && more == es.ElementText?
    ensures next <= |t| && GoesOn(t, i, more, next, 0x5D)
    ensures t[next..] == if more then ElementsThen(es, tail) else tail
  {
    if more {
      BehindGap(t, i, gap, 0x2C, ElementsThen(es, tail), next);
    } else {
      BehindGap(t, i, gap, 0x5D, tail, next);
    }
  }

  /** One element: its value, and how the list goes on behind it. */
  lemma ElementStep(t: bytes, i: nat, es: ElementTexts, others: ElementTexts, more: bool, rest: bytes, tail: bytes,
                    end: nat) returns (at: nat, v: nat, next: nat)
    requires es.ElementText? && FineElements(es) && others == es.others && more == others.ElementText?
    requires i <= |t| && t[i..] == es.before + TextThen(es.value, rest) && end + |tail| == |t|
    requires rest == es.after + MoreElementsThen(others, tail)
    ensures i <= at < v < next <= |t| && SkipSpace(t, i) == at && t[at..] == TextThen(es.value, rest)
    ensures ValueEnd(t, i) == Some(v) && ValueAtEnd(t, at) == Some(v) && t[v..] == rest
    ensures GoesOn(t, v, more, next, 0x5D) && t[next..] == if more then ElementsThen(others, tail) else tail
    ensures !more ==> next == end
    decreases es, 2
  {
    at := i + |es.before|;
    if more {
      GapCloses(es.value, es.after, 0x2C, ElementsThen(others, tail));
    } else {
      GapCloses(es.value, es.after, 0x5D, tail);
    }
    RestIsBehind(es.before, es.value, rest);
    assert |t[i..]| >= |rest|;
    v := |t| - |rest|;
    GapValue(t, i, es.before, es.value, rest, at, v);
    next := v + |es.after| + 1;
    ListGoesOn(t, v, es.after, others, tail, next, more);
  }

  /** What follows a value is part of the text. */
  lemma {:induction false} RestIsBehind(gap: bytes, j: Json, rest: bytes)
    requires WellFormed(j)
    ensures |gap + TextThen(j, rest)| > |rest|
  {
    TextIsLonger(j, rest);
  }

  lemma TextIsLonger(j: Json, rest: bytes)
    requires WellFormed(j)
    ensures |TextThen(j, rest)| > |rest|
    decreases j, 1
  {
    match j
    case Word(_) =>
    case Num(_) =>
    case Str(_) =>
    case Arr(_, elements) =>
      if elements.ElementText? {
        ElementsAreLonger(elements, rest);
      }
    case Obj(_, members) =>
      if members.MemberText? {
        MembersAreLonger(members, rest);
      }
  }

  lemma ElementsAreLonger(es: ElementTexts, rest: bytes)
    requires es.ElementText? && FineElements(es)
    ensures |ElementsThen(es, rest)| > |rest|
    decreases es, 1
  {
    TextIsLonger(es.value, es.after + MoreElementsThen(es.others, rest));
    if es.others.ElementText? {
      ElementsAreLonger(es.others, rest);
    }
  }

  lemma MembersAreLonger(ms: MemberTexts, rest: bytes)
    requires ms.MemberText? && FineMembers(ms)
    ensures |MembersThen(ms, rest)| > |rest|
    decreases ms, 1
  {
    TextIsLonger(ms.value, ms.after + MoreMembersThen(ms.others, rest));
    if ms.others.MemberText? {
      MembersAreLonger(ms.others, rest);
    }
  }

  lemma ElementsComplete(t: bytes, i: nat, es: ElementTexts, tail: bytes, end: nat)
    requires es.ElementText? && FineElements(es) && i <= |t| && t[i..] == ElementsThen(es, tail) && end + |tail| == |t|
    ensures ElementsEnd(t, i) == Some(end) && t[end..] == tail
    decreases es, 3
  {
    var others, more := es.others, es.others.ElementText?;
    var at, v, next := ElementStep(t, i, es, others, more, es.after + MoreElementsThen(others, tail), tail, end);
    if more {
      ElementsComplete(t, next, others, tail, end);
    }
    ElementsUnfold(t, i, v, next, more);
  }

  lemma ElementsUnfold(t: bytes, i: nat, v: nat, next: nat, more: bool)
    requires ValueEnd(t, i) == Some(v) && GoesOn(t, v, more, next, 0x5D)
    ensures ElementsEnd(t, i) == if more then ElementsEnd(t, next) else Some(next)
  {
  }

  /** An object with a member does not close at once. */
  lemma NotEmpty(t: bytes, i: nat, ms: MemberTexts, tail: bytes)
    requires ms.MemberText? && FineMembers(ms) && i <= |t| && t[i..] == MembersThen(ms, tail)
    ensures Behind(t, i, 0x7D).None?
  {
    var rest := ms.colon + ([0x3A] + (ms.gap + TextThen(ms.value, ms.after + MoreMembersThen(ms.others, tail))));
    var text := Quoted(ms.name, rest);
    var at := i + |ms.before|;
    SkipGap(t, i, ms.before, text, at);
    assert t[at] == t[at..][0] == QUOTE;
  }

  lemma ObjectComplete(t: bytes, i: nat, j: Json, tail: bytes, end: nat)
    requires j.Obj? && WellFormed(j) && i <= |t| && t[i..] == TextThen(j, tail) && end + |tail| == |t|
    ensures i < |t| && t[i] == 0x7B && ObjectEnd(t, i + 1) == Some(end) && t[end..] == tail
    ensures ValueAtEnd(t, i) == Some(end)
    decreases j, 1
  {
    var open := i + 1;
    assert t[i] == t[i..][0];
    assert t[open..] == t[i..][1..];
    ObjectOpened(t, open, j, tail, end);
  }

  /** An object from behind its brace on. */
  lemma ObjectOpened(t: bytes, open: nat, j: Json, tail: bytes, end: nat)
    requires j.Obj? && WellFormed(j) && open <= |t| && end + |tail| == |t|
    requires t[open..] == if j.members.NoMember? then j.gap + ([0x7D] + tail) else MembersThen(j.members, tail)
    ensures ObjectEnd(t, open) == Some(end) && t[end..] == tail
    decreases j, 0
  {
    if j.members.NoMember? {
      assert |t[open..]| == |j.gap| + 1 + |tail|;
      BehindGap(t, open, j.gap, 0x7D, tail, end);
    } else {
      NotEmpty(t, open, j.members, tail);
      MembersComplete(t, open, j.members, tail, end);
    }
  }

  lemma MoreGoesOn(t: bytes, i: nat, gap: bytes, ms: MemberTexts, tail: bytes, next: nat, more: bool)
    requires FineMembers(ms) && Gap(gap) && i <= |t| && t[i..] == gap + MoreMembersThen(ms, tail)
    requires next == i + |gap| + 1 && more == ms.MemberText?
    ensures next <= |t| && GoesOn(t, i, more, next, 0x7D)
    ensures t[next..] == if more then MembersThen(ms, tail) else tail
  {
    if more {
      BehindGap(t, i, gap, 0x2C, MembersThen(ms, tail), next);
    } else {
      BehindGap(t, i, gap, 0x7D, tail, next);
    }
  }

  /** The name of a member at i, in quotes, and behind its colon. */
  ghost predicate NameAt(t: bytes, i: nat, raw: bytes, open: nat, close: nat, at: nat) {
    && Behind(t, i, QUOTE) == Some(open) && QuotedEnd(t, i) == Some(close) && NameEnd(t, i) == Some(at)
    && open < close <= |t| && t[open..close - 1] == raw && Behind(t, i, 0x7D).None?
  }

  /** The name of a member and the colon behind it. */
  lemma NameComplete(t: bytes, i: nat, gap: bytes, raw: bytes, colon: bytes, text: bytes, after: bytes,
                     quote: nat, open: nat, end: nat, close: nat, at: nat)
    requires Writes(raw) && Gap(gap) && Gap(colon) && after == colon + ([0x3A] + text)
    requires i <= |t| && t[i..] == gap + Quoted(raw, after) && quote == i + |gap| && open == quote + 1
    requires end == open + |raw| && close == end + 1 && at == close + |colon| + 1
    ensures i < at <= |t| && NameAt(t, i, raw, open, close, at) && t[at..] == text
  {
    StringComplete(t, i, gap, raw, after, quote, open, end, close);
    BehindGap(t, close, colon, 0x3A, text, at);
    NameUnfolds(t, i, raw, open, end, close, at);
  }

  lemma NameUnfolds(t: bytes, i: nat, raw: bytes, open: nat, end: nat, close: nat, at: nat)
    requires Behind(t, i, QUOTE) == Some(open) && QuotedEnd(t, i) == Some(close) && Behind(t, close, 0x3A) == Some(at)
    requires open <= end < close <= |t| && close == end + 1 && t[open..end] == raw
    ensures NameAt(t, i, raw, open, close, at)
  {
  }

  /** The value of a member, and how the object goes on behind it. */
  lemma MemberValue(t: bytes, at: nat, ms: MemberTexts, after: bytes, others: MemberTexts, rest: bytes, tail: bytes,
                    more: bool, end: nat) returns (v: nat, next: nat)
    requires ms.MemberText? && FineMembers(ms) && after == ms.after && others == ms.others && more == others.MemberText?
    requires at <= |t| && t[at..] == ms.gap + TextThen(ms.value, rest) && rest == after + MoreMembersThen(others, tail)
    requires end + |tail| == |t|
    ensures at < v < next <= |t| && v + |rest| == |t| && ValueEnd(t, at) == Some(v) && GoesOn(t, v, more, next, 0x7D)
    ensures t[next..] == if more then MembersThen(others, tail) else tail
    ensures !more ==> next == end
    decreases ms, 1
  {
    if more {
      GapCloses(ms.value, after, 0x2C, MembersThen(others, tail));
    } else {
      GapCloses(ms.value, after, 0x7D, tail);
    }
    RestIsBehind(ms.gap, ms.value, rest);
    assert |t[at..]| >= |rest|;
    v := |t| - |rest|;
    GapValue(t, at, ms.gap, ms.value, rest, at + |ms.gap|, v);
    next := v + |after| + 1;
    MoreGoesOn(t, v, after, others, tail, next, more);
  }

  lemma MemberName(t: bytes, i: nat, ms: MemberTexts, raw: bytes, text: bytes, rest: bytes)
    returns (open: nat, close: nat, at: nat)
    requires ms.MemberText? && FineMembers(ms) && raw == ms.name && text == ms.colon + ([0x3A] + rest)
    requires i <= |t| && t[i..] == ms.before + Quoted(raw, text)
    ensures i < at <= |t| && NameAt(t, i, raw, open, close, at) && t[at..] == rest
  {
    var quote := i + |ms.before|;
    open := quote + 1;
    var end := open + |raw|;
    close := end + 1;
    at := close + |ms.colon| + 1;
    NameComplete(t, i, ms.before, raw, ms.colon, rest, text, quote, open, end, close, at);
  }

  /** One member: its name, its value, and how the object goes on behind it. */
  lemma MemberStep(t: bytes, i: nat, ms: MemberTexts, raw: bytes, others: MemberTexts, more: bool,
                   rest: bytes, tail: bytes, end: nat)
    returns (open: nat, close: nat, at: nat, v: nat, next: nat)
    requires ms.MemberText? && FineMembers(ms) && i <= |t| && t[i..] == MembersThen(ms, tail) && end + |tail| == |t|
    requires raw == ms.name && others == ms.others && more == others.MemberText?
    requires rest == ms.after + MoreMembersThen(others, tail)
    ensures i < at < v < next <= |t| && v + |rest| == |t| && NameAt(t, i, raw, open, close, at)
    ensures t[at..] == ms.gap + TextThen(ms.value, rest)
    ensures ValueEnd(t, at) == Some(v) && GoesOn(t, v, more, next, 0x7D)
    ensures t[next..] == if more then MembersThen(others, tail) else tail
    ensures !more ==> next == end
    decreases ms, 2
  {
    var text := ms.gap + TextThen(ms.value, rest);
    open, close, at := MemberName(t, i, ms, raw, ms.colon + ([0x3A] + text), text);
    v, next := MemberValue(t, at, ms, ms.after, others, rest, tail, more, end);
  }

  lemma MemberGoesOn(t: bytes, i: nat, ms: MemberTexts, others: MemberTexts, more: bool, tail: bytes, end: nat)
    returns (at: nat, v: nat, next: nat)
    requires ms.MemberText? && FineMembers(ms) && i <= |t| && t[i..] == MembersThen(ms, tail) && end + |tail| == |t|
    requires others == ms.others && more == others.MemberText?
    ensures i < at < v < next <= |t| && NameEnd(t, i) == Some(at)
    ensures ValueEnd(t, at) == Some(v) && GoesOn(t, v, more, next, 0x7D)
    ensures t[next..] == if more then MembersThen(others, tail) else tail
    ensures !more ==> next == end
    decreases ms, 3
  {
    var open, close;
    var rest := ms.after + MoreMembersThen(others, tail);
    open, close, at, v, next := MemberStep(t, i, ms, ms.name, others, more, rest, tail, end);
  }

  lemma MembersComplete(t: bytes, i: nat, ms: MemberTexts, tail: bytes, end: nat)
    requires ms.MemberText? && FineMembers(ms) && i <= |t| && t[i..] == MembersThen(ms, tail) && end + |tail| == |t|
    ensures MembersEnd(t, i) == Some(end) && t[end..] == tail
    decreases ms, 4
  {
    var others, more := ms.others, ms.others.MemberText?;
    var at, v, next := MemberGoesOn(t, i, ms, others, more, tail, end);
    if more {
      MembersComplete(t, next, others, tail, end);
    }
    MembersUnfold(t, i, at, v, next, more);
  }

  lemma MembersUnfold(t: bytes, i: nat, at: nat, v: nat, next: nat, more: bool)
    requires NameEnd(t, i) == Some(at) && ValueEnd(t, at) == Some(v) && GoesOn(t, v, more, next, 0x7D)
    ensures MembersEnd(t, i) == if more then MembersEnd(t, next) else Some(next)
  {
  }

  // ---- The scanner finds nothing else ----

  /** White space and then the byte, wherever it is found. */
  lemma {:induction false} BehindIs(t: bytes, i: nat, b: byte, next: nat) returns (gap: bytes)
    requires i <= |t| && Behind(t, i, b) == Some(next)
    ensures Gap(gap) && t[i..] == gap + ([b] + t[next..]) && next == i + |gap| + 1
  {
    gap := t[i..next - 1];
    assert t[i..] == gap + t[next - 1..];
    assert t[next - 1..] == [b] + t[next..];
    forall k | 0 <= k < |gap| ensures gap[k] in {0x20, 0x09, 0x0A, 0x0D} {
      assert Space(t[i + k]);
    }
  }

  lemma GapIs(t: bytes, i: nat, at: nat) returns (gap: bytes)
    requires i <= |t| && at == SkipSpace(t, i)
    ensures Gap(gap) && t[i..] == gap + t[at..]
  {
    gap := t[i..at];
    forall k | 0 <= k < |gap| ensures gap[k] in {0x20, 0x09, 0x0A, 0x0D} {
      assert Space(t[i + k]);
    }
  }

  lemma OneMore(t: bytes, i: nat, rest: bytes, tail: bytes)
    requires i < |t| && t[i + 1..] == rest + tail
    ensures t[i..] == [t[i]] + rest + tail
  {
    assert t[i..] == [t[i]] + t[i + 1..];
  }

  lemma DigitGoesOn(t: bytes, i: nat, st: NumberState, next: nat)
    requires i < |t| && Digit(t[i]) && Loops(st) && next == i + 1
    ensures NumberEnd(t, i, st) == NumberEnd(t, next, st)
  {
  }

  /** The digits that a run goes on with. */
  lemma {:induction false} RunIs(t: bytes, i: nat, st: NumberState) returns (run: bytes, next: nat)
    requires i <= |t| && Loops(st)
    ensures i <= next <= |t| && (run == [] || Digits(run)) && t[i..] == run + t[next..]
    ensures NumberEnd(t, i, st) == NumberEnd(t, next, st) && (next < |t| ==> !Digit(t[next]))
    decreases |t| - i
  {
    if i < |t| && Digit(t[i]) {
      var rest;
      var later := i + 1;
      rest, next := RunIs(t, later, st);
      DigitGoesOn(t, i, st, later);
      run := [t[i]] + rest;
      OneMore(t, i, rest, t[next..]);
    } else {
      run, next := [], i;
    }
  }

  lemma DigitsAre(t: bytes, i: nat, st: NumberState, to: NumberState) returns (run: bytes, next: nat)
    requires i < |t| && NextNumberState(st, t[i]) == Some(to) && Loops(to) && Digit(t[i])
    ensures i < next <= |t| && Digits(run) && t[i..] == run + t[next..] && run[0] == t[i]
    ensures NumberEnd(t, i, st) == NumberEnd(t, next, to) && (next < |t| ==> !Digit(t[next]))
  {
    var rest;
    rest, next := RunIs(t, i + 1, to);
    run := [t[i]] + rest;
    OneMore(t, i, rest, t[next..]);
  }

  lemma WholeIs(t: bytes, i: nat) returns (whole: bytes, next: nat, st: NumberState)
    requires i <= |t| && NumberEnd(t, i, Minus).Some?
    ensures i < next <= |t| && FitsWhole(whole) && t[i..] == whole + t[next..] && (st.Zero? <==> whole == [0x30])
    ensures NumberEnd(t, i, Minus) == NumberEnd(t, next, st)
    ensures st.Zero? || (st.Whole? && (next < |t| ==> !Digit(t[next])))
  {
    if t[i] == 0x30 {
      whole, next, st := [0x30], i + 1, Zero;
      assert t[i..] == [t[i]] + t[i + 1..];
    } else {
      st := Whole;
      whole, next := DigitsAre(t, i, Minus, Whole);
    }
  }

  /** Behind the digits of the whole part, a point with digits, or nothing of the kind. */
  lemma FractionIs(t: bytes, i: nat, from: NumberState, end: nat) returns (fraction: bytes, next: nat, st: NumberState)
    requires i <= |t| && NumberEnd(t, i, from) == Some(end)
    requires from.Zero? || (from.Whole? && (i < |t| ==> !Digit(t[i])))
    ensures i <= next <= |t| && FitsFraction(fraction) && t[i..] == fraction + t[next..]
    ensures NumberEnd(t, next, st) == Some(end)
    ensures st == if fraction == [] then from else Fraction
    ensures next < |t| ==> (t[next] != 0x2E || st.Fraction?) && (st.Zero? || !Digit(t[next]))
  {
    if i < |t| && t[i] == 0x2E {
      assert NumberEnd(t, i, from) == NumberEnd(t, i + 1, Point);
      var run;
      st := Fraction;
      run, next := DigitsAre(t, i + 1, Point, Fraction);
      fraction := [0x2E] + run;
      assert t[i..] == [t[i]] + t[i + 1..];
      assert fraction[1..] == run;
    } else {
      fraction, next, st := [], i, from;
    }
  }

  /** A sign and digits, or only digits. */
  lemma PowerIs(t: bytes, i: nat) returns (power: bytes, next: nat)
    requires i <= |t| && NumberEnd(t, i, Exponent).Some?
    ensures i < next <= |t| && t[i..] == power + t[next..]
    ensures NumberEnd(t, i, Exponent) == NumberEnd(t, next, ExponentDigits) && (next < |t| ==> !Digit(t[next]))
    ensures Digits(power) || (power != [] && (power[0] == 0x2B || power[0] == 0x2D) && Digits(power[1..]))
  {
    if t[i] == 0x2B || t[i] == 0x2D {
      var run;
      run, next := DigitsAre(t, i + 1, ExponentSign, ExponentDigits);
      power := [t[i]] + run;
      OneMore(t, i, run, t[next..]);
      assert power[1..] == run;
    } else {
      power, next := DigitsAre(t, i, Exponent, ExponentDigits);
    }
  }

  lemma LetterAndPower(letter: byte, power: bytes)
    requires letter == 0x65 || letter == 0x45
    requires Digits(power) || (power != [] && (power[0] == 0x2B || power[0] == 0x2D) && Digits(power[1..]))
    ensures FitsExponent([letter] + power)
  {
    var exponent := [letter] + power;
    assert exponent[1..] == power && (power != [] ==> exponent[2..] == power[1..]);
  }

  lemma ExponentIs(t: bytes, i: nat, from: NumberState, end: nat) returns (exponent: bytes)
    requires i <= |t| && NumberEnd(t, i, from) == Some(end)
    requires from.Zero? || from.Whole? || from.Fraction?
    requires i < |t| ==> (t[i] != 0x2E || from.Fraction?) && (from.Zero? || !Digit(t[i]))
    ensures i <= end <= |t| && FitsExponent(exponent) && t[i..] == exponent + t[end..]
    ensures end < |t| ==> NextNumberState(if exponent == [] then from else ExponentDigits, t[end]).None?
  {
    if i < |t| && (t[i] == 0x65 || t[i] == 0x45) {
      assert NumberEnd(t, i, from) == NumberEnd(t, i + 1, Exponent);
      var power, next := PowerIs(t, i + 1);
      exponent := [t[i]] + power;
      LetterAndPower(t[i], power);
      OneMore(t, i, power, t[next..]);
      assert next == end;
    } else {
      exponent := [];
      assert end == i;
    }
  }

  lemma NumberIs(t: bytes, i: nat, minus: bool, end: nat) returns (n: Number)
    requires i <= |t| && NumberEnd(t, i, Minus) == Some(end)
    ensures i < end <= |t| && FitsNumber(n) && n.minus == minus && Longest(n, t[end..])
    ensures t[i..] == n.whole + (n.fraction + (n.exponent + t[end..]))
  {
    var whole, a, st := WholeIs(t, i);
    var fraction, b, from := FractionIs(t, a, st, end);
    var exponent := ExponentIs(t, b, from, end);
    n := Number(minus, whole, fraction, exponent);
    LongestIs(n, t[end..], if exponent == [] then from else ExponentDigits);
  }

  /** The state in which the number was left tells what it could have gone on with. */
  lemma LongestIs(n: Number, tail: bytes, st: NumberState)
    requires st == if n.exponent != [] then ExponentDigits else if n.fraction != [] then Fraction
                   else if n.whole == [0x30] then Zero else Whole
    requires tail == [] || NextNumberState(st, tail[0]).None?
    ensures Longest(n, tail)
  {
  }

  lemma RawIsWritten(t: bytes, open: nat, close: nat, raw: bytes)
    requires StringEnd(t, open) == Some(close) && raw == t[open..close]
    ensures Writes(raw)
  {
    var sps := ContentIsSpelled(t, open, close);
  }

  lemma UpToQuote(t: bytes, open: nat, close: nat)
    requires open <= close < |t| && t[close] == QUOTE
    ensures t[open..] == t[open..close] + ([QUOTE] + t[close + 1..])
  {
    assert t[open..] == t[open..close] + t[close..];
  }

  /** The string that comes next is what stands between the quote in front and the one that ends it. */
  lemma QuotesOf(t: bytes, i: nat, end: nat, open: nat, close: nat)
    requires i <= |t| && QuotedEnd(t, i) == Some(end) && Behind(t, i, QUOTE) == Some(open) && close + 1 == end
    ensures open <= close < |t| && StringEnd(t, open) == Some(close) && t[close] == QUOTE
  {
  }

  lemma QuotedIs(t: bytes, i: nat, gap: bytes, raw: bytes, open: nat, close: nat, end: nat)
    requires i <= |t| && open <= close < |t| && end == close + 1 && t[close] == QUOTE && raw == t[open..close]
    requires t[i..] == gap + ([QUOTE] + t[open..])
    ensures t[i..] == gap + Quoted(raw, t[end..])
  {
    UpToQuote(t, open, close);
  }

  lemma StringIs(t: bytes, i: nat, end: nat) returns (gap: bytes, raw: bytes)
    requires i <= |t| && QuotedEnd(t, i) == Some(end)
    ensures Gap(gap) && Writes(raw) && t[i..] == gap + Quoted(raw, t[end..])
    ensures Behind(t, i, QUOTE).Some? && raw == t[Behind(t, i, QUOTE).value..end - 1]
    ensures Behind(t, i, QUOTE).value == i + |gap| + 1
  {
    var open, close := Behind(t, i, QUOTE).value, end - 1;
    QuotesOf(t, i, end, open, close);
    raw := t[open..close];
    RawIsWritten(t, open, close, raw);
    gap := BehindIs(t, i, QUOTE, open);
    QuotedIs(t, i, gap, raw, open, close, end);
  }

  lemma WordIs(t: bytes, i: nat, word: bytes, end: nat)
    requires word != [] && WordEnd(t, i, word) == Some(end)
    ensures t[i..] == word + t[end..]
  {
    assert t[i..end] == word;
  }

  lemma ScalarIs(t: bytes, i: nat, end: nat) returns (j: Json)
    requires ScalarEnd(t, i) == Some(end)
    ensures WellFormed(j) && t[i..] == TextThen(j, t[end..]) && Closes(j, t[end..]) && (j.Word? || j.Num?)
  {
    if t[i] == 0x74 {
      WordIs(t, i, TRUE, end);
      j := Word(TRUE);
    } else if t[i] == 0x66 {
      WordIs(t, i, FALSE, end);
      j := Word(FALSE);
    } else if t[i] == 0x6E {
      WordIs(t, i, NULL, end);
      j := Word(NULL);
    } else if t[i] == 0x2D {
      var n := NumberIs(t, i + 1, true, end);
      j := Num(n);
      assert t[i..] == [0x2D] + t[i + 1..];
    } else {
      var n := NumberIs(t, i, false, end);
      j := Num(n);
      var none: bytes := [];
      assert none + t[i..] == t[i..];
    }
  }

  lemma ValueAtIs(t: bytes, i: nat, end: nat) returns (j: Json)
    requires ValueAtEnd(t, i) == Some(end)
    ensures WellFormed(j) && t[i..] == TextThen(j, t[end..]) && Closes(j, t[end..])
    decreases |t| - i, 1
  {
    assert t[i..] == [t[i]] + t[i + 1..];
    if t[i] == QUOTE {
      var gap, raw := StringIs(t, i, end);
      j := Str(raw);
      AtOnce(t, i);
      assert gap + Quoted(raw, t[end..]) == Quoted(raw, t[end..]);
    } else if t[i] == 0x7B {
      var gap, members := ObjectIs(t, i + 1, end);
      j := Obj(gap, members);
    } else if t[i] == 0x5B {
      var gap, elements := ArrayIs(t, i + 1, end);
      j := Arr(gap, elements);
    } else {
      j := ScalarIs(t, i, end);
    }
  }

  lemma ArrayIs(t: bytes, i: nat, end: nat) returns (gap: bytes, es: ElementTexts)
    requires i <= |t| && ArrayEnd(t, i) == Some(end)
    ensures Gap(gap) && (es.NoElement? || gap == []) && FineElements(es)
    ensures t[i..] == if es.NoElement? then gap + ([0x5D] + t[end..]) else ElementsThen(es, t[end..])
    decreases |t| - i, 3
  {
    if Behind(t, i, 0x5D).Some? {
      gap := BehindIs(t, i, 0x5D, end);
      es := NoElement;
    } else {
      gap := [];
      es := ElementsAre(t, i, end);
    }
  }

  lemma ElementsAre(t: bytes, i: nat, end: nat) returns (es: ElementTexts)
    requires i <= |t| && ElementsEnd(t, i) == Some(end)
    ensures es.ElementText? && FineElements(es) && t[i..] == ElementsThen(es, t[end..])
    decreases |t| - i, 2
  {
    var at, v := SkipSpace(t, i), ValueEnd(t, i).value;
    var before := GapIs(t, i, at);
    var value := ValueAtIs(t, at, v);
    if Behind(t, v, 0x2C).Some? {
      var next := Behind(t, v, 0x2C).value;
      var after := BehindIs(t, v, 0x2C, next);
      var others := ElementsAre(t, next, end);
      es := ElementText(before, value, after, others);
    } else {
      var after := BehindIs(t, v, 0x5D, end);
      es := ElementText(before, value, after, NoElement);
    }
  }

  lemma ObjectIs(t: bytes, i: nat, end: nat) returns (gap: bytes, ms: MemberTexts)
    requires i <= |t| && ObjectEnd(t, i) == Some(end)
    ensures Gap(gap) && (ms.NoMember? || gap == []) && FineMembers(ms)
    ensures t[i..] == if ms.NoMember? then gap + ([0x7D] + t[end..]) else MembersThen(ms, t[end..])
    decreases |t| - i, 3
  {
    if Behind(t, i, 0x7D).Some? {
      gap := BehindIs(t, i, 0x7D, end);
      ms := NoMember;
    } else {
      gap := [];
      ms := MembersAre(t, i, end);
    }
  }

  lemma MembersAre(t: bytes, i: nat, end: nat) returns (ms: MemberTexts)
    requires i <= |t| && MembersEnd(t, i) == Some(end)
    ensures ms.MemberText? && FineMembers(ms) && t[i..] == MembersThen(ms, t[end..])
    decreases |t| - i, 2
  {
    var close, at := QuotedEnd(t, i).value, NameEnd(t, i).value;
    var before, name := StringIs(t, i, close);
    var colon := BehindIs(t, close, 0x3A, at);
    var from, v := SkipSpace(t, at), ValueEnd(t, at).value;
    var gap := GapIs(t, at, from);
    var value := ValueAtIs(t, from, v);
    if Behind(t, v, 0x2C).Some? {
      var next := Behind(t, v, 0x2C).value;
      var after := BehindIs(t, v, 0x2C, next);
      var others := MembersAre(t, next, end);
      ms := MemberText(before, name, colon, gap, value, after, others);
    } else {
      var after := BehindIs(t, v, 0x7D, end);
      ms := MemberText(before, name, colon, gap, value, after, NoMember);
    }
  }

  /** Where a value ends: exactly behind a text of the grammar, with white space in front of it. */
  ghost predicate EndsValue(t: bytes, i: nat, end: nat) {
    i <= end <= |t| && exists gap, j :: IsValue(t, i, gap, j, end)
  }

  ghost predicate IsValue(t: bytes, i: nat, gap: bytes, j: Json, end: nat)
    requires i <= |t| && end <= |t|
  {
    Gap(gap) && WellFormed(j) && t[i..] == gap + TextThen(j, t[end..]) && Closes(j, t[end..])
  }

  /** The value that ends there, as a text. */
  lemma ValueIs(t: bytes, i: nat, end: nat) returns (gap: bytes, j: Json)
    requires i <= |t| && ValueEnd(t, i) == Some(end)
    ensures IsValue(t, i, gap, j, end)
  {
    gap := GapIs(t, i, SkipSpace(t, i));
    j := ValueAtIs(t, SkipSpace(t, i), end);
  }

  lemma ScannerIsExact(t: bytes, i: nat, end: nat)
    requires i <= |t|
    ensures ValueEnd(t, i) == Some(end) <==> EndsValue(t, i, end)
  {
    if ValueEnd(t, i) == Some(end) {
      var gap, j := ValueIs(t, i, end);
    }
    if EndsValue(t, i, end) {
      var gap, j :| IsValue(t, i, gap, j, end);
      RestIsBehind(gap, j, t[end..]);
      GapValue(t, i, gap, j, t[end..], i + |gap|, end);
    }
  }
}
