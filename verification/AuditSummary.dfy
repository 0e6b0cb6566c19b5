/**
 backend/middleware_audit.go: the summary of a JSON array of strings read from a request body that
 may be cut at the read limit.
 */
module AuditSummary {
  import opened JsonText
  import opened Options
  import opened Utf8

  const PREVIEW_ITEMS: nat := 5
  const MAX_VALUE_BYTES: nat := 256

  /** Inside the array: right behind the bracket, behind a comma, behind an element. */
  datatype Place = AtStart | AtValue | AtComma

  /**
   A token with the position behind it. Foreign is an element that is not a string; Fail covers the
   end of the input and anything the decoder rejects.
   */
  datatype Token = Close(next: nat) | Text(value: bytes, next: nat) | Foreign | Fail

  /** The string whose opening quote is at i. */
  function StringAt(s: bytes, i: nat): (t: Token)
    ensures t.Fail? || (t.Text? && i < t.next <= |s|)
  {
    var end := StringEnd(s, i + 1);
    if end.None? then Fail else Text(Unquote(s[i + 1..end.value]), end.value + 1)
  }

  /** The element or the end of the array found at i, white space skipped already. */
  function ElementAt(s: bytes, i: nat, place: Place): (t: Token)
    ensures t.Text? || t.Close? ==> i < t.next <= |s|
  {
    if i >= |s| then Fail
    else if s[i] == 0x5D then if place.AtValue? then Fail else Close(i + 1)
    else if place.AtComma? || s[i] == 0x2C || s[i] == 0x3A || s[i] == 0x7D then Fail
    else if s[i] == QUOTE then StringAt(s, i)
    else if s[i] == 0x5B || s[i] == 0x7B || ScalarEnd(s, i).Some? then Foreign
    else Fail
  }

  predicate CommaAt(s: bytes, j: nat, place: Place) {
    place.AtComma? && j < |s| && s[j] == 0x2C
  }

  function NextToken(s: bytes, i: nat, place: Place): (t: Token)
    ensures t.Text? || t.Close? ==> i < t.next <= |s|
  {
    var j := SkipSpace(s, i);
    if CommaAt(s, j, place) then ElementAt(s, SkipSpace(s, j + 1), AtValue)
    else ElementAt(s, j, place)
  }

  /** Reading the elements until the array closes, the text fails, or an element is not a string. */
  datatype Reading = Closed(items: seq<bytes>) | Broken(items: seq<bytes>) | NotStrings

  function Prepend(v: bytes, r: Reading): Reading {
    match r
    case Closed(items) => Closed([v] + items)
    case Broken(items) => Broken([v] + items)
    case NotStrings => NotStrings
  }

  function Read(s: bytes, i: nat, place: Place): Reading
    decreases |s| - i
  {
    match NextToken(s, i, place)
    case Close(_) => Closed([])
    case Text(v, next) => Prepend(v, Read(s, next, AtComma))
    case Foreign => NotStrings
    case Fail => Broken([])
  }

  /** The strings at the front of the array, up to its end or whatever else comes first. */
  function Strings(s: bytes, i: nat, place: Place): seq<bytes>
    decreases |s| - i
  {
    match NextToken(s, i, place)
    case Text(v, next) => [v] + Strings(s, next, AtComma)
    case _ => []
  }

  /** What was read, when something is told about it, is these strings. */
  lemma {:induction false} ReadGivesStrings(s: bytes, i: nat, place: Place)
    requires i <= |s|
    ensures !Read(s, i, place).NotStrings? ==> Read(s, i, place).items == Strings(s, i, place)
    decreases |s| - i
  {
    var t := NextToken(s, i, place);
    if t.Text? {
      ReadGivesStrings(s, t.next, AtComma);
    }
  }

  predicate Opens(s: bytes) {
    SkipSpace(s, 0) < |s| && s[SkipSpace(s, 0)] == 0x5B
  }

  /** The array in the body, provided it opens one. */
  function ReadArray(s: bytes): Reading {
    if Opens(s) then Read(s, SkipSpace(s, 0) + 1, AtStart) else NotStrings
  }

  function ArrayStrings(s: bytes): seq<bytes> {
    if Opens(s) then Strings(s, SkipSpace(s, 0) + 1, AtStart) else []
  }

  // ---- The summary ----

  datatype Summary = NoSummary | Exactly(count: nat, items: seq<bytes>) | AtLeast(count: nat, items: seq<bytes>)

  function Preview(items: seq<bytes>): (p: seq<bytes>)
    ensures |p| == if |items| < PREVIEW_ITEMS then |items| else PREVIEW_ITEMS
    ensures forall k :: 0 <= k < |p| ==> p[k] == Truncated(items[k], MAX_VALUE_BYTES)
  {
    seq(if |items| < PREVIEW_ITEMS then |items| else PREVIEW_ITEMS,
        k requires 0 <= k < |items| => Truncated(items[k], MAX_VALUE_BYTES))
  }

  function SummaryOf(r: Reading, complete: bool): Summary {
    match r
    case Closed(items) => Exactly(|items|, Preview(items))
    case Broken(items) => if complete || items == [] then NoSummary else AtLeast(|items|, Preview(items))
    case NotStrings => NoSummary
  }

  function Extend(items: seq<bytes>, r: Reading): Reading {
    match r
    case Closed(more) => Closed(items + more)
    case Broken(more) => Broken(items + more)
    case NotStrings => NotStrings
  }

  /** stringArraySummary behind the opening bracket: the token loop from position start on. */
  method SummarizeElements(body: bytes, start: nat, complete: bool) returns (r: Summary)
    requires start <= |body|
    ensures r == SummaryOf(Read(body, start, AtStart), complete)
  {
    var i, place, n, items := start, AtStart, 0, [];
    ghost var seen: seq<bytes> := [];
    while true
      invariant i <= |body|
      invariant n == |seen| && items == Preview(seen)
      invariant Read(body, start, AtStart) == Extend(seen, Read(body, i, place))
      decreases |body| - i
    {
      var t := NextToken(body, i, place);
      if t.Fail? {
        return if complete || n == 0 then NoSummary else AtLeast(n, items);
      }
      if t.Close? {
        return Exactly(n, items);
      }
      if t.Foreign? {
        return NoSummary;
      }
      ExtendStep(seen, t.value, Read(body, t.next, AtComma));
      PreviewStep(seen, t.value);
      seen := seen + [t.value];
      n := n + 1;
      if |items| < PREVIEW_ITEMS {
        var cut := TruncateUtf8(t.value, MAX_VALUE_BYTES);
        items := items + [cut];
      }
      i, place := t.next, AtComma;
    }
  }

  /** stringArraySummary for a body that is the array itself, as for the block hashes. */
  method StringArraySummary(body: bytes, complete: bool) returns (r: Summary)
    ensures r == SummaryOf(ReadArray(body), complete)
  {
    var i := SkipSpace(body, 0);
    if i == |body| || body[i] != 0x5B {
      return NoSummary;
    }
    r := SummarizeElements(body, i + 1, complete);
  }

  lemma PreviewStep(seen: seq<bytes>, v: bytes)
    ensures Preview(seen + [v])
         == if |Preview(seen)| < PREVIEW_ITEMS then Preview(seen) + [Truncated(v, MAX_VALUE_BYTES)] else Preview(seen)
  {
  }

  lemma ExtendStep(seen: seq<bytes>, v: bytes, r: Reading)
    ensures Extend(seen, Prepend(v, r)) == Extend(seen + [v], r)
  {
    if !r.NotStrings? {
      assert seen + ([v] + r.items) == seen + [v] + r.items;
    }
  }

  // ---- A cut body ----

  /**
   A token of the whole text that lies in the first c bytes is read there, one that goes on behind
   them fails, and a string or the end of the array is never read where the whole text has none.
   */
  ghost predicate SameToken(full: Token, cut: Token, c: nat) {
    (full.Text? || full.Close? ==> cut == if full.next <= c then full else Fail) &&
    (cut.Text? || cut.Close? ==> cut == full)
  }

  /** p stands for the cut text. */
  lemma StringTokens(s: bytes, p: bytes, c: nat, i: nat)
    requires i < c == |p| <= |s|
    requires StringEnd(p, i + 1)
          == if StringEnd(s, i + 1).Some? && StringEnd(s, i + 1).value < c then StringEnd(s, i + 1) else None
    requires StringEnd(p, i + 1).Some? ==> p[i + 1..StringEnd(p, i + 1).value] == s[i + 1..StringEnd(p, i + 1).value]
    ensures SameToken(StringAt(s, i), StringAt(p, i), c)
  {
    var end := StringEnd(s, i + 1);
    if end.Some? {
      if end.value < c {
      }
    }
  }

  lemma StringCut(s: bytes, c: nat, i: nat)
    requires i < c <= |s|
    ensures SameToken(StringAt(s, i), StringAt(s[..c], i), c)
  {
    StringEndCut(s, c, i + 1);
    StringTokens(s, s[..c], c, i);
  }

  lemma ElementCut(s: bytes, c: nat, i: nat, place: Place)
    requires i <= c <= |s|
    ensures SameToken(ElementAt(s, i, place), ElementAt(s[..c], i, place), c)
  {
    if i < c && s[i] == QUOTE {
      StringCut(s, c, i);
    }
  }

  lemma NothingLeft(s: bytes, i: nat, place: Place)
    requires i <= |s| && SkipSpace(s, i) == |s|
    ensures NextToken(s, i, place) == Fail
  {
  }

  lemma TokenBehindComma(s: bytes, i: nat, j: nat)
    requires i <= j < |s| && SkipSpace(s, i) == j && s[j] == 0x2C
    ensures NextToken(s, i, AtComma) == ElementAt(s, SkipSpace(s, j + 1), AtValue)
  {
  }

  lemma TokenAtOnce(s: bytes, i: nat, j: nat, place: Place)
    requires i <= j <= |s| && SkipSpace(s, i) == j && !CommaAt(s, j, place)
    ensures NextToken(s, i, place) == ElementAt(s, j, place)
  {
  }

  lemma TokenCutComma(s: bytes, p: bytes, c: nat, i: nat, j: nat, k: nat)
    requires i <= j < k < c <= |s| && p == s[..c]
    requires j == SkipSpace(s, i) == SkipSpace(p, i) && s[j] == 0x2C && k == SkipSpace(s, j + 1) == SkipSpace(p, j + 1)
    ensures SameToken(NextToken(s, i, AtComma), NextToken(p, i, AtComma), c)
  {
    TokenBehindComma(s, i, j);
    TokenBehindComma(p, i, j);
    ElementCut(s, c, k, AtValue);
  }

  lemma TokenCutBehindComma(s: bytes, p: bytes, c: nat, i: nat, j: nat)
    requires i <= j < c <= |s| && p == s[..c]
    requires j == SkipSpace(s, i) == SkipSpace(p, i) && s[j] == 0x2C && SkipSpace(s, j + 1) >= c == SkipSpace(p, j + 1)
    ensures SameToken(NextToken(s, i, AtComma), NextToken(p, i, AtComma), c)
  {
    TokenBehindComma(s, i, j);
    TokenBehindComma(p, i, j);
    assert ElementAt(p, c, AtValue) == Fail;
  }

  lemma TokenCut(s: bytes, c: nat, i: nat, place: Place)
    requires i <= c <= |s|
    ensures SameToken(NextToken(s, i, place), NextToken(s[..c], i, place), c)
  {
    var j := SkipSpace(s, i);
    SkipSpaceCut(s, c, i);
    if j >= c {
      NothingLeft(s[..c], i, place);
    } else if CommaAt(s, j, place) {
      SkipSpaceCut(s, c, j + 1);
      if SkipSpace(s, j + 1) < c {
        TokenCutComma(s, s[..c], c, i, j, SkipSpace(s, j + 1));
      } else {
        TokenCutBehindComma(s, s[..c], c, i, j);
      }
    } else {
      TokenAtOnce(s, i, j, place);
      TokenAtOnce(s[..c], i, j, place);
      ElementCut(s, c, j, place);
    }
  }

  /** For every text and every cut: the strings read from the cut text are the first ones of the whole. */
  lemma {:induction false} StringsCut(s: bytes, c: nat, i: nat, place: Place)
    requires i <= c <= |s|
    ensures Strings(s[..c], i, place) <= Strings(s, i, place)
    decreases |s| - i
  {
    TokenCut(s, c, i, place);
    var t := NextToken(s[..c], i, place);
    if t.Text? {
      StringsCut(s, c, t.next, AtComma);
    }
  }

  /**
   For every text and every cut: a closed array in the cut text is the closed array of the whole,
   and cutting a closed array of strings never makes it look like one of other elements.
   */
  lemma {:induction false} ReadCut(s: bytes, c: nat, i: nat, place: Place)
    requires i <= c <= |s|
    ensures Read(s[..c], i, place).Closed? ==> Read(s, i, place) == Read(s[..c], i, place)
    ensures Read(s, i, place).Closed? ==> !Read(s[..c], i, place).NotStrings?
    decreases |s| - i
  {
    TokenCut(s, c, i, place);
    var full, cut := NextToken(s, i, place), NextToken(s[..c], i, place);
    if cut.Text? {
      ReadCut(s, c, cut.next, AtComma);
    }
  }

  /**
   A summary of a cut text never claims more than the whole text holds: it counts only strings at
   the front of the array, shows the first ones, and names a final number only for a closed array.
   */
  ghost predicate SoundSummary(r: Summary, whole: Reading, strings: seq<bytes>) {
    match r
    case NoSummary => true
    case Exactly(n, shown) => whole == Closed(strings) && n == |strings| && shown == Preview(strings)
    case AtLeast(n, shown) => 0 < n <= |strings| && shown == Preview(strings[..n])
  }

  /** What reading a cut text may give. */
  ghost predicate CutReading(cut: Reading, whole: Reading, strings: seq<bytes>) {
    (cut.Closed? ==> whole == cut && cut.items == strings) && (cut.Broken? ==> cut.items <= strings)
  }

  lemma CutReadingIsSound(cut: Reading, whole: Reading, strings: seq<bytes>)
    requires CutReading(cut, whole, strings)
    ensures SoundSummary(SummaryOf(cut, false), whole, strings)
  {
    if cut.Broken? {
      assert cut.items == strings[..|cut.items|];
    }
  }

  lemma ElementsCutReading(s: bytes, c: nat, i: nat)
    requires i <= c <= |s|
    ensures CutReading(Read(s[..c], i, AtStart), Read(s, i, AtStart), Strings(s, i, AtStart))
  {
    ReadCut(s, c, i, AtStart);
    StringsCut(s, c, i, AtStart);
    ReadGivesStrings(s, i, AtStart);
    ReadGivesStrings(s[..c], i, AtStart);
  }

  lemma OpeningCut(body: bytes, c: nat, j: nat)
    requires c <= |body| && j == SkipSpace(body, 0)
    ensures ReadArray(body[..c]) == if j < c && Opens(body) then Read(body[..c], j + 1, AtStart) else NotStrings
  {
    SkipSpaceCut(body, c, 0);
  }

  /** For every body and every cut point, whatever the body holds, the summary is sound. */
  lemma CutSummaryIsSound(body: bytes, c: nat)
    requires c <= |body|
    ensures SoundSummary(SummaryOf(ReadArray(body[..c]), false), ReadArray(body), ArrayStrings(body))
  {
    var j := SkipSpace(body, 0);
    OpeningCut(body, c, j);
    if j < c && Opens(body) {
      ElementsCutReading(body, c, j + 1);
    }
    CutReadingIsSound(ReadArray(body[..c]), ReadArray(body), ArrayStrings(body));
  }

  /** The summary of a body that was read in full, of which there is one only for a closed array. */
  lemma WholeSummary(body: bytes)
    ensures SummaryOf(ReadArray(body), true)
         == if ReadArray(body).Closed? then Exactly(|ArrayStrings(body)|, Preview(ArrayStrings(body))) else NoSummary
  {
    if Opens(body) {
      ReadGivesStrings(body, SkipSpace(body, 0) + 1, AtStart);
    }
  }

  ghost predicate AllValid(items: seq<bytes>) {
    forall k :: 0 <= k < |items| ==> Valid(items[k])
  }

  lemma TokenIsValid(s: bytes, i: nat, place: Place)
    requires i <= |s| && NextToken(s, i, place).Text?
    ensures Valid(NextToken(s, i, place).value)
  {
    var j := SkipSpace(s, i);
    var k := if CommaAt(s, j, place) then SkipSpace(s, j + 1) else j;
    UnquotedIsValid(s[k + 1..StringEnd(s, k + 1).value]);
  }

  lemma {:induction false} StringsAreValid(s: bytes, i: nat, place: Place)
    requires i <= |s|
    ensures AllValid(Strings(s, i, place))
    decreases |s| - i
  {
    var t := NextToken(s, i, place);
    if t.Text? {
      TokenIsValid(s, i, place);
      StringsAreValid(s, t.next, AtComma);
    }
  }

  /** Every value shown is the longest well-formed prefix, of at most 256 bytes, of the decoded string. */
  ghost predicate ShowsLongestPrefixes(r: Summary, strings: seq<bytes>) {
    r.NoSummary? ||
    (|r.items| <= |strings| &&
     forall k :: 0 <= k < |r.items| ==> LongestValidPrefix(r.items[k], strings[k], MAX_VALUE_BYTES))
  }

  /** So it is in every sound summary, of a cut text as well as of a whole one. */
  lemma SoundSummaryShowsPrefixes(r: Summary, whole: Reading, strings: seq<bytes>)
    requires SoundSummary(r, whole, strings) && AllValid(strings)
    ensures ShowsLongestPrefixes(r, strings)
  {
    if !r.NoSummary? {
      forall k | 0 <= k < |r.items| ensures LongestValidPrefix(r.items[k], strings[k], MAX_VALUE_BYTES) {
        TruncatedIsLongest(strings[k], MAX_VALUE_BYTES);
      }
    }
  }

  lemma ShownValuesAreLongestPrefixes(body: bytes, c: nat)
    requires c <= |body|
    ensures ShowsLongestPrefixes(SummaryOf(ReadArray(body[..c]), false), ArrayStrings(body))
  {
    CutSummaryIsSound(body, c);
    if Opens(body) {
      StringsAreValid(body, SkipSpace(body, 0) + 1, AtStart);
    }
    SoundSummaryShowsPrefixes(SummaryOf(ReadArray(body[..c]), false), ReadArray(body), ArrayStrings(body));
  }
}
