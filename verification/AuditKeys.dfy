/**
 backend/middleware_audit.go: extractObjectKeys, which looks for the "keys" field of a batch-delete
 body, skipping the values of other fields, and summarises the array behind it.
 */
module AuditKeys {
  import opened AuditSummary
  import opened JsonText
  import opened Options
  import opened Utf8

  /** The word keys. */
  const KEYS: bytes := [0x6B, 0x65, 0x79, 0x73]

  /** Where the next field starts: behind a comma unless it is the first. */
  function FieldStart(s: bytes, i: nat, first: bool): (j: Option<nat>)
    ensures j.Some? ==> i <= j.value <= |s|
  {
    if !first then Behind(s, i, 0x2C) else if i <= |s| then Some(i) else None
  }

  /** What stands between the quotes of the name of a field that starts at i. */
  function RawName(s: bytes, i: nat): bytes
    requires i <= |s| && QuotedEnd(s, i).Some?
  {
    s[Behind(s, i, QUOTE).value..QuotedEnd(s, i).value - 1]
  }

  function NameOf(s: bytes, i: nat): bytes
    requires i <= |s| && QuotedEnd(s, i).Some?
  {
    Unquote(RawName(s, i))
  }

  /** One field: not readable, the keys field, or another one whose value ends at a position. */
  datatype Field = Unreadable | KeysField(value: nat) | OtherField(next: nat)

  /** The field that starts at i. */
  function FieldFrom(s: bytes, i: nat): (f: Field)
    ensures f.KeysField? ==> i < f.value <= |s|
    ensures f.OtherField? ==> i < f.next <= |s|
  {
    var colon := NameEnd(s, i);
    if colon.None? then Unreadable
    else if NameOf(s, i) == KEYS then KeysField(colon.value)
    else
      var next := ValueEnd(s, colon.value);
      if next.None? then Unreadable else OtherField(next.value)
  }

  function FieldAt(s: bytes, i: nat, first: bool): (f: Field)
    ensures f.KeysField? ==> i < f.value <= |s|
    ensures f.OtherField? ==> i < f.next <= |s|
  {
    var start := FieldStart(s, i, first);
    if start.None? then Unreadable else FieldFrom(s, start.value)
  }

  /** The position behind the colon of the first field called keys. */
  function FindKeys(s: bytes, i: nat, first: bool): (k: Option<nat>)
    ensures k.Some? ==> i < k.value <= |s|
    decreases |s| - i
  {
    match FieldAt(s, i, first)
    case Unreadable => None
    case KeysField(value) => Some(value)
    case OtherField(next) => FindKeys(s, next, false)
  }

  /** Behind the bracket of the array that the keys field of an object holds. */
  function KeysArray(s: bytes): (i: Option<nat>)
    ensures i.Some? ==> i.value <= |s|
  {
    var brace := Behind(s, 0, 0x7B);
    if brace.None? then None
    else
      var k := FindKeys(s, brace.value, true);
      if k.None? then None else Behind(s, k.value, 0x5B)
  }

  /** The keys a batch-delete body holds. */
  function ReadKeys(s: bytes): Reading {
    if KeysArray(s).None? then NotStrings else Read(s, KeysArray(s).value, AtStart)
  }

  function KeyStrings(s: bytes): seq<bytes> {
    if KeysArray(s).None? then [] else Strings(s, KeysArray(s).value, AtStart)
  }

  /** The loop over the fields. */
  method FindKeysField(body: bytes, start: nat) returns (k: Option<nat>)
    requires start <= |body|
    ensures k == FindKeys(body, start, true)
  {
    var i, first := start, true;
    while true
      invariant i <= |body|
      invariant FindKeys(body, start, true) == FindKeys(body, i, first)
      decreases |body| - i
    {
      var f := FieldAt(body, i, first);
      if f.Unreadable? {
        return None;
      }
      if f.KeysField? {
        return Some(f.value);
      }
      i, first := f.next, false;
    }
  }

  method ExtractObjectKeys(body: bytes, complete: bool) returns (r: Summary)
    ensures r == SummaryOf(ReadKeys(body), complete)
  {
    var brace := Behind(body, 0, 0x7B);
    if brace.None? {
      return NoSummary;
    }
    var k := FindKeysField(body, brace.value);
    if k.None? {
      return NoSummary;
    }
    var bracket := Behind(body, k.value, 0x5B);
    if bracket.None? {
      return NoSummary;
    }
    r := SummarizeElements(body, bracket.value, complete);
  }

  // ---- A cut body ----

  /** As for values: the same field, or one whose value the cut ends. */
  ghost predicate SameField(full: Field, cut: Field, c: nat) {
    (full.KeysField? && full.value <= c ==> cut == full) &&
    (full.OtherField? && full.next <= c ==> cut == full) &&
    (cut.KeysField? ==> cut == full && cut.value <= c) &&
    (cut.OtherField? ==> cut.next <= c && (cut.next < c ==> cut == full))
  }

  lemma RawNameCut(s: bytes, c: nat, i: nat)
    requires i <= c <= |s| && QuotedEnd(s[..c], i).Some?
    ensures QuotedEnd(s, i).Some? && RawName(s[..c], i) == RawName(s, i)
  {
    QuotedCut(s, c, i);
    BehindCut(s, c, i, QUOTE);
    var from, to := Behind(s, i, QUOTE).value, QuotedEnd(s, i).value - 1;
    assert s[..c][from..to] == s[from..to];
  }

  lemma FieldFromCut(s: bytes, c: nat, i: nat)
    requires i <= c <= |s|
    ensures SameField(FieldFrom(s, i), FieldFrom(s[..c], i), c)
  {
    NameCut(s, c, i);
    var colon := NameEnd(s[..c], i);
    if colon.Some? {
      RawNameCut(s, c, i);
      ValueCut(s, c, colon.value);
    }
  }

  lemma FieldCut(s: bytes, c: nat, i: nat, first: bool)
    requires i <= c <= |s|
    ensures SameField(FieldAt(s, i, first), FieldAt(s[..c], i, first), c)
  {
    BehindCut(s, c, i, 0x2C);
    var start := FieldStart(s[..c], i, first);
    if start.Some? {
      FieldFromCut(s, c, start.value);
    }
  }

  /** The keys field is found at the same place if the cut is behind it, and no other is found. */
  lemma {:induction false} FindKeysCut(s: bytes, c: nat, i: nat, first: bool)
    requires i <= c <= |s|
    ensures SameEnd(FindKeys(s, i, first), FindKeys(s[..c], i, first), c)
    decreases |s| - i
  {
    FieldCut(s, c, i, first);
    var cut := FieldAt(s[..c], i, first);
    if cut.OtherField? {
      if cut.next < c {
        FindKeysCut(s, c, cut.next, false);
      } else {
        if FieldAt(s, i, first) == cut {
          FindKeysCut(s, c, c, false);
        }
      }
    }
  }

  lemma KeysArrayCut(s: bytes, c: nat)
    requires c <= |s|
    ensures SameEnd(KeysArray(s), KeysArray(s[..c]), c)
  {
    BehindCut(s, c, 0, 0x7B);
    var brace := Behind(s[..c], 0, 0x7B);
    if brace.Some? {
      FindKeysCut(s, c, brace.value, true);
      var k := FindKeys(s[..c], brace.value, true);
      if k.Some? {
        BehindCut(s, c, k.value, 0x5B);
      }
    }
  }

  /**
   For every batch-delete body and every cut point, whatever the body holds, the summary counts only
   keys at the front of its key list and shows the first ones.
   */
  lemma CutKeysSummaryIsSound(body: bytes, c: nat)
    requires c <= |body|
    ensures SoundSummary(SummaryOf(ReadKeys(body[..c]), false), ReadKeys(body), KeyStrings(body))
  {
    KeysArrayCut(body, c);
    var k := KeysArray(body[..c]);
    if k.Some? {
      ElementsCutReading(body, c, k.value);
    }
    CutReadingIsSound(ReadKeys(body[..c]), ReadKeys(body), KeyStrings(body));
  }

  /** A key list of strings that is cut behind its bracket is never taken for one of other elements. */
  lemma CutKeysAreRead(body: bytes, c: nat)
    requires c <= |body| && ReadKeys(body).Closed? && KeysArray(body).value <= c
    ensures !ReadKeys(body[..c]).NotStrings?
  {
    KeysArrayCut(body, c);
    ReadCut(body, c, KeysArray(body).value, AtStart);
  }

  lemma ShownKeysAreLongestPrefixes(body: bytes, c: nat)
    requires c <= |body|
    ensures ShowsLongestPrefixes(SummaryOf(ReadKeys(body[..c]), false), KeyStrings(body))
  {
    CutKeysSummaryIsSound(body, c);
    if KeysArray(body).Some? {
      StringsAreValid(body, KeysArray(body).value, AtStart);
    }
    SoundSummaryShowsPrefixes(SummaryOf(ReadKeys(body[..c]), false), ReadKeys(body), KeyStrings(body));
  }
}
