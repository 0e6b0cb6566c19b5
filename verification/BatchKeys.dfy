/**
 backend/handler_objects.go, handleBatchDeleteObjects: the key list that encoding/json decodes from a
 batch-delete body, against the one that the audit line is about.
 */
module BatchKeys {
  import opened AuditKeys
  import opened AuditSummary
  import opened JsonText
  import opened Options
  import opened Utf8

  // ---- A complete object, as a list of its members ----

  /** An element of an array: a string, null, or something that is no key. */
  datatype Item = Str(value: bytes) | NullItem | OtherItem

  /** The value of a member: null, an array, or something that is no key list. */
  datatype FieldValue = NullValue | ListValue(items: seq<Item>) | OtherValue

  datatype Member = Member(name: bytes, value: FieldValue)

  function ItemAt(s: bytes, i: nat): Item {
    var j := SkipSpace(s, i);
    if j >= |s| then OtherItem
    else if s[j] == 0x6E then NullItem
    else if s[j] == QUOTE && StringAt(s, j).Text? then Str(StringAt(s, j).value)
    else OtherItem
  }

  /** The elements from the one at i on. */
  function Items(s: bytes, i: nat): seq<Item>
    requires ElementsEnd(s, i).Some?
    decreases |s| - i
  {
    var comma := Behind(s, ValueEnd(s, i).value, 0x2C);
    [ItemAt(s, i)] + if comma.Some? then Items(s, comma.value) else []
  }

  /** The elements of an array whose bracket is in front of i. */
  function ListItems(s: bytes, i: nat): seq<Item>
    requires ArrayEnd(s, i).Some?
  {
    if Behind(s, i, 0x5D).Some? then [] else Items(s, i)
  }

  function FieldValueAt(s: bytes, i: nat): FieldValue
    requires ValueEnd(s, i).Some?
  {
    var j := SkipSpace(s, i);
    assert ValueAtEnd(s, j).Some?;
    if s[j] == 0x5B then ListValue(ListItems(s, j + 1)) else if s[j] == 0x6E then NullValue else OtherValue
  }

  /** The members from the one at i on. */
  function Members(s: bytes, i: nat): seq<Member>
    requires MembersEnd(s, i).Some?
    decreases |s| - i
  {
    var at := NameEnd(s, i).value;
    var comma := Behind(s, ValueEnd(s, at).value, 0x2C);
    [Member(NameOf(s, i), FieldValueAt(s, at))] + if comma.Some? then Members(s, comma.value) else []
  }

  /** The members of an object whose brace is in front of i. */
  function ObjectMembers(s: bytes, i: nat): seq<Member>
    requires ObjectEnd(s, i).Some?
  {
    if Behind(s, i, 0x7D).Some? then [] else Members(s, i)
  }

  // ---- Decoding into a struct whose one field is a []string called keys ----

  /** The name is keys up to case, for which U+212A is a k and U+017F an s. */
  predicate MeansKeys(name: bytes) {
    exists k, e, y, s :: k in FORMS_OF_K && e in FORMS_OF_E && y in FORMS_OF_Y && s in FORMS_OF_S
                         && name == k + e + y + s
  }

  const FORMS_OF_K: set<bytes> := {[0x6B], [0x4B], [0xE2, 0x84, 0xAA]}
  const FORMS_OF_E: set<bytes> := {[0x65], [0x45]}
  const FORMS_OF_Y: set<bytes> := {[0x79], [0x59]}
  const FORMS_OF_S: set<bytes> := {[0x73], [0x53], [0xC5, 0xBF]}

  /** The values the decoder stores, one after the other. */
  function KeysValues(members: seq<Member>): seq<FieldValue> {
    if members == [] then []
    else (if MeansKeys(members[0].name) then [members[0].value] else []) + KeysValues(members[1..])
  }

  /** A value that can be stored without an error. */
  predicate Fits(v: FieldValue) {
    v.NullValue? || (v.ListValue? && forall k :: 0 <= k < |v.items| ==> !v.items[k].OtherItem?)
  }

  function Slot(memory: seq<bytes>, k: nat): bytes {
    if k < |memory| then memory[k] else []
  }

  /** A string replaces what its place holds; null leaves it, and places behind the list stay as they are. */
  function Overlay(memory: seq<bytes>, items: seq<Item>): (m: seq<bytes>)
    ensures |m| >= |items|
  {
    seq(if |items| < |memory| then |memory| else |items|, k requires 0 <= k =>
      if k < |items| && items[k].Str? then items[k].value else Slot(memory, k))
  }

  /**
   The memory behind the slice once the values are stored. Null and an empty list give it up; a list
   reuses it, beyond the length of the list before too.
   */
  function Memory(values: seq<FieldValue>): seq<bytes> {
    if values == [] then []
    else
      var last := values[|values| - 1];
      if last.ListValue? && last.items != [] then Overlay(Memory(values[..|values| - 1]), last.items) else []
  }

  /** The slice: as much of the memory as the last list is long. */
  function Stored(values: seq<FieldValue>): seq<bytes> {
    if values == [] || !values[|values| - 1].ListValue? || values[|values| - 1].items == [] then []
    else Memory(values)[..|values[|values| - 1].items|]
  }

  const MAX_KEYS_BODY: nat := 16777216

  /** The values stored from a body that starts with an object; none for any other body. */
  function ValuesOf(body: bytes): seq<FieldValue>
    requires ValueEnd(body, 0).Some?
  {
    var j := SkipSpace(body, 0);
    assert ValueAtEnd(body, j).Some?;
    if body[j] == 0x7B then KeysValues(ObjectMembers(body, j + 1)) else []
  }

  /** req.Keys after decoding; None when the body is refused. */
  function HandlerKeys(body: bytes): Option<seq<bytes>> {
    var end := ValueEnd(body, 0);
    if end.None? || end.value > MAX_KEYS_BODY then None
    else
      var b := body[SkipSpace(body, 0)];
      if (b == 0x7B || b == 0x6E) && forall k :: 0 <= k < |ValuesOf(body)| ==> Fits(ValuesOf(body)[k])
      then Some(Stored(ValuesOf(body))) else None
  }

  // ---- What a slice holds, told from its end ----

  /** The last string stored at place k since the memory was last given up. */
  function LastString(values: seq<FieldValue>, k: nat): bytes {
    if values == [] then []
    else
      var last := values[|values| - 1];
      if !last.ListValue? || last.items == [] then []
      else if k < |last.items| && last.items[k].Str? then last.items[k].value
      else LastString(values[..|values| - 1], k)
  }

  lemma {:induction false} MemoryHolds(values: seq<FieldValue>, k: nat)
    ensures Slot(Memory(values), k) == LastString(values, k)
  {
    if values != [] {
      MemoryHolds(values[..|values| - 1], k);
    }
  }

  /** How long the slice is, and what it holds. */
  lemma StoredHolds(values: seq<FieldValue>, k: nat)
    requires values != []
    ensures var last := values[|values| - 1];
            |Stored(values)| == (if last.ListValue? then |last.items| else 0) &&
            (k < |Stored(values)| ==> Stored(values)[k] == LastString(values, k))
  {
    MemoryHolds(values, k);
  }

  // ---- What the audit line is about, on the same members ----

  /** Reading the elements of a whole array, as the audit does. */
  function ReadingOf(items: seq<Item>): Reading {
    if items == [] then Closed([])
    else if items[0].Str? then Prepend(items[0].value, ReadingOf(items[1..]))
    else NotStrings
  }

  predicate AllStrings(items: seq<Item>) {
    forall k :: 0 <= k < |items| ==> items[k].Str?
  }

  function Texts(items: seq<Item>): seq<bytes>
    requires AllStrings(items)
  {
    seq(|items|, k requires 0 <= k < |items| => items[k].value)
  }

  lemma {:induction false} ReadingOfItems(items: seq<Item>)
    ensures ReadingOf(items) == if AllStrings(items) then Closed(Texts(items)) else NotStrings
  {
    if items != [] {
      var rest := items[1..];
      ReadingOfItems(rest);
      if items[0].Str? && AllStrings(rest) {
        assert Texts(items) == [items[0].value] + Texts(rest);
      }
    }
  }

  lemma ElementToken(s: bytes, i: nat, place: Place)
    requires !place.AtComma? && ValueEnd(s, i).Some?
    ensures var item := ItemAt(s, i);
            NextToken(s, i, place) == if item.Str? then Token.Text(item.value, ValueEnd(s, i).value) else Foreign
  {
    var j := SkipSpace(s, i);
    TokenAtOnce(s, i, j, place);
    assert ValueEnd(s, i) == ValueAtEnd(s, j);
    assert SkipSpace(s, j) == j;
  }

  /** Behind an element the list goes on behind a comma, or it closes. */
  lemma TokenBehindElement(s: bytes, i: nat, next: nat)
    requires i <= |s| && Behind(s, i, 0x2C) == Some(next)
    ensures NextToken(s, i, AtComma) == NextToken(s, next, AtValue)
  {
    TokenBehindComma(s, i, next - 1);
    TokenAtOnce(s, next, SkipSpace(s, next), AtValue);
  }

  lemma ClosingToken(s: bytes, i: nat)
    requires i <= |s| && Behind(s, i, 0x5D).Some?
    ensures NextToken(s, i, AtComma).Close?
  {
    TokenAtOnce(s, i, SkipSpace(s, i), AtComma);
  }

  lemma SameTokenSameRead(s: bytes, i: nat, place: Place, k: nat, other: Place)
    requires NextToken(s, i, place) == NextToken(s, k, other)
    ensures Read(s, i, place) == Read(s, k, other)
  {
  }

  lemma {:induction false} ReadItems(s: bytes, i: nat, place: Place)
    requires !place.AtComma? && ElementsEnd(s, i).Some?
    ensures Read(s, i, place) == ReadingOf(Items(s, i))
    decreases |s| - i
  {
    var next := ValueEnd(s, i).value;
    var comma := Behind(s, next, 0x2C);
    ElementToken(s, i, place);
    if comma.Some? {
      TokenBehindElement(s, next, comma.value);
      SameTokenSameRead(s, next, AtComma, comma.value, AtValue);
      ReadItems(s, comma.value, AtValue);
    } else {
      ClosingToken(s, next);
    }
  }

  lemma ReadList(s: bytes, i: nat)
    requires ArrayEnd(s, i).Some?
    ensures Read(s, i, AtStart) == ReadingOf(ListItems(s, i))
  {
    if Behind(s, i, 0x5D).None? {
      ReadItems(s, i, AtStart);
    }
  }

  /** The value of the first member whose name is exactly keys. */
  function FirstKeys(members: seq<Member>): Option<FieldValue> {
    if members == [] then None
    else if members[0].name == KEYS then Some(members[0].value)
    else FirstKeys(members[1..])
  }

  /** The field that the audit sees in a member. */
  lemma MemberField(s: bytes, i: nat)
    requires MembersEnd(s, i).Some?
    ensures var at := NameEnd(s, i).value;
            FieldAt(s, i, true) == if NameOf(s, i) == KEYS then KeysField(at) else OtherField(ValueEnd(s, at).value)
  {
  }

  lemma FirstMember(s: bytes, i: nat)
    requires MembersEnd(s, i).Some?
    ensures var at := NameEnd(s, i).value;
            var comma := Behind(s, ValueEnd(s, at).value, 0x2C);
            FirstKeys(Members(s, i))
            == if NameOf(s, i) == KEYS then Some(FieldValueAt(s, at))
               else if comma.Some? then FirstKeys(Members(s, comma.value)) else None
  {
  }

  lemma FindOn(s: bytes, i: nat)
    requires i <= |s|
    ensures var comma := Behind(s, i, 0x2C);
            FindKeys(s, i, false) == if comma.Some? then FindKeys(s, comma.value, true) else None
  {
    var comma := Behind(s, i, 0x2C);
    if comma.Some? {
      assert FieldAt(s, i, false) == FieldAt(s, comma.value, true);
    }
  }

  /** What FindKeys finds, in terms of the members. */
  ghost predicate Finds(s: bytes, k: Option<nat>, first: Option<FieldValue>) {
    if first.None? then k.None?
    else k.Some? && ValueEnd(s, k.value).Some? && FieldValueAt(s, k.value) == first.value
  }

  lemma {:induction false} FindFirst(s: bytes, i: nat)
    requires MembersEnd(s, i).Some?
    ensures Finds(s, FindKeys(s, i, true), FirstKeys(Members(s, i)))
    decreases |s| - i
  {
    MemberField(s, i);
    FirstMember(s, i);
    if NameOf(s, i) != KEYS {
      var next := ValueEnd(s, NameEnd(s, i).value).value;
      var comma := Behind(s, next, 0x2C);
      FindOn(s, next);
      if comma.Some? {
        FindFirst(s, comma.value);
      }
    }
  }

  /** The value that the audit takes for the key list of a body. */
  function AuditedValue(body: bytes): Option<FieldValue>
    requires ValueEnd(body, 0).Some?
  {
    var j := SkipSpace(body, 0);
    assert ValueAtEnd(body, j).Some?;
    if body[j] == 0x7B then FirstKeys(ObjectMembers(body, j + 1)) else None
  }

  lemma FirstOfObject(s: bytes, i: nat)
    requires ObjectEnd(s, i).Some?
    ensures Finds(s, FindKeys(s, i, true), FirstKeys(ObjectMembers(s, i)))
  {
    if Behind(s, i, 0x7D).Some? {
      assert Behind(s, i, QUOTE).None?;
    } else {
      FindFirst(s, i);
    }
  }

  /** The array behind a value's bracket. */
  lemma ListBracket(s: bytes, k: nat, v: FieldValue, start: Option<nat>)
    requires ValueEnd(s, k).Some? && v == FieldValueAt(s, k) && start == Behind(s, k, 0x5B)
    ensures v.ListValue? <==> start.Some?
    ensures start.Some? ==> Read(s, start.value, AtStart) == ReadingOf(v.items)
  {
    var j := SkipSpace(s, k);
    ValueStarts(s, k, j);
    if s[j] == 0x5B {
      assert start == Some(j + 1) && v == ListValue(ListItems(s, j + 1));
      ReadList(s, j + 1);
    }
  }

  /** Where a value starts, and where it ends by what it starts with. */
  lemma ValueStarts(s: bytes, i: nat, j: nat)
    requires ValueEnd(s, i).Some? && j == SkipSpace(s, i)
    ensures i <= j < |s| && SkipSpace(s, j) == j && ValueEnd(s, i) == ValueAtEnd(s, j)
    ensures s[j] == 0x7B ==> ObjectEnd(s, j + 1) == ValueEnd(s, i)
    ensures s[j] == 0x5B ==> ArrayEnd(s, j + 1) == ValueEnd(s, i)
  {
  }

  lemma AuditedObject(body: bytes, j: nat, v: Option<FieldValue>)
    requires ValueEnd(body, 0).Some? && v == AuditedValue(body)
    requires j == SkipSpace(body, 0) && j < |body| && body[j] == 0x7B && ObjectEnd(body, j + 1).Some?
    ensures v == FirstKeys(ObjectMembers(body, j + 1))
  {
  }

  lemma NothingAudited(body: bytes, j: nat, v: Option<FieldValue>)
    requires ValueEnd(body, 0).Some? && v == AuditedValue(body)
    requires j == SkipSpace(body, 0) && j < |body| && body[j] != 0x7B
    ensures v.None? && Behind(body, 0, 0x7B).None?
  {
  }

  /** On a body that can be decoded the audit reads the first array called keys, and no other. */
  lemma AuditReads(body: bytes, v: Option<FieldValue>)
    requires ValueEnd(body, 0).Some? && v == AuditedValue(body)
    ensures ReadKeys(body) == if v.Some? && v.value.ListValue? then ReadingOf(v.value.items) else NotStrings
  {
    var j := SkipSpace(body, 0);
    ValueStarts(body, 0, j);
    if body[j] == 0x7B {
      AuditedObject(body, j, v);
      ObjectReads(body, j, v);
    } else {
      NothingAudited(body, j, v);
      NoObject(body);
    }
  }

  /** The bracket that may follow the name. */
  lemma BracketBehindName(body: bytes, j: nat, k: Option<nat>, start: Option<nat>)
    requires j < |body| && SkipSpace(body, 0) == j && body[j] == 0x7B && k == FindKeys(body, j + 1, true)
    requires start == if k.Some? then Behind(body, k.value, 0x5B) else None
    ensures KeysArray(body) == start
  {
    assert Behind(body, 0, 0x7B) == Some(j + 1);
  }

  lemma NoObject(body: bytes)
    requires Behind(body, 0, 0x7B).None?
    ensures ReadKeys(body) == NotStrings
  {
    assert KeysArray(body).None?;
  }

  lemma ReadFrom(body: bytes, start: Option<nat>)
    requires KeysArray(body) == start
    ensures ReadKeys(body) == if start.None? then NotStrings else Read(body, start.value, AtStart)
  {
  }

  lemma ObjectReads(body: bytes, j: nat, v: Option<FieldValue>)
    requires j < |body| && SkipSpace(body, 0) == j && body[j] == 0x7B
    requires ObjectEnd(body, j + 1).Some? && v == FirstKeys(ObjectMembers(body, j + 1))
    ensures ReadKeys(body) == if v.Some? && v.value.ListValue? then ReadingOf(v.value.items) else NotStrings
  {
    FirstOfObject(body, j + 1);
    ReadsWhatIsFound(body, j, FindKeys(body, j + 1, true), v);
  }

  lemma ReadsWhatIsFound(body: bytes, j: nat, k: Option<nat>, first: Option<FieldValue>)
    requires j < |body| && SkipSpace(body, 0) == j && body[j] == 0x7B
    requires k == FindKeys(body, j + 1, true) && Finds(body, k, first)
    ensures ReadKeys(body) == if first.Some? && first.value.ListValue? then ReadingOf(first.value.items) else NotStrings
  {
    var start := if k.Some? then Behind(body, k.value, 0x5B) else None;
    BracketBehindName(body, j, k, start);
    ReadFrom(body, start);
    if k.Some? {
      ListBracket(body, k.value, first.value, start);
    }
  }

  lemma KeysMeansKeys()
    ensures MeansKeys(KEYS)
  {
    var k: bytes, e: bytes, y: bytes, s: bytes := [0x6B], [0x65], [0x79], [0x73];
    assert k in FORMS_OF_K && e in FORMS_OF_E && y in FORMS_OF_Y && s in FORMS_OF_S;
    assert KEYS == k + e + y + s;
  }

  /** What the audit is about is among the values stored. */
  lemma {:induction false} FirstIsStored(members: seq<Member>)
    ensures FirstKeys(members).Some? ==> FirstKeys(members).value in KeysValues(members)
  {
    if members != [] {
      KeysMeansKeys();
      FirstIsStored(members[1..]);
    }
  }

  // ---- When both are about the same list ----

  /** The slice ends as these texts: the last list is as long, and left or stored them place by place. */
  ghost predicate EndsAs(values: seq<FieldValue>, texts: seq<bytes>)
    requires values != []
  {
    var last := values[|values| - 1];
    && |texts| == (if last.ListValue? then |last.items| else 0)
    && forall k :: 0 <= k < |texts| ==> LastString(values, k) == texts[k]
  }

  lemma StoredEndsAs(values: seq<FieldValue>, texts: seq<bytes>)
    requires values != []
    ensures Stored(values) == texts <==> EndsAs(values, texts)
  {
    StoredHolds(values, 0);
    forall k | 0 <= k < |Stored(values)| ensures Stored(values)[k] == LastString(values, k) {
      StoredHolds(values, k);
    }
    if EndsAs(values, texts) {
      assert Stored(values) == texts;
    }
  }

  /**
   The value the audit takes is a list of strings, and the values that the decoder stores, whatever
   the case of their names, leave these strings in the slice.
   */
  ghost predicate SameTexts(v: Option<FieldValue>, values: seq<FieldValue>) {
    v.Some? && v.value.ListValue? && AllStrings(v.value.items) && values != [] && EndsAs(values, Texts(v.value.items))
  }

  ghost predicate SameList(body: bytes)
    requires ValueEnd(body, 0).Some?
  {
    SameTexts(AuditedValue(body), ValuesOf(body))
  }

  lemma AuditedIsStored(body: bytes)
    requires ValueEnd(body, 0).Some?
    ensures AuditedValue(body).Some? ==> AuditedValue(body).value in ValuesOf(body)
  {
    var j := SkipSpace(body, 0);
    assert ValueAtEnd(body, j).Some?;
    if body[j] == 0x7B {
      FirstIsStored(ObjectMembers(body, j + 1));
    }
  }

  /** The audit reads the list that the handler got. */
  ghost predicate SameReading(body: bytes)
    requires HandlerKeys(body).Some?
  {
    ReadKeys(body) == Closed(HandlerKeys(body).value)
  }

  /** The audit line is about the list that the handler got exactly under this condition. */
  lemma AuditMatchesHandler(body: bytes)
    requires HandlerKeys(body).Some?
    ensures SameReading(body) <==> SameList(body)
  {
    var v, values := AuditedValue(body), ValuesOf(body);
    AuditReads(body, v);
    AuditedIsStored(body);
    if v.Some? && v.value.ListValue? {
      ReadingOfItems(v.value.items);
      if AllStrings(v.value.items) {
        StoredEndsAs(values, Texts(v.value.items));
      }
    }
  }

  /** A list of strings. */
  predicate StringList(v: FieldValue) {
    v.ListValue? && AllStrings(v.items)
  }

  ghost predicate StringLists(values: seq<FieldValue>) {
    forall k :: 0 <= k < |values| ==> StringList(values[k])
  }

  /** One value: it must be what the audit takes, and hold no null. */
  lemma SameOfOne(v: Option<FieldValue>, values: seq<FieldValue>)
    requires |values| == 1 && (v.Some? ==> v.value in values)
    ensures SameTexts(v, values) <==> v.Some? && StringList(v.value)
  {
    if v.Some? && StringList(v.value) {
      assert EndsAs(values, Texts(v.value.items));
    }
  }

  /** Lists of strings only: what the audit takes must be the last of them. */
  lemma SameOfStringLists(v: Option<FieldValue>, values: seq<FieldValue>)
    requires values != [] && (v.Some? ==> v.value in values) && StringLists(values)
    ensures SameTexts(v, values) <==> v == Some(values[|values| - 1])
  {
    var last := values[|values| - 1];
    assert StringList(last) && EndsAs(values, Texts(last.items));
    if SameTexts(v, values) {
      forall k | 0 <= k < |last.items| ensures v.value.items[k] == last.items[k] {
        assert Texts(last.items)[k] == LastString(values, k) == Texts(v.value.items)[k];
      }
      assert v.value.items == last.items;
    }
  }

  /** The one member that means keys must be called exactly that and be a list of strings without a null. */
  lemma OneKeysMember(body: bytes)
    requires HandlerKeys(body).Some? && |ValuesOf(body)| == 1
    ensures SameReading(body) <==> AuditedValue(body).Some? && StringList(AuditedValue(body).value)
  {
    AuditMatchesHandler(body);
    AuditedIsStored(body);
    SameOfOne(AuditedValue(body), ValuesOf(body));
  }

  /** With lists of strings only, the first one called exactly keys must equal the last that means keys. */
  lemma StringListsOnly(body: bytes, values: seq<FieldValue>)
    requires HandlerKeys(body).Some? && values == ValuesOf(body) && values != [] && StringLists(values)
    ensures SameReading(body) <==> AuditedValue(body) == Some(values[|values| - 1])
  {
    AuditMatchesHandler(body);
    AuditedIsStored(body);
    SameOfStringLists(AuditedValue(body), values);
  }

  /** Then the line of a cut body, too, counts and shows the keys at the front of the handler's list. */
  lemma CutAuditIsOfHandlersKeys(body: bytes, c: nat)
    requires c <= |body| && HandlerKeys(body).Some? && SameList(body)
    ensures var keys := HandlerKeys(body).value;
            SoundSummary(SummaryOf(ReadKeys(body[..c]), false), Closed(keys), keys)
  {
    AuditMatchesHandler(body);
    CutKeysSummaryIsSound(body, c);
    ReadGivesStrings(body, KeysArray(body).value, AtStart);
  }

  // ---- What the handler makes of the list ----

  const MAX_BATCH_DELETE_KEYS := 10000

  datatype BatchAnswer = BadBody | NoKeys | TooManyKeys(count: nat) | DeleteThese(keys: seq<bytes>)

  /** The keys that are not empty, each where it comes first. */
  function Firsts(list: seq<bytes>): seq<bytes> {
    if list == [] then []
    else
      var n := |list| - 1;
      var before := Firsts(list[..n]);
      if list[n] == [] || list[n] in before then before else before + [list[n]]
  }

  ghost predicate Distinct(keys: seq<bytes>) {
    forall i, j :: 0 <= i < j < |keys| ==> keys[i] != keys[j]
  }

  /** No key twice, no empty one, and every other one of the list. */
  lemma {:induction false} FirstsFacts(list: seq<bytes>)
    ensures Distinct(Firsts(list))
    ensures forall k :: k in Firsts(list) <==> k in list && k != []
  {
    if list != [] {
      var n := |list| - 1;
      FirstsFacts(list[..n]);
      assert list == list[..n] + [list[n]];
    }
  }

  /** The order is that of the list: what the first m entries give comes first. */
  lemma {:induction false} FirstsInOrder(list: seq<bytes>, m: nat)
    requires m <= |list|
    ensures Firsts(list[..m]) <= Firsts(list)
  {
    if m < |list| {
      var n := |list| - 1;
      FirstsInOrder(list[..n], m);
      assert list[..n][..m] == list[..m];
    } else {
      assert list[..m] == list;
    }
  }

  /** As many keys are deleted as the audit line counts exactly when none is empty or comes twice. */
  lemma {:induction false} FirstsCount(list: seq<bytes>)
    ensures |Firsts(list)| <= |list|
    ensures |Firsts(list)| == |list| <==> Distinct(list) && [] !in list
  {
    if list != [] {
      var n := |list| - 1;
      var init := list[..n];
      FirstsCount(init);
      FirstsFacts(init);
      assert list == init + [list[n]];
      if Distinct(list) && [] !in list {
        assert list[n] !in init;
      }
    }
  }

  method DistinctKeys(list: seq<bytes>) returns (keys: seq<bytes>)
    ensures keys == Firsts(list)
  {
    var seen: set<bytes> := {};
    keys := [];
    for i := 0 to |list|
      invariant keys == Firsts(list[..i])
      invariant seen == set k | k in keys
    {
      assert list[..i + 1][..i] == list[..i];
      var k := list[i];
      if k != [] && k !in seen {
        seen := seen + {k};
        keys := keys + [k];
      }
    }
    assert list[..|list|] == list;
  }

  method HandleBatchDelete(body: bytes) returns (r: BatchAnswer)
    ensures r.BadBody? <==> HandlerKeys(body).None?
    ensures r.NoKeys? ==> forall k :: k in HandlerKeys(body).value ==> k == []
    ensures r.TooManyKeys? ==> r.count == |Firsts(HandlerKeys(body).value)| > MAX_BATCH_DELETE_KEYS
    ensures r.DeleteThese? ==>
              r.keys == Firsts(HandlerKeys(body).value) && 0 < |r.keys| <= MAX_BATCH_DELETE_KEYS
  {
    var req := HandlerKeys(body);
    if req.None? {
      return BadBody;
    }
    var keys := DistinctKeys(req.value);
    FirstsFacts(req.value);
    if |keys| == 0 {
      return NoKeys;
    }
    if |keys| > MAX_BATCH_DELETE_KEYS {
      return TooManyKeys(|keys|);
    }
    r := DeleteThese(keys);
  }
}
