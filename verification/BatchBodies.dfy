/**
 What batch-delete bodies and other request bodies mean as texts of JSON, however they are spaced and
 spelled: the keys that the handler gets (backend/handler_objects.go) and those that the audit line
 is about (backend/middleware_audit.go).
 */
module BatchBodies {
  import opened AuditKeys
  import opened AuditSummary
  import opened BatchKeys
  import opened JsonSpelling
  import opened JsonText
  import opened Options
  import opened Utf8
  import G = JsonGrammar

  // ---- The members of a written object ----

  /** A string stands for what is read between its quotes; null stands for itself. */
  function ItemOf(j: G.Json): Item {
    match j
    case Str(raw) => BatchKeys.Str(Unquote(raw))
    case Word(word) => if word == NULL then NullItem else OtherItem
    case _ => OtherItem
  }

  function ItemsOf(es: G.ElementTexts): seq<Item> {
    if es.NoElement? then [] else [ItemOf(es.value)] + ItemsOf(es.others)
  }

  function ValueOf(j: G.Json): FieldValue {
    match j
    case Arr(_, elements) => ListValue(ItemsOf(elements))
    case Word(word) => if word == NULL then NullValue else OtherValue
    case _ => OtherValue
  }

  function MembersOf(ms: G.MemberTexts): seq<Member> {
    if ms.NoMember? then [] else [Member(Unquote(ms.name), ValueOf(ms.value))] + MembersOf(ms.others)
  }

  // ---- They are what the models read ----

  /** The first byte tells what kind of value begins there. */
  lemma KindOf(t: bytes, at: nat, j: G.Json, rest: bytes)
    requires G.WellFormed(j) && at <= |t| && t[at..] == G.TextThen(j, rest)
    ensures at < |t| && (t[at] == QUOTE <==> j.Str?) && (t[at] == 0x5B <==> j.Arr?) && (t[at] == 0x7B <==> j.Obj?)
    ensures t[at] == 0x6E <==> j == G.Word(NULL)
  {
    G.FirstByte(j, rest);
    assert t[at] == t[at..][0];
    if j.Num? {
      G.NumberFirst(j.number, rest);
    }
  }

  lemma StringAtIs(t: bytes, at: nat, raw: bytes, rest: bytes, open: nat, close: nat)
    requires G.Writes(raw) && at <= |t| && t[at..] == G.Quoted(raw, rest) && open == at + 1 && close == open + |raw|
    ensures close < |t| && StringAt(t, at) == Token.Text(Unquote(raw), close + 1)
  {
    G.QuotedParts(t, at, raw, rest, close);
    G.WrittenEnds(raw, t, open, close);
    StringAtUnfold(t, at, raw, open, close);
  }

  lemma StringAtUnfold(t: bytes, at: nat, raw: bytes, open: nat, close: nat)
    requires open == at + 1 <= close < |t| && StringEnd(t, open) == Some(close) && t[open..close] == raw
    ensures StringAt(t, at) == Token.Text(Unquote(raw), close + 1)
  {
  }

  lemma ItemIs(t: bytes, i: nat, at: nat, j: G.Json, rest: bytes)
    requires G.WellFormed(j) && i <= at <= |t| && SkipSpace(t, i) == at && t[at..] == G.TextThen(j, rest)
    ensures ItemAt(t, i) == ItemOf(j)
  {
    KindOf(t, at, j, rest);
    if j.Str? {
      StringAtIs(t, at, j.raw, rest, at + 1, at + 1 + |j.raw|);
    }
  }

  lemma {:induction false} ItemsAre(t: bytes, i: nat, es: G.ElementTexts, tail: bytes, end: nat, items: seq<Item>)
    requires es.ElementText? && G.FineElements(es) && i <= |t| && t[i..] == G.ElementsThen(es, tail)
    requires end + |tail| == |t| && items == ItemsOf(es)
    ensures ElementsEnd(t, i) == Some(end) && Items(t, i) == items
    decreases es
  {
    var others, more := es.others, es.others.ElementText?;
    var rest := es.after + G.MoreElementsThen(others, tail);
    var at, v, next := G.ElementStep(t, i, es, others, more, rest, tail, end);
    ItemIs(t, i, at, es.value, rest);
    if more {
      ItemsAre(t, next, others, tail, end, ItemsOf(others));
    }
    G.ElementsUnfold(t, i, v, next, more);
    ItemsUnfold(t, i, v, next, more);
  }

  lemma ItemsUnfold(t: bytes, i: nat, v: nat, next: nat, more: bool)
    requires ElementsEnd(t, i).Some? && ValueEnd(t, i) == Some(v) && G.GoesOn(t, v, more, next, 0x5D)
    requires more ==> ElementsEnd(t, next).Some?
    ensures Items(t, i) == [ItemAt(t, i)] + if more then Items(t, next) else []
  {
  }

  lemma ListItemsAre(t: bytes, i: nat, j: G.Json, tail: bytes, end: nat)
    requires j.Arr? && G.WellFormed(j) && i < |t| && t[i..] == G.TextThen(j, tail) && end + |tail| == |t|
    ensures ArrayEnd(t, i + 1) == Some(end) && ListItems(t, i + 1) == ItemsOf(j.elements)
  {
    G.ArrayComplete(t, i, j, tail, end);
    var from := i + 1;
    assert t[from..] == t[i..][1..];
    if j.elements.NoElement? {
      G.BehindGap(t, from, j.gap, 0x5D, tail, from + |j.gap| + 1);
    } else {
      G.NotClosed(t, from, j.elements, tail);
      ItemsAre(t, from, j.elements, tail, end, ItemsOf(j.elements));
    }
  }

  lemma FieldValueIs(t: bytes, i: nat, at: nat, j: G.Json, rest: bytes, v: nat)
    requires G.WellFormed(j) && i <= at <= |t| && SkipSpace(t, i) == at && t[at..] == G.TextThen(j, rest)
    requires ValueEnd(t, i) == Some(v) && v + |rest| == |t|
    ensures FieldValueAt(t, i) == ValueOf(j)
  {
    KindOf(t, at, j, rest);
    if j.Arr? {
      ListItemsAre(t, at, j, rest, v);
    }
    FieldValueOfKind(t, i, at, at + 1, j);
  }

  lemma FieldValueOfKind(t: bytes, i: nat, at: nat, from: nat, j: G.Json)
    requires i <= at < |t| && SkipSpace(t, i) == at && ValueEnd(t, i).Some? && from == at + 1
    requires (t[at] == 0x5B <==> j.Arr?) && (t[at] == 0x6E <==> j == G.Word(NULL))
    requires j.Arr? ==> ArrayEnd(t, from).Some? && ListItems(t, from) == ItemsOf(j.elements)
    ensures FieldValueAt(t, i) == ValueOf(j)
  {
  }

  lemma {:induction false} MembersAre(t: bytes, i: nat, ms: G.MemberTexts, tail: bytes, end: nat, all: seq<Member>)
    requires ms.MemberText? && G.FineMembers(ms) && i <= |t| && t[i..] == G.MembersThen(ms, tail)
    requires end + |tail| == |t| && all == MembersOf(ms)
    ensures MembersEnd(t, i) == Some(end) && Members(t, i) == all
    decreases ms
  {
    var others, more := ms.others, ms.others.MemberText?;
    var rest := ms.after + G.MoreMembersThen(others, tail);
    var open, close, at, v, next := G.MemberStep(t, i, ms, ms.name, others, more, rest, tail, end);
    MemberIs(t, i, ms.name, open, close, at, ms.gap, ms.value, rest, v);
    if more {
      MembersAre(t, next, others, tail, end, MembersOf(others));
    }
    G.MembersUnfold(t, i, at, v, next, more);
    MembersUnfold(t, i, at, v, next, more);
    AllMembers(ms, others, more, all);
  }

  lemma AllMembers(ms: G.MemberTexts, others: G.MemberTexts, more: bool, all: seq<Member>)
    requires ms.MemberText? && others == ms.others && more == others.MemberText? && all == MembersOf(ms)
    ensures all == [Member(Unquote(ms.name), ValueOf(ms.value))] + if more then MembersOf(others) else []
  {
  }

  lemma MemberIs(t: bytes, i: nat, raw: bytes, open: nat, close: nat, at: nat, gap: bytes, j: G.Json, rest: bytes,
                 v: nat)
    requires i <= |t| && G.NameAt(t, i, raw, open, close, at) && at <= |t| && t[at..] == gap + G.TextThen(j, rest)
    requires G.Gap(gap) && G.WellFormed(j) && ValueEnd(t, at) == Some(v) && v + |rest| == |t|
    ensures NameOf(t, i) == Unquote(raw) && FieldValueAt(t, at) == ValueOf(j)
  {
    assert RawName(t, i) == raw;
    G.FirstByte(j, rest);
    G.SkipGap(t, at, gap, G.TextThen(j, rest), at + |gap|);
    FieldValueIs(t, at, at + |gap|, j, rest, v);
  }

  lemma MembersUnfold(t: bytes, i: nat, at: nat, v: nat, next: nat, more: bool)
    requires MembersEnd(t, i).Some? && NameEnd(t, i) == Some(at) && ValueEnd(t, at) == Some(v)
    requires G.GoesOn(t, v, more, next, 0x7D) && (more ==> MembersEnd(t, next).Some?)
    ensures Members(t, i) == [Member(NameOf(t, i), FieldValueAt(t, at))] + if more then Members(t, next) else []
  {
  }

  lemma ObjectMembersAre(t: bytes, i: nat, j: G.Json, tail: bytes, end: nat)
    requires j.Obj? && G.WellFormed(j) && i < |t| && t[i..] == G.TextThen(j, tail) && end + |tail| == |t|
    ensures ObjectEnd(t, i + 1) == Some(end) && ObjectMembers(t, i + 1) == MembersOf(j.members)
  {
    G.ObjectComplete(t, i, j, tail, end);
    var from := i + 1;
    assert t[from..] == t[i..][1..];
    if j.members.NoMember? {
      G.BehindGap(t, from, j.gap, 0x7D, tail, from + |j.gap| + 1);
    } else {
      G.NotEmpty(t, from, j.members, tail);
      MembersAre(t, from, j.members, tail, end, MembersOf(j.members));
    }
  }

  // ---- A whole body ----

  /** A text of the grammar with white space in front, and what follows it. */
  ghost predicate IsText(t: bytes, gap: bytes, j: G.Json, tail: bytes, end: nat) {
    && G.Gap(gap) && G.WellFormed(j) && G.Closes(j, tail)
    && t == gap + G.TextThen(j, tail) && end + |tail| == |t|
  }

  /** The members of an object; no other value has any. */
  function MembersIn(j: G.Json): seq<Member> {
    if j.Obj? then MembersOf(j.members) else []
  }

  /** The text as the models see it: where it starts and ends, and its members. */
  ghost predicate Seen(t: bytes, at: nat, j: G.Json, members: seq<Member>, end: nat) {
    && at < |t| && SkipSpace(t, 0) == at && ValueEnd(t, 0) == Some(end)
    && (t[at] == 0x7B <==> j.Obj?) && (t[at] == 0x6E <==> j == G.Word(NULL)) && members == MembersIn(j)
    && (j.Obj? ==> ObjectEnd(t, at + 1).Some? && ObjectMembers(t, at + 1) == members)
  }

  lemma TextIsSeen(t: bytes, gap: bytes, j: G.Json, tail: bytes, end: nat, at: nat)
    requires IsText(t, gap, j, tail, end) && at == |gap|
    ensures Seen(t, at, j, MembersIn(j), end)
  {
    assert t[0..] == t;
    G.GapValue(t, 0, gap, j, tail, at, end);
    KindOf(t, at, j, tail);
    if j.Obj? {
      ObjectMembersAre(t, at, j, tail, end);
    }
  }

  lemma SeenValues(t: bytes, at: nat, j: G.Json, members: seq<Member>, end: nat)
    requires Seen(t, at, j, members, end)
    ensures ValuesOf(t) == KeysValues(members) && AuditedValue(t) == FirstKeys(members)
  {
    if !j.Obj? {
      assert KeysValues(members) == [] && FirstKeys(members) == None;
    }
  }

  ghost predicate AllFit(values: seq<FieldValue>) {
    forall k :: 0 <= k < |values| ==> Fits(values[k])
  }

  /** What is decoded: the list that the members leave, nothing from null, and an error from anything else. */
  ghost function Decoded(j: G.Json, members: seq<Member>): Option<seq<bytes>> {
    if (j.Obj? || j == G.Word(NULL)) && AllFit(KeysValues(members)) then Some(Stored(KeysValues(members))) else None
  }

  lemma SeenKeys(t: bytes, at: nat, j: G.Json, members: seq<Member>, end: nat, values: seq<FieldValue>)
    requires Seen(t, at, j, members, end) && ValuesOf(t) == KeysValues(members) == values
    ensures HandlerKeys(t) == if end <= MAX_KEYS_BODY then Decoded(j, members) else None
  {
    assert AllFit(values) <==> forall k :: 0 <= k < |ValuesOf(t)| ==> Fits(ValuesOf(t)[k]);
  }

  /** What the audit reads: the first array called keys, if the text is an object that has one. */
  function Audited(members: seq<Member>): Reading {
    var v := FirstKeys(members);
    if v.Some? && v.value.ListValue? then ReadingOf(v.value.items) else NotStrings
  }

  /** For every text: the handler's key list, and the list that the audit line is about. */
  lemma TextIsDecoded(t: bytes, gap: bytes, j: G.Json, tail: bytes, end: nat)
    requires IsText(t, gap, j, tail, end)
    ensures HandlerKeys(t) == if end <= MAX_KEYS_BODY then Decoded(j, MembersIn(j)) else None
    ensures ReadKeys(t) == Audited(MembersIn(j))
  {
    var at, members := |gap|, MembersIn(j);
    TextIsSeen(t, gap, j, tail, end, at);
    SeenValues(t, at, j, members, end);
    SeenKeys(t, at, j, members, end, KeysValues(members));
    AuditReads(t, FirstKeys(members));
  }

  /** Every body the handler accepts is a text of the grammar, of an object or of null, and is decoded as such. */
  lemma AcceptedBodyIsText(body: bytes) returns (gap: bytes, j: G.Json, end: nat)
    requires HandlerKeys(body).Some?
    ensures end <= |body| && IsText(body, gap, j, body[end..], end) && (j.Obj? || j == G.Word(NULL))
    ensures HandlerKeys(body) == Decoded(j, MembersIn(j))
  {
    end := ValueEnd(body, 0).value;
    gap, j := G.ValueIs(body, 0, end);
    assert body[0..] == body;
    var at := |gap|;
    FirstOfText(body, gap, j, body[end..], at);
    TextIsDecoded(body, gap, j, body[end..], end);
  }

  lemma FirstOfText(t: bytes, gap: bytes, j: G.Json, tail: bytes, at: nat)
    requires G.Gap(gap) && G.WellFormed(j) && t == gap + G.TextThen(j, tail) && at == |gap|
    ensures at < |t| && SkipSpace(t, 0) == at
    ensures t[at] == 0x7B || t[at] == 0x6E ==> j.Obj? || j == G.Word(NULL)
  {
    assert t[0..] == t;
    G.FirstByte(j, tail);
    G.SkipGap(t, 0, gap, G.TextThen(j, tail), at);
    KindOf(t, at, j, tail);
  }

  // ---- Which bodies are accepted ----

  ghost predicate StringsAndNulls(es: G.ElementTexts) {
    es.NoElement? || ((es.value.Str? || es.value == G.Word(NULL)) && StringsAndNulls(es.others))
  }

  /** What fits a list of strings: null, or an array of strings and nulls. */
  ghost predicate KeyLike(j: G.Json) {
    j == G.Word(NULL) || (j.Arr? && StringsAndNulls(j.elements))
  }

  lemma {:induction false} ItemsThatFit(es: G.ElementTexts, items: seq<Item>)
    requires items == ItemsOf(es)
    ensures (forall k :: 0 <= k < |items| ==> !items[k].OtherItem?) <==> StringsAndNulls(es)
    decreases es
  {
    if es.ElementText? {
      var rest := ItemsOf(es.others);
      ItemsThatFit(es.others, rest);
      assert items == [ItemOf(es.value)] + rest;
      if StringsAndNulls(es) {
        forall k | 0 <= k < |items| ensures !items[k].OtherItem? {
          if k > 0 {
            assert items[k] == rest[k - 1];
          }
        }
      } else if StringsAndNulls(es.others) {
        assert items[0].OtherItem?;
      } else {
        var k :| 0 <= k < |rest| && rest[k].OtherItem?;
        assert items[k + 1] == rest[k];
      }
    }
  }

  lemma FitsKeyLike(j: G.Json)
    ensures Fits(ValueOf(j)) <==> KeyLike(j)
  {
    if j.Arr? {
      ItemsThatFit(j.elements, ItemsOf(j.elements));
    }
  }

  /** Every member that means keys holds what fits. */
  ghost predicate Acceptable(ms: G.MemberTexts) {
    ms.NoMember? || ((MeansKeys(Unquote(ms.name)) ==> KeyLike(ms.value)) && Acceptable(ms.others))
  }

  lemma {:induction false} MembersThatFit(ms: G.MemberTexts, values: seq<FieldValue>)
    requires values == KeysValues(MembersOf(ms))
    ensures AllFit(values) <==> Acceptable(ms)
    decreases ms
  {
    if ms.MemberText? {
      var rest := KeysValues(MembersOf(ms.others));
      var v := ValueOf(ms.value);
      var head := if MeansKeys(Unquote(ms.name)) then [v] else [];
      MembersThatFit(ms.others, rest);
      FitsKeyLike(ms.value);
      assert MembersOf(ms)[1..] == MembersOf(ms.others);
      assert values == head + rest;
      OneFits(v);
      AllFitConcat(head, rest);
    }
  }

  lemma OneFits(v: FieldValue)
    ensures AllFit([v]) <==> Fits(v)
  {
    assert [v][0] == v;
  }

  lemma AllFitConcat(a: seq<FieldValue>, b: seq<FieldValue>)
    ensures AllFit(a + b) <==> AllFit(a) && AllFit(b)
  {
    if AllFit(a + b) {
      forall k | 0 <= k < |a| ensures Fits(a[k]) {
        assert (a + b)[k] == a[k];
      }
      forall k | 0 <= k < |b| ensures Fits(b[k]) {
        assert (a + b)[|a| + k] == b[k];
      }
    }
  }

  /** The handler accepts exactly null and objects whose members that mean keys are null or hold strings and nulls. */
  lemma AcceptedExactly(t: bytes, gap: bytes, j: G.Json, tail: bytes, end: nat)
    requires IsText(t, gap, j, tail, end)
    ensures HandlerKeys(t).Some?
            <==> end <= MAX_KEYS_BODY && (j == G.Word(NULL) || (j.Obj? && Acceptable(j.members)))
  {
    TextIsDecoded(t, gap, j, tail, end);
    if j.Obj? {
      MembersThatFit(j.members, KeysValues(MembersOf(j.members)));
    }
  }

  // ---- Lists of strings ----

  /** The elements are strings that are read as these texts. */
  ghost predicate Strings(es: G.ElementTexts, texts: seq<bytes>) {
    if es.NoElement? then texts == []
    else texts != [] && es.value.Str? && Unquote(es.value.raw) == texts[0] && Strings(es.others, texts[1..])
  }

  /** v is the list of these strings. */
  ghost predicate Holds(v: FieldValue, texts: seq<bytes>) {
    StringList(v) && Texts(v.items) == texts
  }

  lemma {:induction false} StringsAreItems(es: G.ElementTexts, texts: seq<bytes>, items: seq<Item>)
    requires Strings(es, texts) && items == ItemsOf(es)
    ensures AllStrings(items) && Texts(items) == texts
    decreases es
  {
    if es.ElementText? {
      var rest := ItemsOf(es.others);
      StringsAreItems(es.others, texts[1..], rest);
      assert items == [BatchKeys.Str(texts[0])] + rest;
      assert Texts(items) == [texts[0]] + Texts(rest);
    }
  }

  lemma ListHolds(j: G.Json, texts: seq<bytes>)
    requires j.Arr? && Strings(j.elements, texts)
    ensures Holds(ValueOf(j), texts) && Fits(ValueOf(j))
  {
    StringsAreItems(j.elements, texts, ItemsOf(j.elements));
  }

  lemma HeldIsRead(v: FieldValue, texts: seq<bytes>)
    requires Holds(v, texts)
    ensures v.ListValue? && ReadingOf(v.items) == Closed(texts)
  {
    ReadingOfItems(v.items);
  }

  lemma HeldIsStored(values: seq<FieldValue>, texts: seq<bytes>)
    requires values != [] && Holds(values[|values| - 1], texts)
    ensures Stored(values) == texts
  {
    StoredEndsAs(values, texts);
  }

  /** A member under this name with a list of strings that are read as these texts. */
  ghost predicate Lists(ms: G.MemberTexts, name: bytes, texts: seq<bytes>) {
    ms.MemberText? && Unquote(ms.name) == name && ms.value.Arr? && Strings(ms.value.elements, texts)
  }

  lemma OneValue(name: bytes, v: FieldValue)
    requires MeansKeys(name)
    ensures KeysValues([Member(name, v)]) == [v]
    ensures FirstKeys([Member(name, v)]) == if name == KEYS then Some(v) else None
  {
    var members := [Member(name, v)];
    assert members[1..] == [];
  }

  /** An object whose only member is such a list. */
  ghost predicate OnlyLists(j: G.Json, name: bytes, texts: seq<bytes>) {
    j.Obj? && Lists(j.members, name, texts) && j.members.others.NoMember?
  }

  lemma OnlyMember(j: G.Json, name: bytes, texts: seq<bytes>) returns (v: FieldValue)
    requires OnlyLists(j, name, texts) && MeansKeys(name)
    ensures Holds(v, texts) && Decoded(j, MembersIn(j)) == Some(texts)
    ensures FirstKeys(MembersIn(j)) == if name == KEYS then Some(v) else None
  {
    v := ValueOf(j.members.value);
    ListHolds(j.members.value, texts);
    assert MembersOf(j.members.others) == [];
    assert MembersIn(j) == [Member(name, v)];
    OneValue(name, v);
    HeldIsStored([v], texts);
  }

  /** A body whose only member is called keys: the handler gets its list, and the audit line is about it. */
  lemma ClientBodyAgrees(t: bytes, gap: bytes, j: G.Json, tail: bytes, end: nat, texts: seq<bytes>)
    requires IsText(t, gap, j, tail, end) && end <= MAX_KEYS_BODY && OnlyLists(j, KEYS, texts)
    ensures HandlerKeys(t) == Some(texts) && ReadKeys(t) == Closed(texts)
  {
    KeysMeansKeys();
    var v := OnlyMember(j, KEYS, texts);
    TextIsDecoded(t, gap, j, tail, end);
    HeldIsRead(v, texts);
  }

  /** Under any other name that the decoder takes for keys, the keys are deleted and nothing is logged. */
  lemma OtherNameIsNotLogged(t: bytes, gap: bytes, j: G.Json, tail: bytes, end: nat, name: bytes, texts: seq<bytes>,
                             complete: bool)
    requires IsText(t, gap, j, tail, end) && end <= MAX_KEYS_BODY && OnlyLists(j, name, texts)
    requires MeansKeys(name) && name != KEYS
    ensures HandlerKeys(t) == Some(texts) && SummaryOf(ReadKeys(t), complete) == NoSummary
  {
    var v := OnlyMember(j, name, texts);
    TextIsDecoded(t, gap, j, tail, end);
  }

  /** An object of two members called keys. */
  ghost predicate ListsTwice(j: G.Json, first: seq<bytes>, second: seq<bytes>) {
    j.Obj? && Lists(j.members, KEYS, first) && Lists(j.members.others, KEYS, second)
    && j.members.others.others.NoMember?
  }

  lemma TwoValues(v: FieldValue, w: FieldValue)
    ensures var members := [Member(KEYS, v)] + [Member(KEYS, w)];
            KeysValues(members) == [v, w] && FirstKeys(members) == Some(v)
  {
    KeysMeansKeys();
    var members := [Member(KEYS, v)] + [Member(KEYS, w)];
    assert members[1..] == [Member(KEYS, w)];
    OneValue(KEYS, w);
  }

  lemma BothMembers(j: G.Json, first: seq<bytes>, second: seq<bytes>) returns (v: FieldValue)
    requires ListsTwice(j, first, second)
    ensures Holds(v, first) && FirstKeys(MembersIn(j)) == Some(v) && Decoded(j, MembersIn(j)) == Some(second)
  {
    var ms := j.members;
    v := ValueOf(ms.value);
    var w := ValueOf(ms.others.value);
    ListHolds(ms.value, first);
    ListHolds(ms.others.value, second);
    assert MembersOf(ms.others.others) == [];
    assert MembersOf(ms.others) == [Member(KEYS, w)];
    assert MembersIn(j) == [Member(KEYS, v)] + [Member(KEYS, w)];
    TwoValues(v, w);
    HeldIsStored([v, w], second);
  }

  /** Of two members called keys the audit line is about the first, and the handler gets the second. */
  lemma SecondMemberWins(t: bytes, gap: bytes, j: G.Json, tail: bytes, end: nat,
                         first: seq<bytes>, second: seq<bytes>)
    requires IsText(t, gap, j, tail, end) && end <= MAX_KEYS_BODY && ListsTwice(j, first, second)
    ensures HandlerKeys(t) == Some(second) && ReadKeys(t) == Closed(first)
  {
    var v := BothMembers(j, first, second);
    TextIsDecoded(t, gap, j, tail, end);
    HeldIsRead(v, first);
  }

  /** The names that the decoder takes for keys, by code points: either case, the kelvin sign, and the long s. */
  lemma NamesForKeys()
    ensures FORMS_OF_K == {Encode('k' as int), Encode('K' as int), Encode(0x212A)}
    ensures FORMS_OF_E == {Encode('e' as int), Encode('E' as int)}
    ensures FORMS_OF_Y == {Encode('y' as int), Encode('Y' as int)}
    ensures FORMS_OF_S == {Encode('s' as int), Encode('S' as int), Encode(0x17F)}
  {
  }

  // ---- From spellings ----

  /** A string of a list: its spelling, and the white space around it. */
  datatype Spaced = Spaced(before: bytes, content: seq<Spelling>, after: bytes)

  predicate FineList(list: seq<Spaced>) {
    forall k :: 0 <= k < |list| ==> G.Gap(list[k].before) && Spelled(list[k].content) && G.Gap(list[k].after)
  }

  function ElementsOf(list: seq<Spaced>): G.ElementTexts
    requires FineList(list)
  {
    if list == [] then G.NoElement
    else G.ElementText(list[0].before, G.Str(Content(list[0].content)), list[0].after, ElementsOf(list[1..]))
  }

  function MeantBy(list: seq<Spaced>): seq<bytes>
    requires FineList(list)
  {
    seq(|list|, k requires 0 <= k < |list| => Meant(list[k].content))
  }

  /** However each code point of each string is spelled, the elements are read as the texts. */
  lemma {:induction false} SpelledListIsStrings(list: seq<Spaced>, texts: seq<bytes>)
    requires FineList(list) && texts == MeantBy(list)
    ensures G.FineElements(ElementsOf(list)) && Strings(ElementsOf(list), texts)
  {
    if list != [] {
      var rest := list[1..];
      SpelledListIsStrings(rest, texts[1..]);
      assert texts[1..] == MeantBy(rest);
      ContentIsRead(list[0].content);
      assert G.Writes(Content(list[0].content));
    }
  }

  /** The body with one member: name, list and everything between them as they are spelled and spaced. */
  lemma SpelledBodyIsGot(name: seq<Spelling>, list: seq<Spaced>, gaps: seq<bytes>, tail: bytes, t: bytes, end: nat)
    requires Spelled(name) && Meant(name) == KEYS && FineList(list)
    requires |gaps| == 6 && (forall k :: 0 <= k < 6 ==> G.Gap(gaps[k])) && (list != [] ==> gaps[4] == [])
    requires t == gaps[0] + G.TextThen(
                              G.Obj([], G.MemberText(gaps[1], Content(name), gaps[2], gaps[3],
                                                     G.Arr(gaps[4], ElementsOf(list)), gaps[5], G.NoMember)), tail)
    requires end + |tail| == |t| && end <= MAX_KEYS_BODY
    ensures HandlerKeys(t) == Some(MeantBy(list)) && ReadKeys(t) == Closed(MeantBy(list))
  {
    var texts := MeantBy(list);
    SpelledListIsStrings(list, texts);
    ContentIsRead(name);
    assert G.Writes(Content(name));
    var arr := G.Arr(gaps[4], ElementsOf(list));
    var ms := G.MemberText(gaps[1], Content(name), gaps[2], gaps[3], arr, gaps[5], G.NoMember);
    ListIsWellFormed(list, gaps[4], arr);
    assert G.FineMembers(ms.others);
    assert G.WellFormed(G.Obj([], ms));
    ClientBodyAgrees(t, gaps[0], G.Obj([], ms), tail, end, texts);
  }

  lemma ListIsWellFormed(list: seq<Spaced>, gap: bytes, arr: G.Json)
    requires FineList(list) && G.Gap(gap) && (list != [] ==> gap == []) && G.FineElements(ElementsOf(list))
    requires arr == G.Arr(gap, ElementsOf(list))
    ensures G.WellFormed(arr)
  {
  }

  // ---- Bodies that are the array itself ----

  /** For every text of an array: the audit reads its elements. */
  lemma ArrayTextIsRead(t: bytes, gap: bytes, j: G.Json, tail: bytes, end: nat, at: nat)
    requires IsText(t, gap, j, tail, end) && j.Arr? && at == |gap|
    ensures ReadArray(t) == ReadingOf(ItemsOf(j.elements))
  {
    assert t[0..] == t;
    G.GapValue(t, 0, gap, j, tail, at, end);
    KindOf(t, at, j, tail);
    ListItemsAre(t, at, j, tail, end);
    ReadList(t, at + 1);
    OpenedArray(t, at, at + 1);
  }

  lemma OpenedArray(t: bytes, at: nat, from: nat)
    requires at < |t| && SkipSpace(t, 0) == at && t[at] == 0x5B && from == at + 1
    ensures ReadArray(t) == Read(t, from, AtStart)
  {
  }

  /** White space and a bracket, whatever comes behind. */
  ghost predicate BeginsWithBracket(t: bytes, gap: bytes, rest: bytes) {
    G.Gap(gap) && t == gap + ([0x5B] + rest)
  }

  /** A body that does not begin with a bracket has no summary. */
  lemma OnlyArraysAreRead(t: bytes)
    ensures !ReadArray(t).NotStrings? ==> exists gap, rest :: BeginsWithBracket(t, gap, rest)
  {
    var at := SkipSpace(t, 0);
    if !ReadArray(t).NotStrings? {
      var gap := G.GapIs(t, 0, at);
      assert t[0..] == t && t[at..] == [0x5B] + t[at..][1..];
      assert BeginsWithBracket(t, gap, t[at..][1..]);
    }
  }

  /** A value that is no string begins at i. */
  ghost predicate OtherValueAt(t: bytes, i: nat) {
    i < |t| && (t[i] == 0x5B || t[i] == 0x7B || exists j, end: nat :: ScalarText(t, i, j, end))
  }

  ghost predicate ScalarText(t: bytes, i: nat, j: G.Json, end: nat)
    requires i <= |t|
  {
    && (j.Word? || j.Num?) && G.WellFormed(j) && end <= |t|
    && t[i..] == G.TextThen(j, t[end..]) && G.Closes(j, t[end..])
  }

  lemma ScalarTextIsScalar(t: bytes, i: nat, j: G.Json, end: nat)
    requires i <= |t| && ScalarText(t, i, j, end)
    ensures i < |t| && ScalarEnd(t, i).Some? && t[i] != QUOTE && t[i] !in {0x2C, 0x3A, 0x5B, 0x5D, 0x7B, 0x7D}
  {
    G.ValueComplete(t, i, j, t[end..], end);
    KindOf(t, i, j, t[end..]);
    G.FirstByte(j, t[end..]);
    assert t[i] == t[i..][0];
  }

  /**
   Where the reading of an array stops: at the bracket, at a value that is no string, or at anything
   else, the end of the text included; a bracket right behind a comma is such a thing.
   */
  lemma WhereReadingStops(t: bytes, i: nat, place: Place, at: nat)
    requires i <= |t| && at == SkipSpace(t, i) && (at < |t| ==> t[at] != QUOTE || place.AtComma?)
    requires at < |t| && place.AtComma? ==> t[at] != 0x2C
    ensures at < |t| && t[at] == 0x5D && !place.AtValue? ==> Read(t, i, place) == Closed([])
    ensures OtherValueAt(t, at) && !place.AtComma? ==> Read(t, i, place) == NotStrings
    ensures !(at < |t| && t[at] == 0x5D && !place.AtValue?) && (place.AtComma? || !OtherValueAt(t, at)) ==>
              Read(t, i, place) == Broken([])
  {
    TokenAtOnce(t, i, at, place);
    if at < |t| && !place.AtComma? {
      if ScalarEnd(t, at).Some? && t[at] !in {0x5B, 0x5D, 0x7B} {
        NoScalarWithout(t, at);
      }
      if OtherValueAt(t, at) && t[at] != 0x5B && t[at] != 0x7B {
        var j, end: nat :| ScalarText(t, at, j, end);
        ScalarTextIsScalar(t, at, j, end);
      }
    }
  }

  /** What the scanner takes for a word or number is one of the grammar. */
  lemma NoScalarWithout(t: bytes, i: nat)
    requires ScalarEnd(t, i).Some?
    ensures OtherValueAt(t, i)
  {
    var end := ScalarEnd(t, i).value;
    var j := G.ScalarIs(t, i, end);
    assert ScalarText(t, i, j, end);
  }

  /** A list of strings is read as its texts, however it is spaced and spelled. */
  lemma SpelledListIsRead(list: seq<Spaced>, gap: bytes, inner: bytes, tail: bytes, t: bytes)
    requires FineList(list) && G.Gap(gap) && G.Gap(inner) && (list != [] ==> inner == [])
    requires t == gap + G.TextThen(G.Arr(inner, ElementsOf(list)), tail)
    ensures ReadArray(t) == Closed(MeantBy(list))
  {
    var texts, j := MeantBy(list), G.Arr(inner, ElementsOf(list));
    SpelledListIsStrings(list, texts);
    ListIsWellFormed(list, inner, j);
    G.RestIsBehind(gap, j, tail);
    ArrayTextIsRead(t, gap, j, tail, |t| - |tail|, |gap|);
    StringsAreItems(j.elements, texts, ItemsOf(j.elements));
    ReadingOfItems(ItemsOf(j.elements));
  }
}
