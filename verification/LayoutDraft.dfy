/**
 frontend/src/lib/layout-draft.ts: the edit form of the cluster layout, against Garage's staged
 set, in which a staged role equal to the applied one disappears.
 */
module LayoutDraft {
  import opened Options

  /** A capacity of None is a gateway. */
  datatype Role = Role(zone: string, tags: seq<string>, capacity: Option<int>)

  /** What is sent to Garage for one node: its role in the next layout, None to remove it. */
  datatype Change = Change(id: string, target: Option<Role>)

  // ---- Garage's layout ----

  datatype Layout = Layout(applied: map<string, Role>, staged: map<string, Option<Role>>)

  function Applied(l: Layout, id: string): Option<Role> {
    if id in l.applied then Some(l.applied[id]) else None
  }

  function StagedAt(l: Layout, id: string): Option<Option<Role>> {
    if id in l.staged then Some(l.staged[id]) else None
  }

  /** Only staged roles that differ from the applied layout are reported. */
  ghost predicate Reported(l: Layout) {
    forall id :: id in l.staged ==> l.staged[id] != Applied(l, id)
  }

  /** The role the next layout version would give the node. */
  function NextRole(l: Layout, id: string): Option<Role> {
    if id in l.staged then l.staged[id] else Applied(l, id)
  }

  function Stage(l: Layout, c: Change): Layout {
    if c.target == Applied(l, c.id) then l.(staged := l.staged - {c.id})
    else l.(staged := l.staged[c.id := c.target])
  }

  function StageAll(l: Layout, changes: seq<Change>): Layout {
    if changes == [] then l else Stage(StageAll(l, changes[..|changes| - 1]), changes[|changes| - 1])
  }

  lemma {:induction false} StageAllEffect(l: Layout, changes: seq<Change>, id: string)
    requires DistinctChanges(changes)
    ensures StageAll(l, changes).applied == l.applied
    ensures (forall i :: 0 <= i < |changes| ==> changes[i].id != id) ==>
        NextRole(StageAll(l, changes), id) == NextRole(l, id)
    ensures forall i :: 0 <= i < |changes| && changes[i].id == id ==>
        NextRole(StageAll(l, changes), id) == changes[i].target
  {
    if changes != [] {
      StageAllEffect(l, changes[..|changes| - 1], id);
    }
  }

  // ---- Strings of the form ----

  /** The characters JavaScript's trim removes: white space and line terminators. */
  predicate IsSpace(c: char) {
    var n := c as int;
    9 <= n <= 13 || n == 32 || n == 0xA0 || n == 0x1680 || 0x2000 <= n <= 0x200A ||
    n == 0x2028 || n == 0x2029 || n == 0x202F || n == 0x205F || n == 0x3000 || n == 0xFEFF
  }

  /** Exactly the white space and line terminators of ECMAScript, sections 12.2 and 12.3. */
  lemma SpacesAre(c: char)
    ensures IsSpace(c) <==>
      c in {'\t', '\n', '\U{000B}', '\U{000C}', '\r', ' ', '\U{00A0}', '\U{1680}', '\U{2000}', '\U{2001}', '\U{2002}',
            '\U{2003}', '\U{2004}', '\U{2005}', '\U{2006}', '\U{2007}', '\U{2008}', '\U{2009}', '\U{200A}', '\U{2028}',
            '\U{2029}', '\U{202F}', '\U{205F}', '\U{3000}', '\U{FEFF}'}
  {
  }

  function TrimStart(s: string): string {
    if s != "" && IsSpace(s[0]) then TrimStart(s[1..]) else s
  }

  function TrimEnd(s: string): string {
    if s != "" && IsSpace(s[|s| - 1]) then TrimEnd(s[..|s| - 1]) else s
  }

  function Trim(s: string): string {
    TrimEnd(TrimStart(s))
  }

  predicate Trimmed(s: string) {
    s == "" || (!IsSpace(s[0]) && !IsSpace(s[|s| - 1]))
  }

  lemma {:induction false} TrimStartFacts(s: string)
    ensures var t := TrimStart(s); (t == "" || !IsSpace(t[0])) && forall c :: c in t ==> c in s
  {
    if s != "" && IsSpace(s[0]) {
      TrimStartFacts(s[1..]);
    }
  }

  lemma {:induction false} TrimEndFacts(s: string)
    ensures var t := TrimEnd(s); t <= s && (t == "" || !IsSpace(t[|t| - 1]))
  {
    if s != "" && IsSpace(s[|s| - 1]) {
      TrimEndFacts(s[..|s| - 1]);
    }
  }

  lemma TrimFacts(s: string)
    ensures Trimmed(Trim(s))
    ensures forall c :: c in Trim(s) ==> c in s
    ensures Trimmed(s) ==> Trim(s) == s
    ensures s != "" && IsSpace(s[0]) ==> Trim(s) == Trim(s[1..])
  {
    TrimStartFacts(s);
    TrimEndFacts(TrimStart(s));
  }

  function Join(tags: seq<string>): string {
    if tags == [] then "" else if |tags| == 1 then tags[0] else tags[0] + ", " + Join(tags[1..])
  }

  /** JavaScript's split on a comma: always at least one piece. */
  function Split(s: string): (pieces: seq<string>)
    ensures |pieces| > 0
  {
    if s == "" then [""]
    else if s[0] == ',' then [""] + Split(s[1..])
    else var rest := Split(s[1..]); [[s[0]] + rest[0]] + rest[1..]
  }

  function TrimNonBlank(pieces: seq<string>): seq<string> {
    if pieces == [] then []
    else (if Trim(pieces[0]) == "" then [] else [Trim(pieces[0])]) + TrimNonBlank(pieces[1..])
  }

  function ParseTags(s: string): seq<string> {
    TrimNonBlank(Split(s))
  }

  /** A tag the form can hold: not blank, no blanks around it, no comma in it. */
  predicate CleanTag(t: string) {
    t != "" && Trimmed(t) && ',' !in t
  }

  predicate CleanTags(tags: seq<string>) {
    forall i :: 0 <= i < |tags| ==> CleanTag(tags[i])
  }

  lemma {:induction false} SplitPieces(s: string)
    ensures forall i :: 0 <= i < |Split(s)| ==> ',' !in Split(s)[i]
  {
    if s != "" {
      SplitPieces(s[1..]);
    }
  }

  lemma {:induction false} SplitAtComma(a: string, b: string)
    requires ',' !in a
    ensures Split(a) == [a]
    ensures Split(a + "," + b) == [a] + Split(b)
  {
    if a == "" {
      assert (a + "," + b)[1..] == b;
    } else {
      SplitAtComma(a[1..], b);
      assert (a + "," + b)[1..] == a[1..] + "," + b;
      assert [a[0]] + a[1..] == a;
    }
  }

  lemma {:induction false} ParsedTagsAreClean(pieces: seq<string>)
    requires forall i :: 0 <= i < |pieces| ==> ',' !in pieces[i]
    ensures CleanTags(TrimNonBlank(pieces))
  {
    if pieces != [] {
      ParsedTagsAreClean(pieces[1..]);
      TrimFacts(pieces[0]);
    }
  }

  lemma BlankHasNoTags(s: string)
    requires s == "" || s == " "
    ensures ParseTags(s) == []
  {
    SplitAtComma(s, "");
    TrimFacts(s);
    TrimFacts("");
    var pieces := [s];
    assert Split(s) == pieces && pieces[1..] == [];
    if s == " " {
      assert s[1..] == "";
    }
    assert Trim(pieces[0]) == "";
    var none: seq<string> := [];
    assert TrimNonBlank(pieces) == none + TrimNonBlank(none);
  }

  lemma OneTag(first: string, tag: string)
    requires ',' !in first && Trim(first) == tag && tag != ""
    ensures ParseTags(first) == [tag]
  {
    SplitAtComma(first, "");
    var none: seq<string> := [];
    FirstPiece(first, none);
    assert [first] + none == [first];
  }

  lemma FirstPiece(first: string, rest: seq<string>)
    requires Trim(first) != ""
    ensures TrimNonBlank([first] + rest) == [Trim(first)] + TrimNonBlank(rest)
  {
    assert ([first] + rest)[1..] == rest;
  }

  /** One more tag in front of a list that is read back. */
  lemma TagInFront(tags: seq<string>, lead: string, first: string, rest: string)
    requires CleanTags(tags) && |tags| > 1 && (lead == "" || lead == " ") && first == lead + tags[0]
    requires ParseTags(rest) == tags[1..]
    ensures ParseTags(first + "," + rest) == tags
  {
    TrimFacts(first);
    TrimFacts(tags[0]);
    assert lead == " " ==> first[1..] == tags[0];
    assert lead == "" ==> first == tags[0];
    SplitAtComma(first, rest);
    FirstPiece(first, Split(rest));
    assert tags == [tags[0]] + tags[1..];
  }

  /** Reading back a joined list, with or without the blank a separator leaves in front of it. */
  lemma {:induction false} JoinedTagsParse(tags: seq<string>, lead: string)
    requires CleanTags(tags) && (lead == "" || lead == " ")
    ensures ParseTags(lead + Join(tags)) == tags
  {
    var text := lead + Join(tags);
    if tags == [] {
      assert text == lead;
      BlankHasNoTags(lead);
    } else {
      var first := lead + tags[0];
      if |tags| == 1 {
        TrimFacts(first);
        TrimFacts(tags[0]);
        assert lead == " " ==> first[1..] == tags[0];
        assert lead == "" ==> first == tags[0];
        assert text == first;
        OneTag(first, tags[0]);
      } else {
        var rest := " " + Join(tags[1..]);
        JoinedTagsParse(tags[1..], " ");
        assert text == first + "," + rest;
        TagInFront(tags, lead, first, rest);
      }
    }
  }

  /** The form gives a tag list back exactly when every tag is one it can hold. */
  lemma TagsSurviveTheForm(tags: seq<string>)
    ensures ParseTags(Join(tags)) == tags <==> CleanTags(tags)
  {
    SplitPieces(Join(tags));
    ParsedTagsAreClean(Split(Join(tags)));
    if CleanTags(tags) {
      JoinedTagsParse(tags, "");
      assert "" + Join(tags) == Join(tags);
    }
  }

  // ---- Drafts ----

  /**
   The two number conversions of the form: show renders bytes as GiB rounded to two decimals,
   read gives the bytes of a finite positive number of GiB and None for any other text.
   */
  datatype Numbers = Numbers(show: int -> string, read: string -> Option<int>)

  datatype Fields = Fields(zone: string, capacityGiB: string, tags: string)
  datatype Draft = Draft(id: string, applied: Option<Role>, effective: Option<Role>,
                         original: Fields, originalCapacity: Option<int>, fields: Fields, remove: bool)

  /** The role the form is filled from: the staged one, else the applied one. */
  function Source(applied: Option<Role>, effective: Option<Role>): Option<Role> {
    if effective.Some? then effective else applied
  }

  function FieldsOf(role: Option<Role>, nums: Numbers): Fields {
    match role
    case None => Fields("", "", "")
    case Some(r) =>
      Fields(r.zone, if r.capacity.Some? then nums.show(r.capacity.value) else "", Join(r.tags))
  }

  function DraftFromNode(id: string, applied: Option<Role>, staged: Option<Option<Role>>, nums: Numbers): Draft {
    var stagedRemove := staged == Some(None);
    var effective := if stagedRemove then None else if staged.Some? then staged.value else applied;
    var source := Source(applied, effective);
    var fields := FieldsOf(source, nums);
    Draft(id, applied, effective, fields, if source.Some? then source.value.capacity else None, fields, stagedRemove)
  }

  datatype Problem = CapacityNotPositive | ZoneMissing
  datatype Outcome = Nothing | Staged(change: Change) | Invalid(problem: Problem)

  predicate WasRemoved(d: Draft) {
    d.effective.None? && d.applied.Some?
  }

  function DraftToChange(d: Draft, nums: Numbers): (o: Outcome)
    ensures o.Staged? ==> o.change.id == d.id
  {
    if d.remove then
      if WasRemoved(d) then Nothing
      else if d.applied.Some? then Staged(Change(d.id, None)) else Nothing
    else if d.fields == d.original && !WasRemoved(d) then Nothing
    else if d.fields == d.original && WasRemoved(d) && Trim(d.fields.zone) == "" then Nothing
    else
      var kept := d.fields.capacityGiB == d.original.capacityGiB && d.originalCapacity.Some?;
      var blank := Trim(d.fields.capacityGiB) == "";
      if !kept && !blank && nums.read(d.fields.capacityGiB).None? then Invalid(CapacityNotPositive)
      else if Trim(d.fields.zone) == "" then
        if d.effective.None? && d.applied.None? then Nothing else Invalid(ZoneMissing)
      else
        var capacity := if kept then d.originalCapacity else if blank then None else nums.read(d.fields.capacityGiB);
        Staged(Change(d.id, Some(Role(Trim(d.fields.zone), ParseTags(d.fields.tags), capacity))))
  }

  /** d is the row of node d.id on this layout, with whatever the operator typed and ticked. */
  ghost predicate EditedRow(l: Layout, d: Draft, nums: Numbers) {
    d == DraftFromNode(d.id, Applied(l, d.id), StagedAt(l, d.id), nums).(fields := d.fields, remove := d.remove)
  }

  predicate CleanRole(r: Role) {
    Trimmed(r.zone) && CleanTags(r.tags)
  }

  ghost predicate CleanLayout(l: Layout) {
    forall id :: (id in l.applied ==> CleanRole(l.applied[id])) &&
                 (id in l.staged && l.staged[id].Some? ==> CleanRole(l.staged[id].value))
  }

  /**
   What the row says the node should become. A field left as it was keeps the value it was filled
   from, bytes and tag list included; an edited one means what was typed. A row without a role
   stays without one as long as its zone is blank.
   */
  ghost function Intended(d: Draft, nums: Numbers): Option<Role> {
    var source := Source(d.applied, d.effective);
    if d.remove then None
    else if source.None? && Trim(d.fields.zone) == "" then None
    else if source.Some? && d.fields == d.original then source
    else
      Some(Role(
             if source.Some? && d.fields.zone == d.original.zone then source.value.zone else Trim(d.fields.zone),
             if source.Some? && d.fields.tags == d.original.tags then source.value.tags else ParseTags(d.fields.tags),
             if source.Some? && d.fields.capacityGiB == d.original.capacityGiB then source.value.capacity
             else if Trim(d.fields.capacityGiB) == "" then None
             else nums.read(d.fields.capacityGiB)))
  }

  /** A row nobody touched stages nothing, whatever is applied and staged for the node. */
  lemma UntouchedStagesNothing(id: string, applied: Option<Role>, staged: Option<Option<Role>>, nums: Numbers)
    ensures DraftToChange(DraftFromNode(id, applied, staged, nums), nums) == Nothing
  {
  }

  /**
   The rows whose wish the form drops: removal ticked on a node that has a staged role but no
   applied one, and the removal of a node with a blank zone unticked without an edit.
   */
  predicate Dropped(d: Draft) {
    (d.remove && d.applied.None? && d.effective.Some?) ||
    (!d.remove && WasRemoved(d) && d.fields == d.original && Trim(d.fields.zone) == "")
  }

  /** The role the next layout has for the row's node once the row's outcome is sent. */
  function After(l: Layout, d: Draft, outcome: Outcome): Option<Role> {
    if outcome.Staged? then NextRole(Stage(l, outcome.change), d.id) else NextRole(l, d.id)
  }

  lemma StageTakesEffect(l: Layout, c: Change)
    ensures NextRole(Stage(l, c), c.id) == c.target
  {
  }

  /** A staged change is the role that the row says. */
  lemma StagedAsIntended(l: Layout, d: Draft, nums: Numbers)
    requires CleanLayout(l) && EditedRow(l, d, nums) && DraftToChange(d, nums).Staged?
    ensures DraftToChange(d, nums).change == Change(d.id, Intended(d, nums)) && !Dropped(d)
  {
    var source := Source(d.applied, d.effective);
    if source.Some? {
      TagsSurviveTheForm(source.value.tags);
      TrimFacts(source.value.zone);
    }
    TrimFacts("");
  }

  /** A row that stages nothing is as intended already, unless it is a dropped one. */
  lemma NothingAsIntended(l: Layout, d: Draft, nums: Numbers)
    requires CleanLayout(l) && EditedRow(l, d, nums) && DraftToChange(d, nums).Nothing?
    ensures NextRole(l, d.id) == Intended(d, nums) <==> !Dropped(d)
  {
    assert d.effective == NextRole(l, d.id);
    TrimFacts("");
  }

  /** A row that is not refused takes effect as intended exactly when it is not a dropped one. */
  lemma RowTakesEffect(l: Layout, d: Draft, nums: Numbers)
    requires CleanLayout(l) && EditedRow(l, d, nums) && !DraftToChange(d, nums).Invalid?
    ensures After(l, d, DraftToChange(d, nums)) == Intended(d, nums) <==> !Dropped(d)
    ensures DraftToChange(d, nums).Staged? ==> DraftToChange(d, nums).change == Change(d.id, Intended(d, nums))
  {
    var outcome := DraftToChange(d, nums);
    if outcome.Staged? {
      StagedAsIntended(l, d, nums);
      StageTakesEffect(l, outcome.change);
    } else {
      NothingAsIntended(l, d, nums);
    }
  }

  predicate Blank(s: string) {
    forall c :: c in s ==> IsSpace(c)
  }

  lemma {:induction false} TrimEndNotBlank(s: string)
    requires !Blank(s)
    ensures TrimEnd(s) != ""
  {
    if IsSpace(s[|s| - 1]) {
      assert s == s[..|s| - 1] + [s[|s| - 1]];
      TrimEndNotBlank(s[..|s| - 1]);
    }
  }

  lemma {:induction false} BlankIsTrimmedAway(s: string)
    ensures Trim(s) == "" <==> Blank(s)
  {
    if s != "" {
      if IsSpace(s[0]) {
        BlankIsTrimmedAway(s[1..]);
        assert s == [s[0]] + s[1..];
      } else {
        assert s[0] in s;
        TrimEndNotBlank(s);
      }
    }
  }

  /** The row asks for a role: it is not ticked for removal, and an edit or the tick taken off says so. */
  predicate Asks(d: Draft) {
    !d.remove && (d.fields != d.original || (WasRemoved(d) && !Blank(d.fields.zone)))
  }

  /** The capacity was edited to a text that is no number of GiB. */
  predicate BadCapacity(d: Draft, nums: Numbers) {
    d.fields.capacityGiB != d.original.capacityGiB && !Blank(d.fields.capacityGiB)
    && nums.read(d.fields.capacityGiB).None?
  }

  predicate HasRole(l: Layout, id: string) {
    Applied(l, id).Some? || NextRole(l, id).Some?
  }

  /** The untouched capacity field of a node without a capacity is blank. */
  lemma GatewayFieldIsBlank(l: Layout, d: Draft, nums: Numbers)
    requires EditedRow(l, d, nums) && d.originalCapacity.None?
    ensures d.original.capacityGiB == "" && Blank(d.original.capacityGiB)
  {
  }

  /**
   Which rows are refused, by what was typed: exactly those that ask for a role with a capacity edited
   to no number, or without a zone on a node that has a role.
   */
  lemma RefusedExactly(l: Layout, d: Draft, nums: Numbers)
    requires EditedRow(l, d, nums)
    ensures var o := DraftToChange(d, nums);
            && (o == Invalid(CapacityNotPositive) <==> Asks(d) && BadCapacity(d, nums))
            && (o == Invalid(ZoneMissing)
                <==> Asks(d) && !BadCapacity(d, nums) && Blank(d.fields.zone) && HasRole(l, d.id))
  {
    BlankIsTrimmedAway(d.fields.zone);
    BlankIsTrimmedAway(d.fields.capacityGiB);
    if d.originalCapacity.None? {
      GatewayFieldIsBlank(l, d, nums);
    }
  }

  /** Which rows are staged: those that ask for a role with a zone and a usable capacity, and removals of a role. */
  lemma StagedExactly(l: Layout, d: Draft, nums: Numbers)
    requires EditedRow(l, d, nums)
    ensures DraftToChange(d, nums).Staged?
            <==> (Asks(d) && !BadCapacity(d, nums) && !Blank(d.fields.zone))
                 || (d.remove && Applied(l, d.id).Some? && NextRole(l, d.id).Some?)
  {
    RefusedExactly(l, d, nums);
    BlankIsTrimmedAway(d.fields.zone);
    BlankIsTrimmedAway(d.fields.capacityGiB);
    if d.originalCapacity.None? {
      GatewayFieldIsBlank(l, d, nums);
    }
  }

  /** A row turns a node into a gateway only with a blank capacity, and then unless it keeps one. */
  lemma GatewayOnlyIfBlank(l: Layout, d: Draft, nums: Numbers)
    requires EditedRow(l, d, nums) && DraftToChange(d, nums).Staged? && !d.remove
    ensures DraftToChange(d, nums).change.target.Some?
    ensures DraftToChange(d, nums).change.target.value.capacity.None?
            <==> Blank(d.fields.capacityGiB)
                 && (d.fields.capacityGiB == d.original.capacityGiB ==> d.originalCapacity.None?)
  {
    BlankIsTrimmedAway(d.fields.capacityGiB);
    if d.originalCapacity.None? {
      GatewayFieldIsBlank(l, d, nums);
    }
  }

  /** The first kind of dropped row: the staged addition of a node stays although removal is ticked. */
  lemma StagedAdditionCannotBeRemoved(nums: Numbers)
    ensures exists l: Layout, d: Draft ::
              Reported(l) && CleanLayout(l) && EditedRow(l, d, nums) && d.remove &&
              DraftToChange(d, nums) == Nothing && NextRole(l, d.id).Some?
  {
    var role := Role("dc1", [], None);
    var l := Layout(map[], map["a" := Some(role)]);
    var d := DraftFromNode("a", Applied(l, "a"), StagedAt(l, "a"), nums).(remove := true);
    assert EditedRow(l, d, nums);
    assert NextRole(l, d.id).Some?;
  }

  /** An untouched capacity field keeps the exact bytes, whatever else of the row was edited. */
  lemma BytesAreKept(l: Layout, d: Draft, nums: Numbers)
    requires EditedRow(l, d, nums) && d.fields.capacityGiB == d.original.capacityGiB
    requires DraftToChange(d, nums).Staged? && !d.remove
    ensures DraftToChange(d, nums).change.target.value.capacity == d.originalCapacity
  {
    TrimFacts("");
  }

  // ---- Staging the whole form ----

  ghost predicate DistinctRows(drafts: seq<Draft>) {
    forall i, j :: 0 <= i < j < |drafts| ==> drafts[i].id != drafts[j].id
  }

  function ChangesOf(drafts: seq<Draft>, nums: Numbers): seq<Change> {
    if drafts == [] then []
    else
      ChangesOf(drafts[..|drafts| - 1], nums)
      + var o := DraftToChange(drafts[|drafts| - 1], nums); if o.Staged? then [o.change] else []
  }

  /** The loop of submitStage: nothing is sent when any row is refused. */
  method CollectChanges(drafts: seq<Draft>, nums: Numbers) returns (changes: Option<seq<Change>>)
    ensures changes.None? <==> exists i :: 0 <= i < |drafts| && DraftToChange(drafts[i], nums).Invalid?
    ensures changes.Some? ==> changes.value == ChangesOf(drafts, nums)
  {
    var roles: seq<Change> := [];
    for i := 0 to |drafts|
      invariant roles == ChangesOf(drafts[..i], nums)
      invariant forall j :: 0 <= j < i ==> !DraftToChange(drafts[j], nums).Invalid?
    {
      assert drafts[..i + 1][..i] == drafts[..i];
      var c := DraftToChange(drafts[i], nums);
      if c.Invalid? {
        return None;
      }
      if c.Staged? {
        roles := roles + [c.change];
      }
    }
    assert drafts[..|drafts|] == drafts;
    changes := Some(roles);
  }

  ghost predicate ComesFromRow(c: Change, drafts: seq<Draft>, nums: Numbers) {
    exists k :: 0 <= k < |drafts| && drafts[k].id == c.id && DraftToChange(drafts[k], nums) == Staged(c)
  }

  lemma {:induction false} ChangesComeFromRows(drafts: seq<Draft>, nums: Numbers)
    ensures forall i :: 0 <= i < |ChangesOf(drafts, nums)| ==> ComesFromRow(ChangesOf(drafts, nums)[i], drafts, nums)
  {
    if drafts != [] {
      var n := |drafts| - 1;
      ChangesComeFromRows(drafts[..n], nums);
      var before, cs := ChangesOf(drafts[..n], nums), ChangesOf(drafts, nums);
      forall i | 0 <= i < |cs| ensures ComesFromRow(cs[i], drafts, nums) {
        if i < |before| {
          assert cs[i] == before[i] && ComesFromRow(before[i], drafts[..n], nums);
          var k :| 0 <= k < n && drafts[..n][k].id == cs[i].id && DraftToChange(drafts[..n][k], nums) == Staged(cs[i]);
          assert drafts[k] == drafts[..n][k];
        } else {
          assert DraftToChange(drafts[n], nums) == Staged(cs[i]);
        }
      }
    }
  }

  /** Staged rows all reach Garage, each node at most once. */
  lemma {:induction false} RowsReachChanges(drafts: seq<Draft>, nums: Numbers, k: nat)
    requires k < |drafts| && DraftToChange(drafts[k], nums).Staged?
    ensures DraftToChange(drafts[k], nums).change in ChangesOf(drafts, nums)
  {
    var n := |drafts| - 1;
    if k < n {
      RowsReachChanges(drafts[..n], nums, k);
    }
  }

  ghost predicate DistinctChanges(changes: seq<Change>) {
    forall i, j :: 0 <= i < j < |changes| ==> changes[i].id != changes[j].id
  }

  lemma {:induction false} ChangesAreDistinct(drafts: seq<Draft>, nums: Numbers)
    requires DistinctRows(drafts)
    ensures DistinctChanges(ChangesOf(drafts, nums))
  {
    if drafts != [] {
      var n := |drafts| - 1;
      ChangesAreDistinct(drafts[..n], nums);
      ChangesComeFromRows(drafts[..n], nums);
      var before, cs := ChangesOf(drafts[..n], nums), ChangesOf(drafts, nums);
      forall i, j | 0 <= i < j < |cs| ensures cs[i].id != cs[j].id {
        if j == |before| {
          assert ComesFromRow(before[i], drafts[..n], nums);
        }
      }
    }
  }

  /** A row that stages nothing leaves no change for its node. */
  lemma OthersDoNotChange(drafts: seq<Draft>, nums: Numbers, k: nat)
    requires DistinctRows(drafts) && k < |drafts| && !DraftToChange(drafts[k], nums).Staged?
    ensures forall i :: 0 <= i < |ChangesOf(drafts, nums)| ==> ChangesOf(drafts, nums)[i].id != drafts[k].id
  {
    ChangesComeFromRows(drafts, nums);
    forall i | 0 <= i < |ChangesOf(drafts, nums)| ensures ChangesOf(drafts, nums)[i].id != drafts[k].id {
      assert ComesFromRow(ChangesOf(drafts, nums)[i], drafts, nums);
    }
  }

  /** Every row was filled from this layout, no two for one node, and none is refused. */
  ghost predicate AcceptedForm(l: Layout, drafts: seq<Draft>, nums: Numbers) {
    CleanLayout(l) && DistinctRows(drafts) &&
    forall k :: 0 <= k < |drafts| ==> EditedRow(l, drafts[k], nums) && !DraftToChange(drafts[k], nums).Invalid?
  }

  /** In the next layout a row's node is what the row says, or what it was when the row is a dropped one. */
  lemma RowInForm(l: Layout, drafts: seq<Draft>, nums: Numbers, k: nat)
    requires AcceptedForm(l, drafts, nums) && k < |drafts|
    ensures var d := drafts[k];
            NextRole(StageAll(l, ChangesOf(drafts, nums)), d.id)
            == if Dropped(d) then NextRole(l, d.id) else Intended(d, nums)
  {
    var d, cs := drafts[k], ChangesOf(drafts, nums);
    ChangesAreDistinct(drafts, nums);
    StageAllEffect(l, cs, d.id);
    RowTakesEffect(l, d, nums);
    if DraftToChange(d, nums).Staged? {
      RowsReachChanges(drafts, nums, k);
    } else {
      OthersDoNotChange(drafts, nums, k);
    }
  }

  /** A node without a row keeps its next role, and no applied role changes. */
  lemma NodeOutsideForm(l: Layout, drafts: seq<Draft>, nums: Numbers, id: string)
    requires AcceptedForm(l, drafts, nums) && forall k :: 0 <= k < |drafts| ==> drafts[k].id != id
    ensures NextRole(StageAll(l, ChangesOf(drafts, nums)), id) == NextRole(l, id)
    ensures StageAll(l, ChangesOf(drafts, nums)).applied == l.applied
  {
    var cs := ChangesOf(drafts, nums);
    ChangesAreDistinct(drafts, nums);
    ChangesComeFromRows(drafts, nums);
    forall i | 0 <= i < |cs| ensures cs[i].id != id {
      assert ComesFromRow(cs[i], drafts, nums);
    }
    StageAllEffect(l, cs, id);
  }

  // ---- Reverting one node ----

  function RevertChangeFor(id: string, applied: Option<Role>, staged: Option<Option<Role>>): Option<Change> {
    if staged.None? then None
    else if applied.None? then Some(Change(id, None))
    else Some(Change(id, Some(Role(applied.value.zone, applied.value.tags, applied.value.capacity))))
  }

  function Revert(l: Layout, id: string): Layout {
    match RevertChangeFor(id, Applied(l, id), StagedAt(l, id))
    case None => l
    case Some(c) => Stage(l, c)
  }

  function RevertAll(l: Layout, ids: seq<string>): Layout {
    if ids == [] then l else Revert(RevertAll(l, ids[..|ids| - 1]), ids[|ids| - 1])
  }

  /** Reverting removes that node's staged entry and no other. */
  lemma RevertRemovesOneEntry(l: Layout, id: string)
    requires Reported(l)
    ensures Revert(l, id) == Layout(l.applied, l.staged - {id}) && Reported(Revert(l, id))
  {
    if id !in l.staged {
      assert l.staged - {id} == l.staged;
    }
  }

  /** Reverting nodes in any order, with repeats, leaves exactly the entries of the others. */
  lemma {:induction false} RevertAllRemoves(l: Layout, ids: seq<string>)
    requires Reported(l)
    ensures RevertAll(l, ids) == Layout(l.applied, l.staged - set id | id in ids) && Reported(RevertAll(l, ids))
  {
    if ids == [] {
      assert l.staged - (set id | id in ids) == l.staged;
    } else {
      var n := |ids| - 1;
      RevertAllRemoves(l, ids[..n]);
      RevertRemovesOneEntry(RevertAll(l, ids[..n]), ids[n]);
      assert l.staged - (set id | id in ids[..n]) - {ids[n]} == l.staged - set id | id in ids;
    }
  }

  // ---- The current-roles table and the totals ----

  /** One entry of a role list or of a JavaScript Map, which keeps its insertion order. */
  datatype Entry = Entry(id: string, role: Role)
  datatype RoleRow = RoleRow(id: string, applied: Role, staged: Option<Option<Role>>, effective: Option<Role>)

  function LayoutRoleRows(roles: seq<Entry>, staged: map<string, Option<Role>>): seq<RoleRow> {
    seq(|roles|, i requires 0 <= i < |roles| =>
      var r := roles[i];
      if r.id !in staged then RoleRow(r.id, r.role, None, Some(r.role))
      else RoleRow(r.id, r.role, Some(staged[r.id]), if staged[r.id].None? then None else staged[r.id]))
  }

  /** Every key of the map once, with its value, in some order. */
  ghost predicate Lists(entries: seq<Entry>, m: map<string, Role>) {
    (forall i, j :: 0 <= i < j < |entries| ==> entries[i].id != entries[j].id) &&
    (forall i :: 0 <= i < |entries| ==> entries[i].id in m && m[entries[i].id] == entries[i].role) &&
    (forall id :: id in m ==> exists i :: 0 <= i < |entries| && entries[i].id == id)
  }

  /** The table shows what each applied node will be in the next layout. */
  lemma RowsShowNextRoles(l: Layout, roles: seq<Entry>, i: nat)
    requires Lists(roles, l.applied) && i < |roles|
    ensures var row := LayoutRoleRows(roles, l.staged)[i];
            row.effective == NextRole(l, row.id) && Some(row.applied) == Applied(l, row.id)
  {
  }

  datatype Totals = Totals(assignedNodes: nat, zones: nat, capacity: int)

  function ZonesOf(entries: seq<Entry>): set<string> {
    if entries == [] then {} else ZonesOf(entries[..|entries| - 1]) + {entries[|entries| - 1].role.zone}
  }

  function CapacityOf(r: Role): int {
    if r.capacity.Some? then r.capacity.value else 0
  }

  function CapacitySum(entries: seq<Entry>): int {
    if entries == [] then 0 else CapacitySum(entries[..|entries| - 1]) + CapacityOf(entries[|entries| - 1].role)
  }

  /** Adding an entry adds its capacity, and nothing for a gateway. */
  lemma CapacityAdds(entries: seq<Entry>, e: Entry)
    ensures CapacitySum(entries + [e]) - CapacitySum(entries)
            == match e.role.capacity case Some(bytes) => bytes case None => 0
    ensures CapacitySum([]) == 0
  {
    assert (entries + [e])[..|entries|] == entries;
  }

  function TotalsFor(entries: seq<Entry>): Totals {
    Totals(|entries|, |ZonesOf(entries)|, CapacitySum(entries))
  }

  method TotalsOf(entries: seq<Entry>) returns (t: Totals)
    ensures t == TotalsFor(entries)
  {
    var assignedNodes, capacity, zones := 0, 0, {};
    for i := 0 to |entries|
      invariant assignedNodes == i && capacity == CapacitySum(entries[..i]) && zones == ZonesOf(entries[..i])
    {
      assert entries[..i + 1][..i] == entries[..i];
      assignedNodes := assignedNodes + 1;
      zones := zones + {entries[i].role.zone};
      capacity := capacity + CapacityOf(entries[i].role);
    }
    assert entries[..|entries|] == entries;
    t := Totals(assignedNodes, |zones|, capacity);
  }

  /** Map.set: an existing key keeps its place. */
  function MapSet(entries: seq<Entry>, id: string, role: Role): seq<Entry> {
    if entries == [] then [Entry(id, role)]
    else if entries[0].id == id then [Entry(id, role)] + entries[1..]
    else [entries[0]] + MapSet(entries[1..], id, role)
  }

  /** Map.delete. */
  function MapDelete(entries: seq<Entry>, id: string): seq<Entry> {
    if entries == [] then []
    else if entries[0].id == id then entries[1..]
    else [entries[0]] + MapDelete(entries[1..], id)
  }

  lemma {:induction false} MapSetLists(entries: seq<Entry>, m: map<string, Role>, id: string, role: Role)
    requires Lists(entries, m)
    ensures Lists(MapSet(entries, id, role), m[id := role])
  {
    if entries == [] {
      assert MapSet(entries, id, role)[0].id == id;
    } else {
      var first := entries[0];
      ListsTail(entries, m);
      if first.id == id {
        ListsCons(entries[1..], m - {id}, Entry(id, role));
        assert (m - {id})[id := role] == m[id := role];
      } else {
        MapSetLists(entries[1..], m - {first.id}, id, role);
        ListsCons(MapSet(entries[1..], id, role), (m - {first.id})[id := role], first);
        PutBack(m, first, id, role);
      }
    }
  }

  lemma {:induction false} MapDeleteLists(entries: seq<Entry>, m: map<string, Role>, id: string)
    requires Lists(entries, m)
    ensures Lists(MapDelete(entries, id), m - {id})
  {
    if entries == [] {
      assert m - {id} == m;
    } else {
      var first := entries[0];
      ListsTail(entries, m);
      if first.id != id {
        MapDeleteLists(entries[1..], m - {first.id}, id);
        ListsCons(MapDelete(entries[1..], id), m - {first.id} - {id}, first);
        PutBack(m, first, id, first.role);
      }
    }
  }

  /** Taking an entry out and putting it back around a change of another one. */
  lemma PutBack(m: map<string, Role>, first: Entry, id: string, role: Role)
    requires first.id in m && m[first.id] == first.role && first.id != id
    ensures (m - {first.id} - {id})[first.id := first.role] == m - {id}
    ensures (m - {first.id})[id := role][first.id := first.role] == m[id := role]
  {
  }

  lemma ListsTail(entries: seq<Entry>, m: map<string, Role>)
    requires Lists(entries, m) && entries != []
    ensures Lists(entries[1..], m - {entries[0].id})
  {
    forall id | id in m - {entries[0].id} ensures exists i :: 0 <= i < |entries[1..]| && entries[1..][i].id == id {
      var i :| 0 <= i < |entries| && entries[i].id == id;
      assert entries[1..][i - 1].id == id;
    }
  }

  lemma ListsCons(entries: seq<Entry>, m: map<string, Role>, first: Entry)
    requires Lists(entries, m) && first.id !in m
    ensures Lists([first] + entries, m[first.id := first.role])
  {
    var all, more := [first] + entries, m[first.id := first.role];
    forall id | id in more ensures exists i :: 0 <= i < |all| && all[i].id == id {
      if id == first.id {
        assert all[0].id == id;
      } else {
        var i :| 0 <= i < |entries| && entries[i].id == id;
        assert all[i + 1].id == id;
      }
    }
  }

  function NextMap(roles: map<string, Role>, staged: seq<Change>): map<string, Role> {
    if staged == [] then roles
    else
      var before, c := NextMap(roles, staged[..|staged| - 1]), staged[|staged| - 1];
      if c.target.None? then before - {c.id} else before[c.id := c.target.value]
  }

  /**
   The totals of the applied roles, and those of some listing of the roles after the staged changes;
   by TotalsDoNotDependOnOrder it does not matter which.
   */
  method LayoutTotals(roles: seq<Entry>, staged: seq<Change>, ghost applied: map<string, Role>)
    returns (before: Totals, after: Totals)
    requires Lists(roles, applied)
    ensures before == TotalsFor(roles)
    ensures exists next :: Lists(next, NextMap(applied, staged)) && after == TotalsFor(next)
  {
    var next := roles;
    for i := 0 to |staged|
      invariant Lists(next, NextMap(applied, staged[..i]))
    {
      assert staged[..i + 1][..i] == staged[..i];
      var c := staged[i];
      if c.target.None? {
        MapDeleteLists(next, NextMap(applied, staged[..i]), c.id);
        next := MapDelete(next, c.id);
      } else {
        MapSetLists(next, NextMap(applied, staged[..i]), c.id, c.target.value);
        next := MapSet(next, c.id, c.target.value);
      }
    }
    assert staged[..|staged|] == staged;
    before := TotalsOf(roles);
    after := TotalsOf(next);
  }

  ghost predicate SameTotals(a: seq<Entry>, b: seq<Entry>) {
    |a| == |b| && ZonesOf(a) == ZonesOf(b) && CapacitySum(a) == CapacitySum(b)
  }

  /** The sums taken from the front. */
  lemma {:induction false} FrontEntry(entries: seq<Entry>)
    requires entries != []
    ensures CapacitySum(entries) == CapacityOf(entries[0].role) + CapacitySum(entries[1..])
    ensures ZonesOf(entries) == {entries[0].role.zone} + ZonesOf(entries[1..])
  {
    var n := |entries| - 1;
    if n > 0 {
      FrontEntry(entries[..n]);
      assert entries[..n][1..] == entries[1..][..n - 1];
    }
  }

  /** Taking one entry out of a listing takes its share out of every total. */
  lemma {:induction false} DeletedEntry(entries: seq<Entry>, m: map<string, Role>, id: string)
    requires Lists(entries, m) && id in m
    ensures var rest := MapDelete(entries, id);
            |entries| == |rest| + 1 && CapacitySum(entries) == CapacityOf(m[id]) + CapacitySum(rest) &&
            ZonesOf(entries) == {m[id].zone} + ZonesOf(rest)
  {
    var first := entries[0];
    FrontEntry(entries);
    if first.id != id {
      ListsTail(entries, m);
      DeletedEntry(entries[1..], m - {first.id}, id);
      FrontEntry(MapDelete(entries, id));
    }
  }

  lemma NothingListed(entries: seq<Entry>, m: map<string, Role>)
    requires Lists(entries, m)
    ensures entries == [] <==> m == map[]
  {
    if entries != [] {
      assert entries[0].id in m;
    }
  }

  lemma {:induction false} ListingsAgree(a: seq<Entry>, b: seq<Entry>, m: map<string, Role>)
    requires Lists(a, m) && Lists(b, m)
    ensures SameTotals(a, b)
    decreases |a|
  {
    NothingListed(a, m);
    NothingListed(b, m);
    if a != [] {
      var id := a[0].id;
      ListsTail(a, m);
      MapDeleteLists(b, m, id);
      ListingsAgree(a[1..], MapDelete(b, id), m - {id});
      FrontEntry(a);
      DeletedEntry(b, m, id);
    }
  }

  /** Two listings of one layout have the same totals. */
  lemma TotalsDoNotDependOnOrder(a: seq<Entry>, b: seq<Entry>, m: map<string, Role>)
    requires Lists(a, m) && Lists(b, m)
    ensures TotalsFor(a) == TotalsFor(b)
  {
    ListingsAgree(a, b, m);
  }

  /** The staged changes as Garage reports them, one per node. */
  ghost predicate ReportsStaged(l: Layout, staged: seq<Change>) {
    DistinctChanges(staged) &&
    (forall i :: 0 <= i < |staged| ==> staged[i].id in l.staged && l.staged[staged[i].id] == staged[i].target) &&
    (forall id :: id in l.staged ==> exists i :: 0 <= i < |staged| && staged[i].id == id)
  }

  lemma {:induction false} NextMapAt(roles: map<string, Role>, staged: seq<Change>, id: string)
    requires DistinctChanges(staged)
    ensures (forall i :: 0 <= i < |staged| ==> staged[i].id != id)
            ==> (id in NextMap(roles, staged) <==> id in roles) &&
                (id in roles ==> NextMap(roles, staged)[id] == roles[id])
    ensures (forall i :: 0 <= i < |staged| && staged[i].id == id ==>
               (id in NextMap(roles, staged) <==> staged[i].target.Some?) &&
               (staged[i].target.Some? ==> NextMap(roles, staged)[id] == staged[i].target.value))
  {
    if staged != [] {
      NextMapAt(roles, staged[..|staged| - 1], id);
    }
  }

  /** The roles layoutTotals counts as "after" are exactly the roles of the next layout. */
  lemma AfterIsTheNextLayout(l: Layout, staged: seq<Change>, id: string)
    requires ReportsStaged(l, staged)
    ensures var next := NextMap(l.applied, staged);
            NextRole(l, id) == if id in next then Some(next[id]) else None
  {
    NextMapAt(l.applied, staged, id);
  }

  /** Once every staged node was reverted, in any order, the totals before and after are equal. */
  lemma RevertingAllRestoresTotals(l: Layout, ids: seq<string>, staged: seq<Change>, roles: seq<Entry>,
                                   next: seq<Entry>)
    requires Reported(l) && (forall id :: id in l.staged ==> id in ids)
    requires ReportsStaged(RevertAll(l, ids), staged)
    requires Lists(roles, l.applied) && Lists(next, NextMap(l.applied, staged))
    ensures RevertAll(l, ids).staged == map[]
    ensures TotalsFor(roles) == TotalsFor(next)
  {
    RevertAllRemoves(l, ids);
    assert RevertAll(l, ids).staged == map[];
    assert staged == [];
    TotalsDoNotDependOnOrder(roles, next, l.applied);
  }
}
