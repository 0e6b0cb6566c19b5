/**
 What the upload rows say (frontend/src/components/object-browser.tsx), told from the events alone:
 which files were chosen, which uploads ended how, and what was retried and dismissed.
 */
module UploadHistory {
  import opened Options
  import opened UploadQueue

  // ---- Read off the events ----

  /** All files chosen so far; the row with id k is about the k-th. */
  function Files(run: seq<Event>): seq<(string, nat)> {
    if run == [] then []
    else
      var e := run[|run| - 1];
      Files(run[..|run| - 1]) + if e.Choose? then e.files else []
  }

  /** The event queues the upload again: it names a row that had ended. */
  ghost predicate Requeues(e: Event, id: nat) {
    e.Retry? && exists i :: 0 <= i < |e.targets| && e.targets[i].id == id && Idle(e.targets[i].status)
  }

  /** How the upload last ended since it was last queued. */
  ghost function LastEnd(run: seq<Event>, id: nat): Option<Outcome> {
    if run == [] then None
    else
      var e := run[|run| - 1];
      if e.End? && e.id == id then Some(e.outcome)
      else if Requeues(e, id) then None
      else LastEnd(run[..|run| - 1], id)
  }

  /** May it replace an object? Only if its last retry said so. */
  ghost function LastFlag(run: seq<Event>, id: nat): bool {
    if run == [] then false
    else
      var e := run[|run| - 1];
      if Requeues(e, id) then e.overwrite else LastFlag(run[..|run| - 1], id)
  }

  /** The event, coming after the run, takes the row off the list. */
  ghost predicate Drops(run: seq<Event>, e: Event, id: nat) {
    match e
    case SkipConflicts => LastEnd(run, id) == Some(Refused)
    case ClearFinished => LastEnd(run, id) == Some(Stored) || LastEnd(run, id) == Some(Broke)
    case SkipOne(one) => id == one
    case _ => false
  }

  ghost predicate Gone(run: seq<Event>, id: nat) {
    run != [] && (Gone(run[..|run| - 1], id) || Drops(run[..|run| - 1], run[|run| - 1], id))
  }

  /** The requests of newly chosen files: one each, in order, replacing nothing. */
  function ChosenRequests(files: seq<(string, nat)>, first: nat): seq<Request> {
    seq(|files|, i requires 0 <= i < |files| => Request(first + i, files[i].0, false))
  }

  /** The requests of a retry: one for each target that had ended, in order. */
  function RetryRequests(targets: seq<Item>, overwrite: bool): seq<Request> {
    if targets == [] then []
    else
      (if Idle(targets[0].status) then [Request(targets[0].id, targets[0].key, overwrite)] else [])
      + RetryRequests(targets[1..], overwrite)
  }

  /** What the event puts into the queue, when the next row gets the id first. */
  function QueuedBy(e: Event, first: nat): seq<Request> {
    match e
    case Choose(files) => ChosenRequests(files, first)
    case Retry(targets, overwrite) => RetryRequests(targets, overwrite)
    case _ => []
  }

  /** Everything that was queued, in order. */
  function Queueings(run: seq<Event>): seq<Request> {
    if run == [] then []
    else
      var before := run[..|run| - 1];
      Queueings(before) + QueuedBy(run[|run| - 1], |Files(before)| + 1)
  }

  // ---- What a row says ----

  /** The status and the bytes of a row are what the last end of the upload was; without one it has sent nothing. */
  ghost predicate StatusTold(run: seq<Event>, u: Item) {
    match LastEnd(run, u.id)
    case None => (u.status == Queued || u.status == Uploading) && u.loaded == 0
    case Some(Stored) => u.status == Done && u.loaded == u.total
    case Some(Refused) => u.status == Conflict
    case Some(Broke) => u.status == Error
  }

  ghost predicate RowTold(run: seq<Event>, u: Item) {
    && 1 <= u.id <= |Files(run)| && Files(run)[u.id - 1] == (u.key, u.total)
    && u.overwrite == LastFlag(run, u.id)
    && StatusTold(run, u)
  }

  ghost predicate RowsTold(run: seq<Event>, uploads: seq<Item>) {
    forall i :: 0 <= i < |uploads| ==> RowTold(run, uploads[i])
  }

  ghost predicate Ascending(uploads: seq<Item>) {
    forall i, j :: 0 <= i < j < |uploads| ==> uploads[i].id < uploads[j].id
  }

  /** The rows are those chosen and not taken off. */
  ghost predicate Shown(run: seq<Event>, uploads: seq<Item>) {
    && Ascending(uploads)
    && forall id: nat :: 1 <= id <= |Files(run)| ==> (id in IdSet(uploads) <==> !Gone(run, id))
  }

  /** Nothing has happened to ids that no file has yet. */
  ghost predicate NoHistory(run: seq<Event>, id: nat) {
    LastEnd(run, id).None? && !LastFlag(run, id) && !Gone(run, id)
  }

  ghost predicate Told(q: Queue, run: seq<Event>) {
    && q.nextId == |Files(run)| + 1
    && RowsTold(run, q.uploads)
    && Shown(run, q.uploads)
    && (forall id: nat :: id >= q.nextId ==> NoHistory(run, id))
    && q.enqueued == Queueings(run)
  }

  // ---- Each event ----

  lemma Last(run: seq<Event>, e: Event)
    ensures var all := run + [e]; all[..|all| - 1] == run && all[|all| - 1] == e
  {
  }

  /** A change of the queue that leaves every row telling the same story. */
  lemma PatchTold(run: seq<Event>, uploads: seq<Item>, id: nat)
    requires RowsTold(run, uploads) && Shown(run, uploads) && LastEnd(run, id).None?
    ensures var t := Patch(uploads, id, Uploading, true, false);
            RowsTold(run, t) && Shown(run, t)
  {
    var t := Patch(uploads, id, Uploading, true, false);
    SameIds(uploads, t);
    forall i | 0 <= i < |t| ensures RowTold(run, t[i]) {
      assert RowTold(run, uploads[i]);
    }
  }

  /** What is queued has not ended. */
  lemma PendingHasNoEnd(q: Queue, run: seq<Event>, id: nat)
    requires Inv(q) && RowsTold(run, q.uploads) && id in IdSet(q.pending)
    ensures LastEnd(run, id).None?
  {
    assert id in IdSet(q.uploads);
    var i :| 0 <= i < |q.uploads| && q.uploads[i].id == id;
    assert Honest(q.uploads[i], IdSet(q.pending), q.inFlight) && RowTold(run, q.uploads[i]);
  }

  lemma StartTold(q: Queue, run: seq<Event>, next: Queue)
    requires Inv(q) && Told(q, run) && |q.pending| > 0 && next == StartFirst(q)
    ensures Told(next, run)
  {
    var id := q.pending[0].id;
    assert id in IdSet(q.pending);
    PendingHasNoEnd(q, run, id);
    PatchTold(run, q.uploads, id);
  }

  lemma {:induction false} PumpTold(q: Queue, run: seq<Event>)
    requires Inv(q) && Told(q, run)
    ensures Told(Pump(q), run)
    decreases |q.pending|
  {
    if q.active < MAX_CONCURRENT_UPLOADS && |q.pending| > 0 {
      var next := StartFirst(q);
      StartTold(q, run, next);
      StartFirstInv(q);
      PumpTold(next, run);
    }
  }

  /** What one more event adds to the story of an id. */
  lemma OneMore(run: seq<Event>, e: Event, all: seq<Event>, id: nat)
    requires all == run + [e]
    ensures LastEnd(all, id)
         == if e.End? && e.id == id then Some(e.outcome) else if Requeues(e, id) then None else LastEnd(run, id)
    ensures LastFlag(all, id) == if Requeues(e, id) then e.overwrite else LastFlag(run, id)
    ensures Gone(all, id) <==> Gone(run, id) || Drops(run, e, id)
  {
    Last(run, e);
  }

  lemma OneMoreFiles(run: seq<Event>, e: Event, all: seq<Event>)
    requires all == run + [e]
    ensures Files(all) == Files(run) + if e.Choose? then e.files else []
  {
    Last(run, e);
  }

  lemma OneMoreQueued(run: seq<Event>, e: Event, all: seq<Event>, first: nat)
    requires all == run + [e] && first == |Files(run)| + 1
    ensures Queueings(all) == Queueings(run) + QueuedBy(e, first)
  {
    Last(run, e);
  }

  /** A row that the event does not name says the same afterwards. */
  lemma RowStays(run: seq<Event>, e: Event, all: seq<Event>, u: Item)
    requires all == run + [e] && RowTold(run, u) && !(e.End? && e.id == u.id) && !Requeues(e, u.id)
    ensures RowTold(all, u)
  {
    OneMore(run, e, all, u.id);
    OneMoreFiles(run, e, all);
    var more := if e.Choose? then e.files else [];
    assert (Files(run) + more)[u.id - 1] == Files(run)[u.id - 1];
  }

  lemma NothingHappens(run: seq<Event>, e: Event, all: seq<Event>, id: nat)
    requires all == run + [e] && NoHistory(run, id)
    requires !(e.End? && e.id == id) && !Requeues(e, id) && !Drops(run, e, id)
    ensures NoHistory(all, id)
  {
    OneMore(run, e, all, id);
  }

  /** The rows shown, and the rows of newly chosen files. */
  ghost predicate JustChosen(run: seq<Event>, e: Event, all: seq<Event>, uploads: seq<Item>, items: seq<Item>, n: nat) {
    && all == run + [e] && e.Choose? && n == |Files(run)| && items == NewItems(e.files, n + 1)
    && RowsTold(run, uploads) && Shown(run, uploads) && forall id: nat :: id > n ==> NoHistory(run, id)
  }

  lemma ChosenRows(run: seq<Event>, e: Event, all: seq<Event>, uploads: seq<Item>, items: seq<Item>, n: nat)
    requires JustChosen(run, e, all, uploads, items, n)
    ensures RowsTold(all, uploads + items)
  {
    OneMoreFiles(run, e, all);
    forall i | 0 <= i < |uploads| ensures RowTold(all, uploads[i]) {
      assert RowTold(run, uploads[i]);
      RowStays(run, e, all, uploads[i]);
    }
    forall k | 0 <= k < |items| ensures RowTold(all, items[k]) {
      assert NoHistory(run, items[k].id);
      OneMore(run, e, all, items[k].id);
      assert (Files(run) + e.files)[n + k] == e.files[k];
    }
  }

  lemma ChosenShown(run: seq<Event>, e: Event, all: seq<Event>, uploads: seq<Item>, items: seq<Item>, n: nat)
    requires JustChosen(run, e, all, uploads, items, n)
    ensures Shown(all, uploads + items)
  {
    OneMoreFiles(run, e, all);
    IdSetConcat(uploads, items);
    forall i | 0 <= i < |uploads| ensures uploads[i].id <= n {
      assert RowTold(run, uploads[i]);
    }
    forall id: nat | 1 <= id <= |Files(all)| ensures id in IdSet(uploads + items) <==> !Gone(all, id) {
      OneMore(run, e, all, id);
      if id > n {
        assert NoHistory(run, id);
        assert items[id - n - 1].id == id;
      } else {
        assert id !in IdSet(items);
      }
    }
  }

  lemma ChosenTold(q: Queue, run: seq<Event>, e: Event, all: seq<Event>)
    requires Inv(q) && Told(q, run) && e.Choose? && all == run + [e]
    ensures Told(Enqueued(q, e.files), all)
  {
    var n := |Files(run)|;
    var items := NewItems(e.files, q.nextId);
    ChosenRows(run, e, all, q.uploads, items, n);
    ChosenShown(run, e, all, q.uploads, items, n);
    OneMoreFiles(run, e, all);
    forall id: nat | id >= q.nextId + |e.files| ensures NoHistory(all, id) {
      assert NoHistory(run, id);
      NothingHappens(run, e, all, id);
    }
    OneMoreQueued(run, e, all, q.nextId);
    ChosenAreRequested(e.files, q.nextId);
  }

  lemma ChosenAreRequested(files: seq<(string, nat)>, first: nat)
    ensures Requests(NewItems(files, first)) == ChosenRequests(files, first)
  {
  }

  lemma EndedRows(run: seq<Event>, e: Event, all: seq<Event>, uploads: seq<Item>, status: Status)
    requires all == run + [e] && e.End? && RowsTold(run, uploads) && Shown(run, uploads)
    requires status == match e.outcome case Stored => Done case Refused => Conflict case Broke => Error
    ensures var t := Patch(uploads, e.id, status, false, e.outcome.Stored?);
            RowsTold(all, t) && Shown(all, t)
  {
    var t := Patch(uploads, e.id, status, false, e.outcome.Stored?);
    SameIds(uploads, t);
    OneMoreFiles(run, e, all);
    forall i | 0 <= i < |t| ensures RowTold(all, t[i]) {
      assert RowTold(run, uploads[i]);
      if uploads[i].id == e.id {
        OneMore(run, e, all, e.id);
      } else {
        RowStays(run, e, all, uploads[i]);
      }
    }
    forall id: nat | 1 <= id <= |Files(all)| ensures id in IdSet(t) <==> !Gone(all, id) {
      OneMore(run, e, all, id);
    }
  }

  lemma EndedTold(q: Queue, run: seq<Event>, e: Event, all: seq<Event>)
    requires Inv(q) && Told(q, run) && e.End? && e.id in q.inFlight && q.active > 0 && all == run + [e]
    ensures Told(Settled(q, e.id, e.outcome), all)
  {
    EndedRows(run, e, all, q.uploads, match e.outcome case Stored => Done case Refused => Conflict case Broke => Error);
    OneMoreFiles(run, e, all);
    assert e.id in IdSet(q.uploads);
    forall id: nat | id >= q.nextId ensures NoHistory(all, id) {
      assert NoHistory(run, id);
      NothingHappens(run, e, all, id);
    }
    OneMoreQueued(run, e, all, q.nextId);
  }

  /** A target as it goes into the queue again. */
  function Again(u: Item, overwrite: bool): Item {
    u.(overwrite := overwrite, status := Queued, loaded := 0)
  }

  /** The items of a retry are the targets that had ended, none of which is queued. */
  ghost predicate AllRetried(targets: seq<Item>, overwrite: bool, items: seq<Item>) {
    && Requests(items) == RetryRequests(targets, overwrite)
    && (forall i :: 0 <= i < |targets| && Idle(targets[i].status) ==> Again(targets[i], overwrite) in items)
    && (forall u :: u in items ==> FromTarget(targets, overwrite, u))
  }

  ghost predicate FromTarget(targets: seq<Item>, overwrite: bool, u: Item) {
    exists i :: 0 <= i < |targets| && Idle(targets[i].status) && u == Again(targets[i], overwrite)
  }

  lemma FromTargetBehind(target: Item, targets: seq<Item>, overwrite: bool, u: Item)
    requires FromTarget(targets, overwrite, u)
    ensures FromTarget([target] + targets, overwrite, u)
  {
    var i :| 0 <= i < |targets| && Idle(targets[i].status) && u == Again(targets[i], overwrite);
    assert ([target] + targets)[i + 1] == targets[i];
  }

  lemma FirstFromTarget(target: Item, targets: seq<Item>, overwrite: bool)
    requires Idle(target.status)
    ensures FromTarget([target] + targets, overwrite, Again(target, overwrite))
  {
    assert ([target] + targets)[0] == target;
  }

  lemma OneMoreRetried(target: Item, targets: seq<Item>, overwrite: bool, rest: seq<Item>, head: seq<Item>)
    requires AllRetried(targets, overwrite, rest)
    requires head == if Idle(target.status) then [Again(target, overwrite)] else []
    ensures AllRetried([target] + targets, overwrite, head + rest)
  {
    var all, items := [target] + targets, head + rest;
    IdSetConcat(head, rest);
    assert all[1..] == targets;
    assert Requests(head) == if Idle(target.status) then [Request(target.id, target.key, overwrite)] else [];
    forall u | u in items ensures FromTarget(all, overwrite, u) {
      if u in rest {
        FromTargetBehind(target, targets, overwrite, u);
      } else {
        FirstFromTarget(target, targets, overwrite);
      }
    }
    forall i | 0 <= i < |all| && Idle(all[i].status) ensures Again(all[i], overwrite) in items {
      if i > 0 {
        assert all[i] == targets[i - 1];
        assert Again(all[i], overwrite) in rest;
      }
    }
  }

  lemma {:induction false} RetryTakesAll(targets: seq<Item>, pendingIds: set<nat>, overwrite: bool)
    requires forall i :: 0 <= i < |targets| && Idle(targets[i].status) ==> targets[i].id !in pendingIds
    ensures AllRetried(targets, overwrite, Retried(targets, pendingIds, overwrite))
  {
    if targets != [] {
      var target, others := targets[0], targets[1..];
      RetryTakesAll(others, pendingIds, overwrite);
      OneMoreRetried(target, others, overwrite, Retried(others, pendingIds, overwrite),
                     if Idle(target.status) then [Again(target, overwrite)] else []);
      assert targets == [target] + others;
    }
  }

  /** The row of a retried id starts again; it is the target that was named. */
  lemma RetriedRow(run: seq<Event>, e: Event, all: seq<Event>, uploads: seq<Item>, items: seq<Item>, i: nat)
    requires all == run + [e] && e.Retry? && AllRetried(e.targets, e.overwrite, items)
    requires DistinctIds(uploads) && (forall k :: 0 <= k < |e.targets| ==> e.targets[k] in uploads)
    requires i < |uploads| && RowTold(run, uploads[i])
    ensures RowTold(all, Replacement(items, uploads[i])) && Replacement(items, uploads[i]).id == uploads[i].id
  {
    var u := uploads[i];
    ReplacementFacts(items, u);
    RequeuedIsItem(e, items, u.id);
    if u.id in IdSet(items) {
      var k :| 0 <= k < |e.targets| && Idle(e.targets[k].status)
               && Replacement(items, u) == Again(e.targets[k], e.overwrite);
      var j :| 0 <= j < |uploads| && uploads[j] == e.targets[k];
      assert i == j;
      OneMore(run, e, all, u.id);
      OneMoreFiles(run, e, all);
    } else {
      RowStays(run, e, all, u);
    }
  }

  lemma RequeuedIsItem(e: Event, items: seq<Item>, id: nat)
    requires e.Retry? && AllRetried(e.targets, e.overwrite, items)
    ensures Requeues(e, id) ==> id in IdSet(items)
  {
    if Requeues(e, id) {
      var k :| 0 <= k < |e.targets| && e.targets[k].id == id && Idle(e.targets[k].status);
      var j :| 0 <= j < |items| && items[j] == Again(e.targets[k], e.overwrite);
      assert items[j].id in IdSet(items);
    }
  }

  lemma RetriedRows(run: seq<Event>, e: Event, all: seq<Event>, uploads: seq<Item>, items: seq<Item>)
    requires all == run + [e] && e.Retry? && AllRetried(e.targets, e.overwrite, items)
    requires DistinctIds(uploads) && (forall k :: 0 <= k < |e.targets| ==> e.targets[k] in uploads)
    requires RowsTold(run, uploads) && Shown(run, uploads)
    ensures RowsTold(all, Replace(uploads, items)) && Shown(all, Replace(uploads, items))
  {
    var t := Replace(uploads, items);
    OneMoreFiles(run, e, all);
    forall i | 0 <= i < |t| ensures RowTold(all, t[i]) && t[i].id == uploads[i].id {
      assert RowTold(run, uploads[i]);
      RetriedRow(run, e, all, uploads, items, i);
    }
    SameIds(uploads, t);
    forall id: nat | 1 <= id <= |Files(all)| ensures id in IdSet(t) <==> !Gone(all, id) {
      OneMore(run, e, all, id);
    }
  }

  /** A target that had ended is not in the queue. */
  lemma IdleTargetsAreNotQueued(q: Queue, targets: seq<Item>)
    requires Inv(q) && forall k :: 0 <= k < |targets| ==> targets[k] in q.uploads
    ensures forall k :: 0 <= k < |targets| && Idle(targets[k].status) ==> targets[k].id !in IdSet(q.pending)
  {
    forall k | 0 <= k < |targets| && Idle(targets[k].status) ensures targets[k].id !in IdSet(q.pending) {
      var j :| 0 <= j < |q.uploads| && q.uploads[j] == targets[k];
      assert Honest(q.uploads[j], IdSet(q.pending), q.inFlight);
    }
  }

  lemma RetryTold(q: Queue, run: seq<Event>, e: Event, all: seq<Event>)
    requires Inv(q) && Told(q, run) && e.Retry? && Possible(q, e) && all == run + [e]
    ensures Told(Requeued(q, Retried(e.targets, IdSet(q.pending), e.overwrite)), all)
  {
    var items := Retried(e.targets, IdSet(q.pending), e.overwrite);
    IdleTargetsAreNotQueued(q, e.targets);
    RetryTakesAll(e.targets, IdSet(q.pending), e.overwrite);
    RetriedRows(run, e, all, q.uploads, items);
    OneMoreFiles(run, e, all);
    TargetsAreRows(q, e.targets);
    forall id: nat | id >= q.nextId ensures NoHistory(all, id) {
      assert NoHistory(run, id);
      NothingHappens(run, e, all, id);
    }
    OneMoreQueued(run, e, all, q.nextId);
  }

  lemma TargetsAreRows(q: Queue, targets: seq<Item>)
    requires Inv(q) && forall k :: 0 <= k < |targets| ==> targets[k] in q.uploads
    ensures forall k :: 0 <= k < |targets| ==> targets[k].id < q.nextId
  {
    forall k | 0 <= k < |targets| ensures targets[k].id < q.nextId {
      var j :| 0 <= j < |q.uploads| && q.uploads[j] == targets[k];
    }
  }

  predicate Dismissal(e: Event) {
    e.SkipConflicts? || e.ClearFinished? || e.SkipOne?
  }

  /** A dismissal takes off the rows whose upload ended the way it is about. */
  lemma DismissedAreDropped(run: seq<Event>, e: Event, uploads: seq<Item>, id: nat)
    requires RowsTold(run, uploads) && DistinctIds(uploads) && Dismissal(e) && id in IdSet(uploads)
    ensures id in Dismissed(e, uploads) <==> Drops(run, e, id)
  {
    var i :| 0 <= i < |uploads| && uploads[i].id == id;
    assert RowTold(run, uploads[i]);
    if id in Dismissed(e, uploads) {
      var j :| 0 <= j < |uploads| && Dismisses(e, uploads[j]) && uploads[j].id == id;
      assert i == j;
    }
  }

  lemma {:induction false} KeepAscending(uploads: seq<Item>, dismissed: set<nat>)
    requires Ascending(uploads)
    ensures Ascending(Keep(uploads, dismissed))
  {
    if uploads != [] {
      var rest := Keep(uploads[1..], dismissed);
      KeepAscending(uploads[1..], dismissed);
      KeepFacts(uploads[1..], dismissed);
      forall j | 0 <= j < |rest| ensures uploads[0].id < rest[j].id {
        assert rest[j] in uploads[1..];
        var i :| 0 <= i < |uploads[1..]| && uploads[1..][i] == rest[j];
        assert uploads[i + 1] == rest[j];
      }
    }
  }

  lemma KeptRows(run: seq<Event>, e: Event, all: seq<Event>, uploads: seq<Item>)
    requires all == run + [e] && Dismissal(e) && RowsTold(run, uploads) && Shown(run, uploads) && DistinctIds(uploads)
    ensures var t := Keep(uploads, Dismissed(e, uploads));
            RowsTold(all, t) && Shown(all, t)
  {
    var dismissed := Dismissed(e, uploads);
    var t := Keep(uploads, dismissed);
    KeepFacts(uploads, dismissed);
    KeepAscending(uploads, dismissed);
    OneMoreFiles(run, e, all);
    forall i | 0 <= i < |t| ensures RowTold(all, t[i]) {
      assert t[i] in t;
      var j :| 0 <= j < |uploads| && uploads[j] == t[i];
      assert RowTold(run, uploads[j]);
      RowStays(run, e, all, uploads[j]);
    }
    forall id: nat | 1 <= id <= |Files(all)| ensures id in IdSet(t) <==> !Gone(all, id) {
      OneMore(run, e, all, id);
      KeptId(uploads, dismissed, id);
      if id in IdSet(uploads) {
        DismissedAreDropped(run, e, uploads, id);
      }
    }
  }

  lemma KeptId(uploads: seq<Item>, dismissed: set<nat>, id: nat)
    ensures id in IdSet(Keep(uploads, dismissed)) <==> id in IdSet(uploads) && id !in dismissed
  {
    var t := Keep(uploads, dismissed);
    KeepFacts(uploads, dismissed);
    if id in IdSet(t) {
      var i :| 0 <= i < |t| && t[i].id == id;
      assert t[i] in t;
      var j :| 0 <= j < |uploads| && uploads[j] == t[i];
    }
    if id in IdSet(uploads) && id !in dismissed {
      var j :| 0 <= j < |uploads| && uploads[j].id == id;
      assert uploads[j] in t;
      var i :| 0 <= i < |t| && t[i] == uploads[j];
    }
  }

  lemma DismissTold(q: Queue, run: seq<Event>, e: Event, all: seq<Event>)
    requires Inv(q) && Told(q, run) && Dismissal(e) && Possible(q, e) && all == run + [e]
    ensures Told(q.(uploads := Keep(q.uploads, Dismissed(e, q.uploads))), all)
  {
    KeptRows(run, e, all, q.uploads);
    OneMoreFiles(run, e, all);
    forall id: nat | id >= q.nextId ensures NoHistory(all, id) {
      assert NoHistory(run, id);
      if e.SkipOne? {
        var i :| 0 <= i < |q.uploads| && q.uploads[i].id == e.id && q.uploads[i].status == Conflict;
        assert q.uploads[i].id < q.nextId;
      }
      NothingHappens(run, e, all, id);
    }
    OneMoreQueued(run, e, all, q.nextId);
  }

  // ---- Every run ----

  lemma ChooseStepTold(q: Queue, run: seq<Event>, e: Event, all: seq<Event>)
    requires Inv(q) && Told(q, run) && e.Choose? && all == run + [e]
    ensures Told(Step(q, e), all)
  {
    ChosenTold(q, run, e, all);
    if e.files == [] {
      NothingChosen(q, e, all);
    } else {
      EnqueueInv(q, e.files);
      PumpTold(Enqueued(q, e.files), all);
    }
  }

  lemma EndStepTold(q: Queue, run: seq<Event>, e: Event, all: seq<Event>, settled: Queue, pumped: Queue, r: Queue)
    requires Inv(q) && Told(q, run) && e.End? && e.id in q.inFlight && q.active > 0 && all == run + [e]
    requires settled == Settled(q, e.id, e.outcome) && pumped == Pump(settled)
    requires r == pumped.(refreshes := r.refreshes)
    ensures Told(r, all)
  {
    EndedTold(q, run, e, all);
    SettledInv(q, e.id, e.outcome);
    PumpTold(settled, all);
    SameStory(pumped, r, all);
  }

  lemma SameStory(q: Queue, r: Queue, run: seq<Event>)
    requires Told(q, run) && r.nextId == q.nextId && r.uploads == q.uploads && r.enqueued == q.enqueued
    ensures Told(r, run)
  {
  }

  lemma RetryStepTold(q: Queue, run: seq<Event>, e: Event, all: seq<Event>)
    requires Inv(q) && Told(q, run) && e.Retry? && Possible(q, e) && all == run + [e]
    ensures Told(Step(q, e), all)
  {
    var items := Retried(e.targets, IdSet(q.pending), e.overwrite);
    RetryTold(q, run, e, all);
    if items == [] {
      NothingRetried(q, items, all);
    } else {
      RetryInv(q, e.targets, e.overwrite);
      PumpTold(Requeued(q, items), all);
    }
  }

  lemma StepTold(q: Queue, run: seq<Event>, e: Event, all: seq<Event>)
    requires Inv(q) && Told(q, run) && Possible(q, e) && (e.End? ==> q.active > 0) && all == run + [e]
    ensures Told(Step(q, e), all)
  {
    match e
    case Choose(_) => ChooseStepTold(q, run, e, all);
    case End(id, outcome) =>
      var settled := Settled(q, id, outcome);
      EndStepTold(q, run, e, all, settled, Pump(settled), Step(q, e));
    case Retry(_, _) => RetryStepTold(q, run, e, all);
    case _ => DismissTold(q, run, e, all);
  }

  lemma NothingChosen(q: Queue, e: Event, all: seq<Event>)
    requires e.Choose? && Told(Enqueued(q, e.files), all)
    ensures e.files == [] ==> Told(q, all)
  {
    if e.files == [] {
      assert Enqueued(q, e.files) == q;
    }
  }

  lemma NothingRetried(q: Queue, items: seq<Item>, all: seq<Event>)
    requires Told(Requeued(q, items), all)
    ensures items == [] ==> Told(q, all)
  {
    if items == [] {
      assert Replace(q.uploads, items) == q.uploads;
      assert Requeued(q, items) == q;
    }
  }

  lemma {:induction false} RunEndsWith(q: Queue, run: seq<Event>, e: Event)
    requires IsRun(q, run + [e])
    ensures IsRun(q, run) && Possible(After(q, run), e) && (e.End? ==> After(q, run).active > 0)
    ensures After(q, run + [e]) == Step(After(q, run), e)
    decreases |run|
  {
    var all := run + [e];
    if run != [] {
      assert all[1..] == run[1..] + [e];
      RunEndsWith(Step(q, run[0]), run[1..], e);
    } else {
      assert all[1..] == [];
    }
  }

  /**
   After every sequence of events the rows are the files chosen and not taken off, in order, and each
   says what the events say: its key and size, how its upload last ended since it was last queued, and
   whether it may replace an object.
   */
  lemma {:induction false} EventsTellAll(run: seq<Event>, q: Queue)
    requires IsRun(START, run) && q == After(START, run)
    ensures Told(q, run)
    decreases |run|
  {
    if run != [] {
      var before, e := run[..|run| - 1], run[|run| - 1];
      assert run == before + [e];
      RunEndsWith(START, before, e);
      var earlier := After(START, before);
      EventsTellAll(before, earlier);
      OneMoreEvent(before, e, run, earlier, q);
    }
  }

  lemma OneMoreEvent(before: seq<Event>, e: Event, run: seq<Event>, earlier: Queue, q: Queue)
    requires run == before + [e] && IsRun(START, before) && earlier == After(START, before)
    requires Possible(earlier, e) && (e.End? ==> earlier.active > 0) && q == Step(earlier, e) && Told(earlier, before)
    ensures Told(q, run)
  {
    RunInv(START, before);
    StepTold(earlier, before, e, run);
  }

  /** What is sent: the first of the requests that the events name, each with its key and its flag. */
  lemma RequestsAreThoseNamed(run: seq<Event>, q: Queue)
    requires IsRun(START, run) && q == After(START, run)
    ensures q.started <= Queueings(run)
  {
    EventsTellAll(run, q);
    RunInv(START, run);
    SentFirst(q, run);
  }

  lemma SentFirst(q: Queue, run: seq<Event>)
    requires Inv(q) && Told(q, run)
    ensures q.started <= Queueings(run)
  {
    StartedFirst(q.started, Requests(q.pending), q.enqueued);
  }

  lemma StartedFirst(started: seq<Request>, waiting: seq<Request>, enqueued: seq<Request>)
    requires enqueued == started + waiting
    ensures started <= enqueued
  {
  }
}
