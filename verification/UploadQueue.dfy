/**
 The upload queue of the object browser (ObjectUploader in
 frontend/src/components/object-browser.tsx): at most three uploads at a time, retries and
 dismissals, driven by user events and by uploads that end.
 */
module UploadQueue {

  const MAX_CONCURRENT_UPLOADS := 3

  datatype Status = Queued | Uploading | Done | Error | Conflict

  datatype Item = Item(id: nat, key: string, overwrite: bool, loaded: nat, total: nat, status: Status)

  /** How an upload can end: stored, refused with 409, or failed. */
  datatype Outcome = Stored | Refused | Broke

  /** What an upload sends: whose it is, the key, and whether an object of that name may be replaced. */
  datatype Request = Request(id: nat, key: string, overwrite: bool)

  /**
   The state of the component. inFlight are the uploads whose promise has not settled; enqueued
   and started record, for the proofs, what entered the queue and what uploadObject was called
   with, in order; refreshes counts the calls of onUploaded.
   */
  datatype Queue = Queue(
    uploads: seq<Item>, pending: seq<Item>, active: nat, nextId: nat,
    inFlight: set<nat>, enqueued: seq<Request>, started: seq<Request>, refreshes: nat)

  function RequestOf(item: Item): Request {
    Request(item.id, item.key, item.overwrite)
  }

  function Requests(items: seq<Item>): (r: seq<Request>)
    ensures |r| == |items|
  {
    seq(|items|, i requires 0 <= i < |items| => RequestOf(items[i]))
  }

  function IdSet(items: seq<Item>): set<nat> {
    set i | 0 <= i < |items| :: items[i].id
  }

  predicate Idle(status: Status) {
    status != Queued && status != Uploading
  }

  // ---- The steps ----

  /** setUploads with a patch of one item: its status, and loaded when given. */
  function Patch(uploads: seq<Item>, id: nat, status: Status, reset: bool, full: bool): seq<Item> {
    seq(|uploads|, i requires 0 <= i < |uploads| =>
      var u := uploads[i];
      if u.id == id then u.(status := status, loaded := if reset then 0 else if full then u.total else u.loaded) else u)
  }

  /** Starts the first queued upload. */
  function StartFirst(q: Queue): Queue
    requires q.pending != []
  {
    var item := q.pending[0];
    q.(pending := q.pending[1..], active := q.active + 1, uploads := Patch(q.uploads, item.id, Uploading, true, false),
       inFlight := q.inFlight + {item.id}, started := q.started + [RequestOf(item)])
  }

  function Pump(q: Queue): Queue
    decreases |q.pending|
  {
    if q.active < MAX_CONCURRENT_UPLOADS && |q.pending| > 0 then Pump(StartFirst(q)) else q
  }

  /** The items of newly chosen files, each a key and a size. */
  function NewItems(files: seq<(string, nat)>, first: nat): seq<Item> {
    seq(|files|, i requires 0 <= i < |files| => Item(first + i, files[i].0, false, 0, files[i].1, Queued))
  }

  function Enqueued(q: Queue, files: seq<(string, nat)>): Queue {
    var items := NewItems(files, q.nextId);
    q.(uploads := q.uploads + items, pending := q.pending + items, nextId := q.nextId + |files|,
       enqueued := q.enqueued + Requests(items))
  }

  function Settled(q: Queue, id: nat, outcome: Outcome): Queue
    requires q.active > 0
  {
    var status := match outcome case Stored => Done case Refused => Conflict case Broke => Error;
    q.(uploads := Patch(q.uploads, id, status, false, outcome.Stored?), active := q.active - 1,
        inFlight := q.inFlight - {id})
  }

  /** The targets a retry takes, as they go into the queue. */
  function Retried(targets: seq<Item>, pendingIds: set<nat>, overwrite: bool): seq<Item> {
    if targets == [] then []
    else
      (if Idle(targets[0].status) && targets[0].id !in pendingIds
       then [targets[0].(overwrite := overwrite, status := Queued, loaded := 0)] else []) +
      Retried(targets[1..], pendingIds, overwrite)
  }

  /** The last of the given items with this id; JavaScript's Map keeps the last. */
  function Replacement(items: seq<Item>, u: Item): Item {
    if items == [] then u
    else if items[|items| - 1].id == u.id then items[|items| - 1]
    else Replacement(items[..|items| - 1], u)
  }

  function Replace(uploads: seq<Item>, items: seq<Item>): seq<Item> {
    seq(|uploads|, i requires 0 <= i < |uploads| => Replacement(items, uploads[i]))
  }

  function Requeued(q: Queue, items: seq<Item>): Queue {
    q.(uploads := Replace(q.uploads, items), pending := q.pending + items, enqueued := q.enqueued + Requests(items))
  }

  function Keep(uploads: seq<Item>, dismissed: set<nat>): seq<Item> {
    if uploads == [] then []
    else (if uploads[0].id in dismissed then [] else [uploads[0]]) + Keep(uploads[1..], dismissed)
  }

  // ---- What every event keeps ----

  ghost predicate DistinctIds(items: seq<Item>) {
    forall i, j :: 0 <= i < j < |items| ==> items[i].id != items[j].id
  }

  /** An item's status says exactly where it is. */
  ghost predicate Honest(u: Item, pendingIds: set<nat>, inFlight: set<nat>) {
    (u.status == Queued <==> u.id in pendingIds) && (u.status == Uploading <==> u.id in inFlight)
  }

  /** The rows shown: one per id, each honest, with every queued or running upload among them. */
  ghost predicate Rows(uploads: seq<Item>, pendingIds: set<nat>, inFlight: set<nat>, nextId: nat) {
    && DistinctIds(uploads)
    && pendingIds + inFlight <= IdSet(uploads)
    && (forall i :: 0 <= i < |uploads| ==> uploads[i].id < nextId && Honest(uploads[i], pendingIds, inFlight))
  }

  /** The queue itself: nothing twice, and nothing both queued and running. */
  ghost predicate Line(pending: seq<Item>, inFlight: set<nat>, active: nat) {
    && active == |inFlight| <= MAX_CONCURRENT_UPLOADS
    && DistinctIds(pending)
    && IdSet(pending) !! inFlight
  }

  ghost predicate Inv(q: Queue) {
    && Line(q.pending, q.inFlight, q.active)
    && Rows(q.uploads, IdSet(q.pending), q.inFlight, q.nextId)
    && q.enqueued == q.started + Requests(q.pending)
  }

  /** No upload slot stays free while something is queued. */
  ghost predicate Full(q: Queue) {
    q.active == MAX_CONCURRENT_UPLOADS || q.pending == []
  }

  lemma IdSetFirst(items: seq<Item>)
    requires items != []
    ensures IdSet(items) == {items[0].id} + IdSet(items[1..])
    ensures DistinctIds(items) ==> items[0].id !in IdSet(items[1..])
    ensures Requests(items) == [RequestOf(items[0])] + Requests(items[1..])
  {
    var rest := items[1..];
    forall x ensures x in IdSet(items) <==> x == items[0].id || x in IdSet(rest) {
      if x in IdSet(items) && x != items[0].id {
        var i :| 0 <= i < |items| && items[i].id == x;
        assert rest[i - 1].id == x;
      }
      if x in IdSet(rest) {
        var i :| 0 <= i < |rest| && rest[i].id == x;
        assert items[i + 1].id == x;
      }
    }
  }

  lemma IdSetConcat(a: seq<Item>, b: seq<Item>)
    ensures IdSet(a + b) == IdSet(a) + IdSet(b)
    ensures Requests(a + b) == Requests(a) + Requests(b)
    ensures DistinctIds(a) && DistinctIds(b) && IdSet(a) !! IdSet(b) ==> DistinctIds(a + b)
  {
    var c := a + b;
    forall x ensures x in IdSet(c) <==> x in IdSet(a) || x in IdSet(b) {
      if x in IdSet(a) {
        var i :| 0 <= i < |a| && a[i].id == x;
        assert c[i].id == x;
      }
      if x in IdSet(b) {
        var i :| 0 <= i < |b| && b[i].id == x;
        assert c[|a| + i].id == x;
      }
    }
    if DistinctIds(a) && DistinctIds(b) && IdSet(a) !! IdSet(b) {
      forall i, j | 0 <= i < |a| && 0 <= j < |b| ensures a[i].id != b[j].id {
        assert a[i].id in IdSet(a) && b[j].id in IdSet(b);
      }
    }
  }

  /** Two lists with the same ids in the same places. */
  lemma SameIds(a: seq<Item>, b: seq<Item>)
    requires |a| == |b| && forall i :: 0 <= i < |a| ==> a[i].id == b[i].id
    ensures IdSet(a) == IdSet(b) && (DistinctIds(a) ==> DistinctIds(b))
  {
    forall x ensures x in IdSet(a) <==> x in IdSet(b) {
      if x in IdSet(a) {
        var i :| 0 <= i < |a| && a[i].id == x;
        assert b[i].id == x;
      }
      if x in IdSet(b) {
        var i :| 0 <= i < |b| && b[i].id == x;
        assert a[i].id == x;
      }
    }
  }

  /** Patching one row's status along with the places it may be in. */
  lemma RowsPatch(uploads: seq<Item>, p: set<nat>, f: set<nat>, nextId: nat, id: nat, status: Status,
                  reset: bool, full: bool, p': set<nat>, f': set<nat>)
    requires Rows(uploads, p, f, nextId)
    requires p - {id} == p' - {id} && f - {id} == f' - {id}
    requires (status == Queued <==> id in p') && (status == Uploading <==> id in f')
    requires id in p' + f' ==> id in p + f
    ensures Rows(Patch(uploads, id, status, reset, full), p', f', nextId)
  {
    var t := Patch(uploads, id, status, reset, full);
    SameIds(uploads, t);
    forall x | x in p' + f' ensures x in p + f {
      if x != id {
        assert x in (p - {id}) + (f - {id});
      }
    }
    forall i | 0 <= i < |t| ensures t[i].id < nextId && Honest(t[i], p', f') {
      var x := uploads[i].id;
      assert Honest(uploads[i], p, f);
      if x != id {
        assert x in p <==> x in p - {id};
        assert x in f <==> x in f - {id};
      }
    }
  }

  lemma StartFirstInv(q: Queue)
    requires Inv(q) && q.pending != [] && q.active < MAX_CONCURRENT_UPLOADS
    ensures Inv(StartFirst(q))
  {
    var id := q.pending[0].id;
    IdSetFirst(q.pending);
    var rest := IdSet(q.pending[1..]);
    assert IdSet(q.pending) - {id} == rest - {id};
    assert q.inFlight - {id} == q.inFlight + {id} - {id};
    RowsPatch(q.uploads, IdSet(q.pending), q.inFlight, q.nextId, id, Uploading, true, false, rest, q.inFlight + {id});
    LineStart(q.pending, q.inFlight, q.active);
    Assoc(q.started, [RequestOf(q.pending[0])], Requests(q.pending[1..]));
  }

  lemma Assoc(a: seq<Request>, b: seq<Request>, c: seq<Request>)
    ensures (a + b) + c == a + (b + c)
  {
  }

  lemma LineStart(pending: seq<Item>, inFlight: set<nat>, active: nat)
    requires Line(pending, inFlight, active) && pending != [] && active < MAX_CONCURRENT_UPLOADS
    ensures Line(pending[1..], inFlight + {pending[0].id}, active + 1)
  {
    IdSetFirst(pending);
  }

  lemma {:induction false} PumpInv(q: Queue)
    requires Inv(q)
    ensures Inv(Pump(q)) && Full(Pump(q))
    ensures Pump(q).refreshes == q.refreshes && Pump(q).enqueued == q.enqueued
    decreases |q.pending|
  {
    if q.active < MAX_CONCURRENT_UPLOADS && |q.pending| > 0 {
      StartFirstInv(q);
      PumpInv(StartFirst(q));
    }
  }

  lemma RowsEnqueue(uploads: seq<Item>, p: set<nat>, f: set<nat>, nextId: nat, items: seq<Item>)
    requires Rows(uploads, p, f, nextId) && DistinctIds(items)
    requires forall i :: 0 <= i < |items| ==> nextId <= items[i].id < nextId + |items| && items[i].status == Queued
    ensures IdSet(items) !! p + f
    ensures Rows(uploads + items, p + IdSet(items), f, nextId + |items|)
  {
    var t := uploads + items;
    forall x | x in IdSet(uploads) ensures x < nextId {
    }
    forall x | x in IdSet(items) ensures x >= nextId {
    }
    IdSetConcat(uploads, items);
    forall i | 0 <= i < |t| ensures t[i].id < nextId + |items| && Honest(t[i], p + IdSet(items), f) {
      if i < |uploads| {
        assert Honest(uploads[i], p, f);
        assert uploads[i].id < nextId;
      } else {
        assert items[i - |uploads|].id in IdSet(items);
      }
    }
  }

  lemma EnqueueInv(q: Queue, files: seq<(string, nat)>)
    requires Inv(q)
    ensures Inv(Enqueued(q, files))
  {
    var items := NewItems(files, q.nextId);
    RowsEnqueue(q.uploads, IdSet(q.pending), q.inFlight, q.nextId, items);
    IdSetConcat(q.pending, items);
    Assoc(q.started, Requests(q.pending), Requests(items));
  }

  lemma SettledInv(q: Queue, id: nat, outcome: Outcome)
    requires Inv(q) && id in q.inFlight
    ensures q.active > 0 && Inv(Settled(q, id, outcome))
  {
    var status := match outcome case Stored => Done case Refused => Conflict case Broke => Error;
    RowsPatch(q.uploads, IdSet(q.pending), q.inFlight, q.nextId, id, status, false, outcome.Stored?,
              IdSet(q.pending), q.inFlight - {id});
  }

  /** Some item has this id, and it is neither queued nor running. */
  ghost predicate HasIdle(items: seq<Item>, id: nat) {
    exists i :: 0 <= i < |items| && items[i].id == id && Idle(items[i].status)
  }

  /** A retried item: back to queued, and one of the idle targets. */
  ghost predicate RetryOf(targets: seq<Item>, pendingIds: set<nat>, overwrite: bool, u: Item) {
    u.status == Queued && u.id !in pendingIds && u.overwrite == overwrite && HasIdle(targets, u.id)
  }

  lemma {:induction false} RetriedFacts(targets: seq<Item>, pendingIds: set<nat>, overwrite: bool)
    ensures forall i :: 0 <= i < |Retried(targets, pendingIds, overwrite)| ==>
              RetryOf(targets, pendingIds, overwrite, Retried(targets, pendingIds, overwrite)[i])
    ensures DistinctIds(targets) ==> DistinctIds(Retried(targets, pendingIds, overwrite))
  {
    if targets != [] {
      RetriedFacts(targets[1..], pendingIds, overwrite);
      var rest := Retried(targets[1..], pendingIds, overwrite);
      forall j | 0 <= j < |rest|
        ensures RetryOf(targets, pendingIds, overwrite, rest[j])
        ensures DistinctIds(targets) ==> targets[0].id != rest[j].id
      {
        assert RetryOf(targets[1..], pendingIds, overwrite, rest[j]);
      }
    }
  }

  lemma {:induction false} ReplacementFacts(items: seq<Item>, u: Item)
    ensures Replacement(items, u).id == u.id
    ensures u.id in IdSet(items) ==> Replacement(items, u) in items
    ensures u.id !in IdSet(items) ==> Replacement(items, u) == u
  {
    if items != [] {
      var n := |items| - 1;
      IdSetConcat(items[..n], [items[n]]);
      assert items == items[..n] + [items[n]];
      ReplacementFacts(items[..n], u);
    }
  }

  lemma RowsReplace(uploads: seq<Item>, p: set<nat>, f: set<nat>, nextId: nat, items: seq<Item>)
    requires Rows(uploads, p, f, nextId)
    requires IdSet(items) <= IdSet(uploads) && IdSet(items) !! p + f
    requires forall u :: u in items ==> u.status == Queued
    ensures Rows(Replace(uploads, items), p + IdSet(items), f, nextId)
  {
    var t := Replace(uploads, items);
    forall i | 0 <= i < |t|
      ensures t[i].id == uploads[i].id && t[i].id < nextId && Honest(t[i], p + IdSet(items), f)
    {
      ReplacementFacts(items, uploads[i]);
      assert Honest(uploads[i], p, f);
    }
    SameIds(uploads, t);
  }

  lemma RequeueInv(q: Queue, items: seq<Item>)
    requires Inv(q) && DistinctIds(items) && IdSet(items) <= IdSet(q.uploads)
    requires IdSet(items) !! IdSet(q.pending) + q.inFlight
    requires forall u :: u in items ==> u.status == Queued
    ensures Inv(Requeued(q, items))
  {
    RowsReplace(q.uploads, IdSet(q.pending), q.inFlight, q.nextId, items);
    IdSetConcat(q.pending, items);
    Assoc(q.started, Requests(q.pending), Requests(items));
  }

  lemma {:induction false} KeepFacts(uploads: seq<Item>, dismissed: set<nat>)
    ensures forall u :: u in Keep(uploads, dismissed) <==> u in uploads && u.id !in dismissed
    ensures DistinctIds(uploads) ==> DistinctIds(Keep(uploads, dismissed))
  {
    if uploads != [] {
      KeepFacts(uploads[1..], dismissed);
      var rest := Keep(uploads[1..], dismissed);
      if DistinctIds(uploads) {
        forall j | 0 <= j < |rest| ensures rest[j].id != uploads[0].id {
          assert rest[j] in uploads[1..];
          var i :| 0 <= i < |uploads[1..]| && uploads[1..][i] == rest[j];
          assert uploads[i + 1].id == rest[j].id;
        }
      }
    }
  }

  lemma RowsKeep(uploads: seq<Item>, p: set<nat>, f: set<nat>, nextId: nat, dismissed: set<nat>)
    requires Rows(uploads, p, f, nextId) && dismissed !! p + f
    ensures Rows(Keep(uploads, dismissed), p, f, nextId)
  {
    KeepFacts(uploads, dismissed);
    var t := Keep(uploads, dismissed);
    forall x | x in p + f ensures x in IdSet(t) {
      assert x in IdSet(uploads);
      var i :| 0 <= i < |uploads| && uploads[i].id == x;
      assert uploads[i] in t;
      var j :| 0 <= j < |t| && t[j] == uploads[i];
    }
    forall i | 0 <= i < |t| ensures t[i].id < nextId && Honest(t[i], p, f) {
      assert t[i] in t;
      var j :| 0 <= j < |uploads| && uploads[j] == t[i];
    }
  }

  // ---- Events and runs ----

  datatype Event =
    | Choose(files: seq<(string, nat)>)
    | End(id: nat, outcome: Outcome)
    | Retry(targets: seq<Item>, overwrite: bool)
    | SkipConflicts
    | ClearFinished
    | SkipOne(id: nat)

  /** The rows a dismissal drops, by their status at that moment. */
  predicate Dismisses(e: Event, u: Item) {
    match e
    case SkipConflicts => u.status == Conflict
    case ClearFinished => u.status == Done || u.status == Error
    case SkipOne(id) => u.id == id
    case _ => false
  }

  function Dismissed(e: Event, uploads: seq<Item>): set<nat> {
    set i | 0 <= i < |uploads| && Dismisses(e, uploads[i]) :: uploads[i].id
  }

  /**
   What can happen in a state: files are chosen at any time, an upload ends only while it runs,
   a retry names rows as they are shown, and the skip button is on conflict rows only.
   */
  ghost predicate Possible(q: Queue, e: Event) {
    match e
    case End(id, _) => id in q.inFlight
    case Retry(targets, _) => DistinctIds(targets) && forall i :: 0 <= i < |targets| ==> targets[i] in q.uploads
    case SkipOne(id) => exists i :: 0 <= i < |q.uploads| && q.uploads[i].id == id && q.uploads[i].status == Conflict
    case _ => true
  }

  function Step(q: Queue, e: Event): Queue
    requires e.End? ==> q.active > 0
  {
    match e
    case Choose(files) => if files == [] then q else Pump(Enqueued(q, files))
    case End(id, outcome) =>
      var r := Pump(Settled(q, id, outcome));
      if r.active == 0 then r.(refreshes := r.refreshes + 1) else r
    case Retry(targets, overwrite) =>
      var items := Retried(targets, IdSet(q.pending), overwrite);
      if items == [] then q else Pump(Requeued(q, items))
    case _ => q.(uploads := Keep(q.uploads, Dismissed(e, q.uploads)))
  }

  lemma DismissInv(q: Queue, e: Event)
    requires Inv(q) && Possible(q, e) && (e.SkipConflicts? || e.ClearFinished? || e.SkipOne?)
    ensures Inv(q.(uploads := Keep(q.uploads, Dismissed(e, q.uploads))))
  {
    forall x | x in Dismissed(e, q.uploads) ensures x !in IdSet(q.pending) + q.inFlight {
      var i :| 0 <= i < |q.uploads| && Dismisses(e, q.uploads[i]) && q.uploads[i].id == x;
      if e.SkipOne? {
        var j :| 0 <= j < |q.uploads| && q.uploads[j].id == e.id && q.uploads[j].status == Conflict;
        assert Honest(q.uploads[j], IdSet(q.pending), q.inFlight);
      }
      assert Honest(q.uploads[i], IdSet(q.pending), q.inFlight);
    }
    RowsKeep(q.uploads, IdSet(q.pending), q.inFlight, q.nextId, Dismissed(e, q.uploads));
  }

  lemma RetryInv(q: Queue, targets: seq<Item>, overwrite: bool)
    requires Inv(q) && Possible(q, Retry(targets, overwrite))
    ensures Inv(Requeued(q, Retried(targets, IdSet(q.pending), overwrite)))
  {
    var items := Retried(targets, IdSet(q.pending), overwrite);
    RetriedFacts(targets, IdSet(q.pending), overwrite);
    forall x | x in IdSet(items) ensures x in IdSet(q.uploads) && x !in IdSet(q.pending) + q.inFlight {
      var i :| 0 <= i < |items| && items[i].id == x;
      assert RetryOf(targets, IdSet(q.pending), overwrite, items[i]);
      var k :| 0 <= k < |targets| && targets[k].id == x && Idle(targets[k].status);
      assert targets[k] in q.uploads;
      var j :| 0 <= j < |q.uploads| && q.uploads[j] == targets[k];
      assert Honest(q.uploads[j], IdSet(q.pending), q.inFlight);
    }
    RequeueInv(q, items);
  }

  /** The listing is refreshed exactly when an upload ended and nothing is left running or queued. */
  ghost predicate Refreshes(q: Queue, e: Event, r: Queue) {
    r.refreshes == q.refreshes + if e.End? && r.inFlight == {} && r.pending == [] then 1 else 0
  }

  lemma ChooseStep(q: Queue, e: Event)
    requires Inv(q) && Full(q) && e.Choose?
    ensures Inv(Step(q, e)) && Full(Step(q, e)) && Refreshes(q, e, Step(q, e))
  {
    EnqueueInv(q, e.files);
    PumpInv(Enqueued(q, e.files));
  }

  lemma EndStep(q: Queue, e: Event)
    requires Inv(q) && e.End? && Possible(q, e)
    ensures q.active > 0 && Inv(Step(q, e)) && Full(Step(q, e)) && Refreshes(q, e, Step(q, e))
  {
    SettledInv(q, e.id, e.outcome);
    PumpInv(Settled(q, e.id, e.outcome));
  }

  lemma RetryStep(q: Queue, e: Event)
    requires Inv(q) && Full(q) && e.Retry? && Possible(q, e)
    ensures Inv(Step(q, e)) && Full(Step(q, e)) && Refreshes(q, e, Step(q, e))
  {
    RetryInv(q, e.targets, e.overwrite);
    PumpInv(Requeued(q, Retried(e.targets, IdSet(q.pending), e.overwrite)));
  }

  /**
   Every event keeps the invariant, leaves no slot free while something is queued, and calls
   onUploaded exactly when the queue has drained.
   */
  lemma StepInv(q: Queue, e: Event)
    requires Inv(q) && Full(q) && Possible(q, e)
    ensures (e.End? ==> q.active > 0) && Inv(Step(q, e)) && Full(Step(q, e)) && Refreshes(q, e, Step(q, e))
  {
    match e
    case Choose(_) => ChooseStep(q, e);
    case End(_, _) => EndStep(q, e);
    case Retry(_, _) => RetryStep(q, e);
    case _ => DismissInv(q, e);
  }

  const START := Queue([], [], 0, 1, {}, [], [], 0)

  ghost predicate IsRun(q: Queue, run: seq<Event>)
    decreases |run|
  {
    run == [] || (Possible(q, run[0]) && (run[0].End? ==> q.active > 0) && IsRun(Step(q, run[0]), run[1..]))
  }

  ghost function After(q: Queue, run: seq<Event>): Queue
    requires IsRun(q, run)
    decreases |run|
  {
    if run == [] then q else After(Step(q, run[0]), run[1..])
  }

  lemma {:induction false} RunInv(q: Queue, run: seq<Event>)
    requires Inv(q) && Full(q) && IsRun(q, run)
    ensures Inv(After(q, run)) && Full(After(q, run))
    decreases |run|
  {
    if run != [] {
      StepInv(q, run[0]);
      RunInv(Step(q, run[0]), run[1..]);
    }
  }

  /**
   What holds after every sequence of events: as many uploads run as the counter says and at
   most three, nothing is queued twice or both queued and running, every row's status says
   where its upload is, uploads begin in the order they were queued, and a free slot means an
   empty queue.
   */
  lemma EveryRun(run: seq<Event>)
    requires IsRun(START, run)
    ensures var q := After(START, run);
            && q.active == |q.inFlight| <= 3
            && DistinctIds(q.pending) && IdSet(q.pending) !! q.inFlight
            && (forall i :: 0 <= i < |q.uploads| ==> Honest(q.uploads[i], IdSet(q.pending), q.inFlight))
            && q.started <= q.enqueued && q.enqueued[|q.started|..] == Requests(q.pending)
            && (q.active < MAX_CONCURRENT_UPLOADS ==> q.pending == [])
  {
    RunInv(START, run);
  }

  // ---- The component ----

  class ObjectUploader {
    var uploads: seq<Item>
    var pendingUploads: seq<Item>
    var activeUploads: nat
    var nextUploadId: nat
    var refreshes: nat
    ghost var inFlight: set<nat>
    ghost var enqueued: seq<Request>
    ghost var started: seq<Request>

    ghost function View(): Queue
      reads this
    {
      Queue(uploads, pendingUploads, activeUploads, nextUploadId, inFlight, enqueued, started, refreshes)
    }

    constructor ()
      ensures View() == START
    {
      uploads, pendingUploads, activeUploads, nextUploadId, refreshes := [], [], 0, 1, 0;
      inFlight, enqueued, started := {}, [], [];
    }

    /**
     The row with the id, if it is still shown, gets the status and, when asked for, its bytes sent set
     back to none or up to all; everything else about it, and every other row, stays.
     */
    method PatchUpload(id: nat, status: Status, reset: bool, full: bool)
      modifies this`uploads
      ensures |uploads| == |old(uploads)|
      ensures forall i :: 0 <= i < |uploads| && old(uploads)[i].id != id ==> uploads[i] == old(uploads)[i]
      ensures forall i :: 0 <= i < |uploads| && old(uploads)[i].id == id ==>
                var was, row := old(uploads)[i], uploads[i];
                && row.status == status
                && row.loaded == (if reset then 0 else if full then was.total else was.loaded)
                && row.id == id && row.key == was.key && row.overwrite == was.overwrite && row.total == was.total
      ensures uploads == Patch(old(uploads), id, status, reset, full)
    {
      uploads := Patch(uploads, id, status, reset, full);
    }

    method PumpUploads()
      modifies this
      ensures View() == Pump(old(View()))
    {
      while activeUploads < MAX_CONCURRENT_UPLOADS && |pendingUploads| > 0
        invariant Pump(View()) == Pump(old(View()))
        decreases |pendingUploads|
      {
        var item := pendingUploads[0];
        pendingUploads := pendingUploads[1..];
        activeUploads := activeUploads + 1;
        PatchUpload(item.id, Uploading, true, false);
        inFlight, started := inFlight + {item.id}, started + [RequestOf(item)];
      }
    }

    method EnqueueFiles(files: seq<(string, nat)>)
      modifies this
      ensures View() == Step(old(View()), Choose(files))
    {
      if |files| == 0 {
        return;
      }
      var items := NewItems(files, nextUploadId);
      nextUploadId := nextUploadId + |files|;
      uploads := uploads + items;
      pendingUploads := pendingUploads + items;
      enqueued := enqueued + Requests(items);
      PumpUploads();
    }

    /** The promise of one upload settles: the patch of then or catch, and then the finally. */
    method Settle(id: nat, outcome: Outcome)
      requires activeUploads > 0
      modifies this
      ensures View() == Step(old(View()), End(id, outcome))
    {
      match outcome {
        case Stored => PatchUpload(id, Done, false, true);
        case Refused => PatchUpload(id, Conflict, false, false);
        case Broke => PatchUpload(id, Error, false, false);
      }
      inFlight := inFlight - {id};
      activeUploads := activeUploads - 1;
      PumpUploads();
      if activeUploads == 0 {
        refreshes := refreshes + 1;
      }
    }

    method Requeue(targets: seq<Item>, overwrite: bool)
      modifies this
      ensures View() == Step(old(View()), Retry(targets, overwrite))
    {
      var pendingIds := IdSet(pendingUploads);
      var retried := Retried(targets, pendingIds, overwrite);
      if |retried| == 0 {
        return;
      }
      uploads := Replace(uploads, retried);
      pendingUploads := pendingUploads + retried;
      enqueued := enqueued + Requests(retried);
      PumpUploads();
    }

    method DismissUploads(e: Event)
      requires e.SkipConflicts? || e.ClearFinished? || e.SkipOne?
      modifies this`uploads
      ensures View() == Step(old(View()), e)
    {
      uploads := Keep(uploads, Dismissed(e, uploads));
    }
  }
}
