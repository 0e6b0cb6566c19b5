/**
 The worker pool of fetchInfoConcurrently (backend/list_enrich.go) as interleaved steps: a
 feeder handing indices to workers over a rendezvous channel, workers that fetch, store into
 the shared cache and write into the shared slice, and cancellation at any moment.
 */
module FetchPool {
  import opened Options

  const ENRICH_WORKERS := 8

  /** The decoded answer of GetBucketInfo or GetKeyInfo; nothing here looks inside. */
  type Info = string

  /**
   One call: the ids, what the cache had for each, the indices it lacked, and which answers a
   fetch can give for an id.
   */
  datatype Job = Job(ids: seq<string>, cached: seq<Option<Info>>, todo: seq<nat>, answers: (string, Info) -> bool)

  /** todo names every index without a cached value, once. */
  ghost predicate WellFormed(job: Job) {
    && |job.cached| == |job.ids|
    && (forall k :: 0 <= k < |job.todo| ==> job.todo[k] < |job.ids| && job.cached[job.todo[k]].None?)
    && (forall k, l :: 0 <= k < l < |job.todo| ==> job.todo[k] != job.todo[l])
    && (forall i :: 0 <= i < |job.ids| && job.cached[i].None? ==> i in job.todo)
  }

  /** The indices from k on that the cache did not have, in order. */
  function Missing(cached: seq<Option<Info>>, k: nat): (todo: seq<nat>)
    decreases |cached| - k
  {
    if k >= |cached| then []
    else if cached[k].None? then [k] + Missing(cached, k + 1)
    else Missing(cached, k + 1)
  }

  /** todo lists exactly the indices from k on that have no cached value, in order. */
  ghost predicate ListsMissing(cached: seq<Option<Info>>, k: nat, todo: seq<nat>) {
    && (forall j :: 0 <= j < |todo| ==> k <= todo[j] < |cached| && cached[todo[j]].None?)
    && (forall i, j :: 0 <= i < j < |todo| ==> todo[i] < todo[j])
    && (forall i :: k <= i < |cached| && cached[i].None? ==> i in todo)
  }

  lemma OneMoreMissing(cached: seq<Option<Info>>, k: nat, rest: seq<nat>)
    requires k < |cached| && cached[k].None? && ListsMissing(cached, k + 1, rest)
    ensures ListsMissing(cached, k, [k] + rest)
  {
    var todo := [k] + rest;
    forall i: nat | k <= i < |cached| && cached[i].None? ensures i in todo {
      if i == k {
        assert todo[0] == i;
      } else {
        var j :| 0 <= j < |rest| && rest[j] == i;
        assert todo[j + 1] == i;
      }
    }
  }

  lemma KeepMissing(cached: seq<Option<Info>>, k: nat, rest: seq<nat>)
    requires k < |cached| && cached[k].Some? && ListsMissing(cached, k + 1, rest)
    ensures ListsMissing(cached, k, rest)
  {
  }

  lemma {:induction false} MissingFacts(cached: seq<Option<Info>>, k: nat, todo: seq<nat>)
    requires todo == Missing(cached, k)
    ensures ListsMissing(cached, k, todo)
    decreases |cached| - k
  {
    if k < |cached| {
      var rest := Missing(cached, k + 1);
      MissingFacts(cached, k + 1, rest);
      if cached[k].None? {
        OneMoreMissing(cached, k, rest);
      } else {
        KeepMissing(cached, k, rest);
      }
    }
  }

  /** The first loop: reuse what the cache has, and list what it lacks. */
  method SplitCached(cached: seq<Option<Info>>) returns (out: seq<Option<Info>>, todo: seq<nat>)
    ensures out == cached && todo == Missing(cached, 0)
  {
    out, todo := [], [];
    var i := 0;
    while i < |cached|
      invariant i <= |cached|
      invariant out == cached[..i]
      invariant todo + Missing(cached, i) == Missing(cached, 0)
    {
      if cached[i].Some? {
        out := out + [Some(cached[i].value)];
      } else {
        out := out + [None];
        todo := todo + [i];
      }
      i := i + 1;
    }
  }

  lemma SplitIsWellFormed(job: Job)
    requires |job.cached| == |job.ids| && job.todo == Missing(job.cached, 0)
    ensures WellFormed(job)
  {
    MissingFacts(job.cached, 0, job.todo);
  }

  // ---- The pool ----

  /** Where a worker stands; the last states are between the fetch, cache.put and the write to out. */
  datatype Worker = Idle | Fetching(i: nat) | Fetched(i: nat, v: Info) | Stored(i: nat, v: Info) | Exited

  /**
   pos counts the indices handed out, closed says that the feeder has closed the channel, and
   cut that it did so because of cancellation. The last three record, for the proofs, which
   worker has an index, how each finished fetch ended, and which elements of out were written.
   */
  datatype Pool = Pool(
    pos: nat, closed: bool, cut: bool, cancelled: bool,
    workers: seq<Worker>, out: seq<Option<Info>>, cache: map<string, Info>,
    owner: map<nat, nat>, results: map<nat, Option<Info>>, written: seq<nat>)

  datatype Action =
    | Send(w: nat)
    | StopFeeding
    | CloseJobs
    | FetchOk(w: nat, v: Info)
    | FetchErr(w: nat)
    | Put(w: nat)
    | Write(w: nat)
    | Exit(w: nat)
    | Cancel

  function Min(a: nat, b: nat): nat {
    if a <= b then a else b
  }

  function Start(job: Job, cache: map<string, Info>): Pool {
    Pool(0, false, false, false, seq(Min(ENRICH_WORKERS, |job.todo|), _ => Idle), job.cached, cache, map[], map[], [])
  }

  predicate Enabled(job: Job, s: Pool, a: Action) {
    match a
    case Send(w) => !s.closed && s.pos < |job.todo| && w < |s.workers| && s.workers[w].Idle?
    case StopFeeding => !s.closed && s.pos < |job.todo| && s.cancelled
    case CloseJobs => !s.closed && s.pos == |job.todo|
    case FetchOk(w, v) =>
      w < |s.workers| && s.workers[w].Fetching? && s.workers[w].i < |job.ids| && job.answers(job.ids[s.workers[w].i], v)
    case FetchErr(w) => w < |s.workers| && s.workers[w].Fetching?
    case Put(w) => w < |s.workers| && s.workers[w].Fetched? && s.workers[w].i < |job.ids|
    case Write(w) => w < |s.workers| && s.workers[w].Stored? && s.workers[w].i < |s.out|
    case Exit(w) => s.closed && w < |s.workers| && s.workers[w].Idle?
    case Cancel => !s.cancelled
  }

  function Apply(job: Job, s: Pool, a: Action): Pool
    requires Enabled(job, s, a)
  {
    match a
    case Send(w) =>
      var i := job.todo[s.pos];
      s.(pos := s.pos + 1, workers := s.workers[w := Fetching(i)], owner := s.owner[i := w])
    case StopFeeding => s.(closed := true, cut := true)
    case CloseJobs => s.(closed := true)
    case FetchOk(w, v) =>
      var i := s.workers[w].i;
      s.(workers := s.workers[w := Fetched(i, v)], results := s.results[i := Some(v)])
    case FetchErr(w) =>
      var i := s.workers[w].i;
      s.(workers := s.workers[w := Idle], results := s.results[i := None], owner := s.owner - {i})
    case Put(w) =>
      var Fetched(i, v) := s.workers[w];
      s.(workers := s.workers[w := Stored(i, v)], cache := s.cache[job.ids[i] := v])
    case Write(w) =>
      var Stored(i, v) := s.workers[w];
      s.(workers := s.workers[w := Idle], out := s.out[i := Some(v)], written := s.written + [i],
          owner := s.owner - {i})
    case Exit(w) => s.(workers := s.workers[w := Exited])
    case Cancel => s.(cancelled := true)
  }

  /** wg.Wait has returned. */
  predicate Finished(s: Pool) {
    s.closed && forall w :: 0 <= w < |s.workers| ==> s.workers[w].Exited?
  }

  ghost predicate IsRun(job: Job, s: Pool, run: seq<Action>)
    decreases |run|
  {
    run == [] || (Enabled(job, s, run[0]) && IsRun(job, Apply(job, s, run[0]), run[1..]))
  }

  function After(job: Job, s: Pool, run: seq<Action>): Pool
    requires IsRun(job, s, run)
    decreases |run|
  {
    if run == [] then s else After(job, Apply(job, s, run[0]), run[1..])
  }

  // ---- What every step keeps ----

  predicate Busy(worker: Worker) {
    !worker.Idle? && !worker.Exited?
  }

  /** Sizes, and the state of the channel. */
  ghost predicate Shape(job: Job, s: Pool) {
    && s.pos <= |job.todo|
    && |s.workers| == Min(ENRICH_WORKERS, |job.todo|)
    && |s.out| == |job.cached| == |job.ids|
    && (s.cut ==> s.cancelled && s.closed)
    && (s.closed && !s.cut ==> s.pos == |job.todo|)
    && (forall w :: 0 <= w < |s.workers| && s.workers[w].Exited? ==> s.closed)
  }

  /** Busy workers and the indices under way correspond one to one. */
  ghost predicate Exclusive(workers: seq<Worker>, owner: map<nat, nat>) {
    && (forall w :: 0 <= w < |workers| && Busy(workers[w]) ==> workers[w].i in owner && owner[workers[w].i] == w)
    && (forall i :: i in owner ==> owner[i] < |workers| && Busy(workers[owner[i]]) && workers[owner[i]].i == i)
  }

  /** What a worker knows about the index it has. */
  ghost predicate Honest(worker: Worker, results: map<nat, Option<Info>>, written: seq<nat>) {
    match worker
    case Fetching(i) => i !in results
    case Fetched(i, v) => i in results && results[i] == Some(v) && i !in written
    case Stored(i, v) => i in results && results[i] == Some(v) && i !in written
    case _ => true
  }

  ghost predicate AllHonest(workers: seq<Worker>, results: map<nat, Option<Info>>, written: seq<nat>) {
    forall w :: 0 <= w < |workers| ==> Honest(workers[w], results, written)
  }

  /** Every index handed out is with a worker or finished, and no other is. */
  ghost predicate NothingDropped(taken: seq<nat>, owner: map<nat, nat>, results: map<nat, Option<Info>>,
                                 written: seq<nat>) {
    && (forall i :: i in owner || i in results ==> i in taken)
    && (forall i :: i in taken ==> i in owner || i in results)
    && (forall i :: i in results && results[i].Some? && i !in written ==> i in owner)
  }

  /** The output: cached values, plus exactly the results written, each once. */
  ghost predicate Output(job: Job, out: seq<Option<Info>>, results: map<nat, Option<Info>>, written: seq<nat>)
    requires |out| == |job.cached|
  {
    && (forall i :: i in written ==> i in results && results[i].Some?)
    && (forall k, l :: 0 <= k < l < |written| ==> written[k] != written[l])
    && (forall i :: 0 <= i < |out| ==> out[i] == if i in written && i in results then results[i] else job.cached[i])
  }

  /** Every value fetched answers the id it was asked for. */
  ghost predicate Truthful(job: Job, results: map<nat, Option<Info>>) {
    forall i :: i in results && results[i].Some? ==> i < |job.ids| && job.answers(job.ids[i], results[i].value)
  }

  /** The protocol: who has which index. */
  ghost predicate Control(job: Job, s: Pool) {
    && Shape(job, s)
    && Exclusive(s.workers, s.owner)
    && AllHonest(s.workers, s.results, s.written)
  }

  /** The data: what has become of every index. */
  ghost predicate Data(job: Job, s: Pool) {
    && |s.out| == |job.cached| == |job.ids|
    && s.pos <= |job.todo|
    && NothingDropped(job.todo[..s.pos], s.owner, s.results, s.written)
    && Output(job, s.out, s.results, s.written)
    && Truthful(job, s.results)
  }

  ghost predicate Inv(job: Job, s: Pool) {
    WellFormed(job) && Control(job, s) && Data(job, s)
  }

  lemma StartInv(job: Job, cache: map<string, Info>)
    requires WellFormed(job)
    ensures Inv(job, Start(job, cache))
  {
  }

  lemma Keep(workers: seq<Worker>, owner: map<nat, nat>, w: nat, x: Worker)
    requires Exclusive(workers, owner) && w < |workers| && Busy(workers[w]) && Busy(x) && x.i == workers[w].i
    ensures Exclusive(workers[w := x], owner)
  {
  }

  lemma TakeNext(job: Job, pos: nat)
    requires WellFormed(job) && pos < |job.todo|
    ensures job.todo[pos] !in job.todo[..pos]
    ensures job.todo[..pos + 1] == job.todo[..pos] + [job.todo[pos]]
  {
  }

  lemma Take(workers: seq<Worker>, owner: map<nat, nat>, w: nat, i: nat)
    requires Exclusive(workers, owner) && w < |workers| && workers[w].Idle? && i !in owner
    ensures Exclusive(workers[w := Fetching(i)], owner[i := w])
  {
  }

  lemma SendInv(job: Job, s: Pool, w: nat)
    requires Inv(job, s) && Enabled(job, s, Send(w))
    ensures Inv(job, Apply(job, s, Send(w)))
  {
    var i := job.todo[s.pos];
    TakeNext(job, s.pos);
    Take(s.workers, s.owner, w, i);
  }

  /** A worker that has written its result or failed gives its index up. */
  lemma Release(workers: seq<Worker>, owner: map<nat, nat>, w: nat)
    requires Exclusive(workers, owner) && w < |workers| && Busy(workers[w])
    ensures Exclusive(workers[w := Idle], owner - {workers[w].i})
  {
  }

  /** The end of a fetch is news about the index of that worker only. */
  lemma HonestFetch(workers: seq<Worker>, owner: map<nat, nat>, results: map<nat, Option<Info>>, written: seq<nat>,
                    w: nat, i: nat, r: Option<Info>, x: Worker)
    requires Exclusive(workers, owner) && AllHonest(workers, results, written)
    requires w < |workers| && workers[w] == Fetching(i) && i !in written
    requires x == if r.Some? then Fetched(i, r.value) else Idle
    ensures AllHonest(workers[w := x], results[i := r], written)
  {
    var now := workers[w := x];
    forall u | 0 <= u < |now| ensures Honest(now[u], results[i := r], written) {
      assert Honest(workers[u], results, written);
    }
  }

  lemma FetchControl(job: Job, s: Pool, w: nat, a: Action)
    requires Control(job, s) && Enabled(job, s, a) && (a.FetchOk? || a == FetchErr(w)) && a.w == w
    requires s.workers[w].i !in s.written
    ensures Control(job, Apply(job, s, a))
  {
    var i := s.workers[w].i;
    if a.FetchOk? {
      HonestFetch(s.workers, s.owner, s.results, s.written, w, i, Some(a.v), Fetched(i, a.v));
      Keep(s.workers, s.owner, w, Fetched(i, a.v));
    } else {
      HonestFetch(s.workers, s.owner, s.results, s.written, w, i, None, Idle);
      Release(s.workers, s.owner, w);
    }
  }

  lemma FetchData(job: Job, s: Pool, w: nat, a: Action)
    requires Data(job, s) && Enabled(job, s, a) && (a.FetchOk? || a == FetchErr(w)) && a.w == w
    requires s.workers[w].i in s.owner && s.workers[w].i !in s.results
    ensures Data(job, Apply(job, s, a))
  {
    var i := s.workers[w].i;
    var r := if a.FetchOk? then Some(a.v) else None;
  }

  lemma HonestStore(workers: seq<Worker>, results: map<nat, Option<Info>>, written: seq<nat>, w: nat)
    requires AllHonest(workers, results, written) && w < |workers| && workers[w].Fetched?
    ensures AllHonest(workers[w := Stored(workers[w].i, workers[w].v)], results, written)
  {
    assert Honest(workers[w], results, written);
  }

  lemma PutInv(job: Job, s: Pool, w: nat)
    requires Inv(job, s) && Enabled(job, s, Put(w))
    ensures Inv(job, Apply(job, s, Put(w)))
  {
    HonestStore(s.workers, s.results, s.written, w);
    Keep(s.workers, s.owner, w, Stored(s.workers[w].i, s.workers[w].v));
  }

  lemma WriteControl(job: Job, s: Pool, w: nat)
    requires Control(job, s) && Enabled(job, s, Write(w))
    ensures Control(job, Apply(job, s, Write(w)))
  {
    Release(s.workers, s.owner, w);
  }

  lemma WriteData(job: Job, s: Pool, w: nat)
    requires Data(job, s) && Enabled(job, s, Write(w))
    requires s.workers[w].i in s.owner && Honest(s.workers[w], s.results, s.written)
    ensures Data(job, Apply(job, s, Write(w)))
  {
  }

  lemma ExitInv(job: Job, s: Pool, w: nat)
    requires Inv(job, s) && Enabled(job, s, Exit(w))
    ensures Inv(job, Apply(job, s, Exit(w)))
  {
  }

  /** Every step of every interleaving keeps the invariant. */
  lemma StepInv(job: Job, s: Pool, a: Action)
    requires Inv(job, s) && Enabled(job, s, a)
    ensures Inv(job, Apply(job, s, a))
  {
    match a
    case Send(w) => SendInv(job, s, w);
    case FetchOk(w, v) =>
      assert Honest(s.workers[w], s.results, s.written);
      FetchControl(job, s, w, a);
      FetchData(job, s, w, a);
    case FetchErr(w) =>
      assert Honest(s.workers[w], s.results, s.written);
      FetchControl(job, s, w, a);
      FetchData(job, s, w, a);
    case Put(w) => PutInv(job, s, w);
    case Write(w) =>
      assert Honest(s.workers[w], s.results, s.written);
      WriteControl(job, s, w);
      WriteData(job, s, w);
    case Exit(w) => ExitInv(job, s, w);
    case _ =>
  }

  // ---- Whole runs ----

  lemma {:induction false} RunInv(job: Job, s: Pool, run: seq<Action>)
    requires Inv(job, s) && IsRun(job, s, run)
    ensures Inv(job, After(job, s, run))
    decreases |run|
  {
    if run != [] {
      StepInv(job, s, run[0]);
      RunInv(job, Apply(job, s, run[0]), run[1..]);
    }
  }

  /** The workers whose fetch is under way. */
  function InFlight(workers: seq<Worker>): set<nat> {
    set w: nat | w < |workers| && workers[w].Fetching?
  }

  lemma {:induction false} FewNumbers(few: set<nat>, n: nat)
    requires forall w :: w in few ==> w < n
    ensures |few| <= n
  {
    if few != {} {
      if n - 1 in few {
        FewNumbers(few - {n - 1}, n - 1);
      } else if n > 0 {
        FewNumbers(few, n - 1);
      }
    }
  }

  /** The work a worker still has before it can exit. */
  function WorkerWork(worker: Worker): nat {
    match worker
    case Fetching(_) => 4
    case Fetched(_, _) => 3
    case Stored(_, _) => 2
    case Idle => 1
    case Exited => 0
  }

  function AllWork(workers: seq<Worker>): nat {
    if workers == [] then 0 else WorkerWork(workers[0]) + AllWork(workers[1..])
  }

  /** A bound on the number of steps still possible. */
  function Work(job: Job, s: Pool): int {
    5 * (|job.todo| - s.pos) + AllWork(s.workers) + (if s.closed then 0 else 1) + (if s.cancelled then 0 else 1)
  }

  lemma {:induction false} WorkUpdate(workers: seq<Worker>, w: nat, x: Worker)
    requires w < |workers|
    ensures AllWork(workers[w := x]) == AllWork(workers) - WorkerWork(workers[w]) + WorkerWork(x)
  {
    if w == 0 {
      assert workers[w := x][1..] == workers[1..];
    } else {
      assert workers[w := x][1..] == workers[1..][w - 1 := x];
      WorkUpdate(workers[1..], w - 1, x);
    }
  }

  /** Every step, cancelling included, leaves less to do. */
  lemma StepWork(job: Job, s: Pool, a: Action)
    requires Enabled(job, s, a)
    ensures Work(job, Apply(job, s, a)) < Work(job, s)
  {
    var t := Apply(job, s, a);
    if a.Send? || a.FetchOk? || a.FetchErr? || a.Put? || a.Write? || a.Exit? {
      assert t.workers == s.workers[a.w := t.workers[a.w]];
      WorkUpdate(s.workers, a.w, t.workers[a.w]);
    }
  }

  lemma {:induction false} RunsAreFinite(job: Job, s: Pool, run: seq<Action>)
    requires Inv(job, s) && IsRun(job, s, run)
    ensures |run| <= Work(job, s)
    decreases |run|
  {
    if run != [] {
      StepInv(job, s, run[0]);
      assert Shape(job, Apply(job, s, run[0]));
      StepWork(job, s, run[0]);
      RunsAreFinite(job, Apply(job, s, run[0]), run[1..]);
    }
  }

  /** A worker that has not exited can move, unless it waits for a feeder with nothing left to send. */
  lemma WorkerCanMove(job: Job, s: Pool, w: nat) returns (a: Action)
    requires Shape(job, s) && AllHonest(s.workers, s.results, s.written) && Truthful(job, s.results)
    requires w < |s.workers| && !s.workers[w].Exited? && (s.closed || s.pos < |job.todo|)
    ensures !a.Cancel? && Enabled(job, s, a)
  {
    assert Honest(s.workers[w], s.results, s.written);
    match s.workers[w]
    case Idle => a := if s.closed then Exit(w) else Send(w);
    case Fetching(_) => a := FetchErr(w);
    case Fetched(_, _) => a := Put(w);
    case Stored(_, _) => a := Write(w);
  }

  /** Until wg.Wait returns, somebody other than the canceller can move: there is no deadlock. */
  lemma NeverStuck(job: Job, s: Pool)
    requires Inv(job, s) && !Finished(s)
    ensures exists a: Action :: !a.Cancel? && Enabled(job, s, a)
  {
    if !s.closed && s.pos == |job.todo| {
      assert Enabled(job, s, CloseJobs);
    } else {
      var a := WorkerCanMove(job, s, if s.closed then Unfinished(s) else 0);
    }
  }

  ghost function Unfinished(s: Pool): (w: nat)
    requires s.closed && !Finished(s)
    ensures w < |s.workers| && !s.workers[w].Exited?
  {
    var w :| 0 <= w < |s.workers| && !s.workers[w].Exited?;
    w
  }

  /** The indices that the workers take in a run, in the order they take them. */
  function HandedOut(job: Job, s: Pool, run: seq<Action>): seq<nat>
    requires IsRun(job, s, run)
    decreases |run|
  {
    if run == [] then []
    else
      (if run[0].Send? then [job.todo[s.pos]] else []) + HandedOut(job, Apply(job, s, run[0]), run[1..])
  }

  /** A run hands out a stretch of todo: nothing is skipped, and nothing taken comes back, failed or not. */
  lemma {:induction false} HandedOutInOrder(job: Job, s: Pool, run: seq<Action>)
    requires IsRun(job, s, run) && s.pos <= |job.todo|
    ensures s.pos <= After(job, s, run).pos <= |job.todo|
    ensures HandedOut(job, s, run) == job.todo[s.pos..After(job, s, run).pos]
    decreases |run|
  {
    if run != [] {
      var next, last := Apply(job, s, run[0]), After(job, s, run).pos;
      HandedOutInOrder(job, next, run[1..]);
      if run[0].Send? {
        assert job.todo[s.pos..last] == [job.todo[s.pos]] + job.todo[next.pos..last];
      } else {
        var none: seq<nat> := [];
        assert none + job.todo[s.pos..last] == job.todo[s.pos..last];
      }
    }
  }

  /**
   What every run from the start guarantees: it is finite, no more than eight fetches are ever
   under way, no index is taken twice, no element of out is written twice, and nothing is stuck
   before the end.
   */
  lemma EveryRun(job: Job, cache: map<string, Info>, run: seq<Action>)
    requires WellFormed(job) && IsRun(job, Start(job, cache), run)
    ensures var s := After(job, Start(job, cache), run);
            && |run| <= Work(job, Start(job, cache))
            && |s.workers| == (if |job.todo| < 8 then |job.todo| else 8) && |InFlight(s.workers)| <= |s.workers|
            && (forall w, x :: 0 <= w < x < |s.workers| && Busy(s.workers[w]) && Busy(s.workers[x]) ==>
                  s.workers[w].i != s.workers[x].i)
            && (forall k, l :: 0 <= k < l < |HandedOut(job, Start(job, cache), run)| ==>
                  HandedOut(job, Start(job, cache), run)[k] != HandedOut(job, Start(job, cache), run)[l])
            && (forall k, l :: 0 <= k < l < |s.written| ==> s.written[k] != s.written[l])
            && (!Finished(s) ==> exists a: Action :: !a.Cancel? && Enabled(job, s, a))
  {
    StartInv(job, cache);
    RunInv(job, Start(job, cache), run);
    RunsAreFinite(job, Start(job, cache), run);
    HandedOutInOrder(job, Start(job, cache), run);
    var s := After(job, Start(job, cache), run);
    FewNumbers(InFlight(s.workers), |s.workers|);
    if !Finished(s) {
      NeverStuck(job, s);
    }
  }

  lemma {:induction false} CancelledByRun(job: Job, s: Pool, run: seq<Action>)
    requires IsRun(job, s, run)
    ensures After(job, s, run).cancelled <==> s.cancelled || Cancel in run
    decreases |run|
  {
    if run != [] {
      CancelledByRun(job, Apply(job, s, run[0]), run[1..]);
      assert run == [run[0]] + run[1..];
    }
  }

  /** The pool counts as cancelled exactly when the request was, at some point of the run. */
  lemma OnlyCancelCancels(job: Job, cache: map<string, Info>, run: seq<Action>)
    requires IsRun(job, Start(job, cache), run)
    ensures After(job, Start(job, cache), run).cancelled <==> Cancel in run
  {
    CancelledByRun(job, Start(job, cache), run);
  }

  /**
   What fetchInfoConcurrently returns. Uncancelled, out[i] is the cached value if there was
   one and otherwise exactly how the fetch of ids[i] ended; cancelled, elements whose fetch
   never started are empty as well. A value is always from the cache or an answer for ids[i].
   */
  lemma FinalOutput(job: Job, cache: map<string, Info>, run: seq<Action>, i: nat)
    requires WellFormed(job) && IsRun(job, Start(job, cache), run)
    requires Finished(After(job, Start(job, cache), run)) && i < |job.ids|
    ensures var s := After(job, Start(job, cache), run);
            && |s.out| == |job.ids|
            && (job.cached[i].Some? ==> s.out[i] == job.cached[i] && i !in s.results)
            && (job.cached[i].None? ==> s.out[i] == if i in s.results then s.results[i] else None)
            && (job.cached[i].None? && !s.cancelled ==> i in s.results)
            && (job.cached[i].None? && s.out[i].Some? ==> job.answers(job.ids[i], s.out[i].value))
  {
    StartInv(job, cache);
    RunInv(job, Start(job, cache), run);
    var s := After(job, Start(job, cache), run);
    assert i in s.owner ==> !Finished(s);
    if i in s.results {
      assert i in job.todo[..s.pos];
      assert i in job.todo;
    }
    if job.cached[i].None? && !s.cancelled {
      assert job.todo[..s.pos] == job.todo;
    }
  }

  /** The cache holds only answers for its keys. */
  ghost predicate Sound(job: Job, cache: map<string, Info>) {
    forall id :: id in cache ==> job.answers(id, cache[id])
  }

  lemma StepSound(job: Job, s: Pool, a: Action)
    requires AllHonest(s.workers, s.results, s.written) && Truthful(job, s.results)
    requires Enabled(job, s, a) && Sound(job, s.cache)
    ensures s.cache.Keys <= Apply(job, s, a).cache.Keys && Sound(job, Apply(job, s, a).cache)
  {
    if a.Put? {
      assert Honest(s.workers[a.w], s.results, s.written);
    }
  }

  /** Nothing wrong ever enters the shared cache, whatever interleaving runs. */
  lemma {:induction false} CacheStaysSound(job: Job, s: Pool, run: seq<Action>)
    requires Inv(job, s) && IsRun(job, s, run) && Sound(job, s.cache)
    ensures s.cache.Keys <= After(job, s, run).cache.Keys && Sound(job, After(job, s, run).cache)
    decreases |run|
  {
    if run != [] {
      StepInv(job, s, run[0]);
      StepSound(job, s, run[0]);
      CacheStaysSound(job, Apply(job, s, run[0]), run[1..]);
    }
  }

  /** Every value on its way to the output, or there, has been put into the cache. */
  ghost predicate Remembered(job: Job, s: Pool) {
    && (forall w :: 0 <= w < |s.workers| && s.workers[w].Stored? ==>
          s.workers[w].i < |job.ids| && job.ids[s.workers[w].i] in s.cache)
    && (forall i :: i in s.written ==> i < |job.ids| && job.ids[i] in s.cache)
  }

  lemma StepRemembers(job: Job, s: Pool, a: Action)
    requires Enabled(job, s, a) && Remembered(job, s)
    ensures Remembered(job, Apply(job, s, a))
  {
  }

  lemma {:induction false} RunRemembers(job: Job, s: Pool, run: seq<Action>)
    requires IsRun(job, s, run) && Remembered(job, s)
    ensures Remembered(job, After(job, s, run))
    decreases |run|
  {
    if run != [] {
      StepRemembers(job, s, run[0]);
      RunRemembers(job, Apply(job, s, run[0]), run[1..]);
    }
  }

  /** Whatever was fetched for the output is in the cache for the next request. */
  lemma FetchedIsCached(job: Job, cache: map<string, Info>, run: seq<Action>, i: nat)
    requires WellFormed(job) && IsRun(job, Start(job, cache), run) && i < |job.ids| && job.cached[i].None?
    requires Finished(After(job, Start(job, cache), run)) && i < |After(job, Start(job, cache), run).out|
    requires After(job, Start(job, cache), run).out[i].Some?
    ensures job.ids[i] in After(job, Start(job, cache), run).cache
  {
    StartInv(job, cache);
    RunInv(job, Start(job, cache), run);
    RunRemembers(job, Start(job, cache), run);
  }
}
