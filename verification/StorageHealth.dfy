/**
 backend/handler_storage_health.go and backend/handler_metrics.go: three per-node answers of Garage
 merged by node ID. Go visits each map in an arbitrary order, so every order is a parameter.
 */
module StorageHealth {
  import opened Options
  import opened StableSort
  import opened Workers

  // ---- Block statistics ----

  datatype BlockStats = BlockStats(queueLen: int, errors: int)
  datatype StatsAnswer = StatsAnswer(success: map<string, Option<BlockStats>>, error: map<string, string>)

  type StatsRow = Row<BlockStats>

  /** Go's int64 addition wraps around. */
  function Wrap64(n: int): int {
    (n + 0x8000_0000_0000_0000) % 0x1_0000_0000_0000_0000 - 0x8000_0000_0000_0000
  }

  /** The value in range that differs from n by a whole number of turns. */
  lemma Wrap64Exactly(n: int, w: int)
    ensures w == Wrap64(n) <==> -0x8000_0000_0000_0000 <= w <= 0x7FFF_FFFF_FFFF_FFFF && InTurns(n - w)
  {
    var turn := 0x1_0000_0000_0000_0000;
    var m := n + 0x8000_0000_0000_0000;
    assert n - Wrap64(n) == m / turn * turn;
    if InTurns(n - w) && -0x8000_0000_0000_0000 <= w <= 0x7FFF_FFFF_FFFF_FFFF {
      var k: int :| n - w == k * turn;
      assert m == k * turn + (w + 0x8000_0000_0000_0000);
    }
  }

  ghost predicate InTurns(d: int) {
    exists k: int :: d == k * 0x1_0000_0000_0000_0000
  }

  function QueueSum(rows: seq<StatsRow>): int {
    if rows == [] then 0 else QueueSum(rows[1..]) + rows[0].val.queueLen
  }

  function ErrorSum(rows: seq<StatsRow>): int {
    if rows == [] then 0 else ErrorSum(rows[1..]) + rows[0].val.errors
  }

  lemma {:induction false} SumsOfConcat(a: seq<StatsRow>, b: seq<StatsRow>)
    ensures QueueSum(a + b) == QueueSum(a) + QueueSum(b)
    ensures ErrorSum(a + b) == ErrorSum(a) + ErrorSum(b)
  {
    if a == [] {
      assert a + b == b;
    } else {
      assert (a + b)[1..] == a[1..] + b;
      SumsOfConcat(a[1..], b);
    }
  }

  lemma {:induction false} SumsOfInsert(x: StatsRow, s: seq<StatsRow>)
    ensures QueueSum(Insert(x, s)) == QueueSum(s) + x.val.queueLen
    ensures ErrorSum(Insert(x, s)) == ErrorSum(s) + x.val.errors
  {
    if s == [] || Precedes(x, s[0]) {
      assert ([x] + s)[1..] == s;
    } else {
      SumsOfInsert(x, s[1..]);
      assert ([s[0]] + Insert(x, s[1..]))[1..] == Insert(x, s[1..]);
    }
  }

  /** Sorting the breakdown does not change what it adds up to. */
  lemma {:induction false} SumsOfSort(s: seq<StatsRow>)
    ensures QueueSum(Sort(s)) == QueueSum(s) && ErrorSum(Sort(s)) == ErrorSum(s)
  {
    if s != [] {
      var n := |s| - 1;
      SumsOfSort(s[..n]);
      SumsOfInsert(s[n], Sort(s[..n]));
      SumsOfConcat(s[..n], [s[n]]);
      assert s == s[..n] + [s[n]];
    }
  }

  function StatsAt(success: map<string, Option<BlockStats>>, node: string, id: int): seq<BlockStats> {
    if node in success && success[node].Some? && id == 0 then [success[node].value] else []
  }

  /** rows holds the statistics of the visited nodes that reported any, each once. */
  ghost predicate StatsGathered(rows: seq<StatsRow>, success: map<string, Option<BlockStats>>, visited: seq<string>) {
    forall node, id :: Group(rows, node, id) == if node in visited then StatsAt(success, node, id) else []
  }

  lemma GatherStats(rows: seq<StatsRow>, success: map<string, Option<BlockStats>>, visited: seq<string>, nodeID: string)
    requires StatsGathered(rows, success, visited) && nodeID in success && nodeID !in visited
    ensures success[nodeID].None? ==> StatsGathered(rows, success, visited + [nodeID])
    ensures success[nodeID].Some? ==>
        StatsGathered(rows + [Row(nodeID, 0, success[nodeID].value)], success, visited + [nodeID])
  {
    if success[nodeID].Some? {
      forall node, id
        ensures Group(rows + [Row(nodeID, 0, success[nodeID].value)], node, id)
             == if node in visited + [nodeID] then StatsAt(success, node, id) else []
      {
        GroupConcat(rows, [Row(nodeID, 0, success[nodeID].value)], node, id);
      }
    }
  }

  const STATS_NOT_REPORTED := "blockManagerStats not reported (Garage < v2.3.0?)"

  /** What aggregateNodeStatistics answers, without naming a visiting order. */
  ghost predicate IsBreakdown(rows: seq<StatsRow>, success: map<string, Option<BlockStats>>) {
    Sorted(rows) && forall node, id :: Group(rows, node, id) == StatsAt(success, node, id)
  }

  function NodeErrorsOf(multi: StatsAnswer): map<string, string> {
    (map id | id in multi.success && multi.success[id].None? :: STATS_NOT_REPORTED) + multi.error
  }

  lemma FinishBreakdown(rows: seq<StatsRow>, success: map<string, Option<BlockStats>>, order: seq<string>)
    requires StatsGathered(rows, success, order) && Visits(order, success.Keys)
    ensures IsBreakdown(Sort(rows), success)
  {
    forall node, id ensures Group(Sort(rows), node, id) == StatsAt(success, node, id) {
      SortFacts(rows, node, id);
    }
    SortFacts(rows, "", 0);
  }

  lemma WrapStep(sum: int, x: int)
    ensures Wrap64(Wrap64(sum) + x) == Wrap64(sum + x)
  {
  }

  lemma SumOfOne(r: StatsRow)
    ensures QueueSum([r]) == r.val.queueLen && ErrorSum([r]) == r.val.errors
  {
  }

  /** One more row keeps both running sums right. */
  lemma SumsStep(rows: seq<StatsRow>, r: StatsRow)
    ensures Wrap64(Wrap64(QueueSum(rows)) + r.val.queueLen) == Wrap64(QueueSum(rows + [r]))
    ensures Wrap64(Wrap64(ErrorSum(rows)) + r.val.errors) == Wrap64(ErrorSum(rows + [r]))
  {
    SumsOfConcat(rows, [r]);
    SumOfOne(r);
    WrapStep(QueueSum(rows), r.val.queueLen);
    WrapStep(ErrorSum(rows), r.val.errors);
  }

  ghost predicate Silent(nodeErrors: map<string, string>, success: map<string, Option<BlockStats>>,
                         visited: seq<string>) {
    (forall id :: id in nodeErrors <==> id in visited && id in success && success[id].None?) &&
    (forall id :: id in nodeErrors ==> nodeErrors[id] == STATS_NOT_REPORTED)
  }

  lemma SilentStep(nodeErrors: map<string, string>, success: map<string, Option<BlockStats>>, visited: seq<string>,
                   nodeID: string)
    requires Silent(nodeErrors, success, visited) && nodeID in success
    ensures success[nodeID].None? ==> Silent(nodeErrors[nodeID := STATS_NOT_REPORTED], success, visited + [nodeID])
    ensures success[nodeID].Some? ==> Silent(nodeErrors, success, visited + [nodeID])
  {
  }

  /** What the loop over the nodes that answered knows about those visited. */
  ghost predicate StatsRead(success: map<string, Option<BlockStats>>, visited: seq<string>, queue: int, errored: int,
                            rows: seq<StatsRow>, nodeErrors: map<string, string>)
  {
    && StatsGathered(rows, success, visited)
    && queue == Wrap64(QueueSum(rows)) && errored == Wrap64(ErrorSum(rows))
    && Silent(nodeErrors, success, visited)
  }

  lemma ReadSilent(success: map<string, Option<BlockStats>>, visited: seq<string>, queue: int, errored: int,
                   rows: seq<StatsRow>, nodeErrors: map<string, string>, id: string)
    requires StatsRead(success, visited, queue, errored, rows, nodeErrors)
    requires id in success && id !in visited && success[id].None?
    ensures StatsRead(success, visited + [id], queue, errored, rows, nodeErrors[id := STATS_NOT_REPORTED])
  {
    GatherStats(rows, success, visited, id);
    SilentStep(nodeErrors, success, visited, id);
  }

  lemma ReadRow(success: map<string, Option<BlockStats>>, visited: seq<string>, queue: int, errored: int,
                rows: seq<StatsRow>, nodeErrors: map<string, string>, id: string, row: StatsRow)
    requires StatsRead(success, visited, queue, errored, rows, nodeErrors)
    requires id in success && id !in visited && success[id].Some? && row == Row(id, 0, success[id].value)
    ensures StatsRead(success, visited + [id], Wrap64(queue + row.val.queueLen), Wrap64(errored + row.val.errors),
                      rows + [row], nodeErrors)
  {
    GatherStats(rows, success, visited, id);
    SilentStep(nodeErrors, success, visited, id);
    SumsStep(rows, row);
  }

  /** The loop over the nodes that answered: their rows, the two running sums and the nodes without statistics. */
  method VisitStats(success: map<string, Option<BlockStats>>, order: seq<string>)
    returns (queue: int, errored: int, rows: seq<StatsRow>, nodeErrors: map<string, string>)
    requires Visits(order, success.Keys)
    ensures StatsGathered(rows, success, order)
    ensures queue == Wrap64(QueueSum(rows)) && errored == Wrap64(ErrorSum(rows))
    ensures Silent(nodeErrors, success, order)
  {
    queue, errored, rows, nodeErrors := 0, 0, [], map[];
    for i := 0 to |order|
      invariant StatsRead(success, order[..i], queue, errored, rows, nodeErrors)
    {
      var nodeID := order[i];
      assert nodeID in order;
      assert order[..i + 1] == order[..i] + [nodeID];
      if success[nodeID].None? {
        ReadSilent(success, order[..i], queue, errored, rows, nodeErrors, nodeID);
        nodeErrors := nodeErrors[nodeID := STATS_NOT_REPORTED];
      } else {
        var row := Row(nodeID, 0, success[nodeID].value);
        ReadRow(success, order[..i], queue, errored, rows, nodeErrors, nodeID, row);
        rows := rows + [row];
        queue := Wrap64(queue + row.val.queueLen);
        errored := Wrap64(errored + row.val.errors);
      }
    }
    assert order[..|order|] == order;
  }

  /** The loop over the error map: its messages replace the placeholder of a node that is in both. */
  method OverlayErrors(nodeErrors: map<string, string>, error: map<string, string>, order: seq<string>)
    returns (out: map<string, string>)
    requires Visits(order, error.Keys)
    ensures out == nodeErrors + error
  {
    out := nodeErrors;
    for i := 0 to |order|
      invariant forall id :: id in out <==> id in nodeErrors || id in order[..i]
      invariant forall id :: id in order[..i] ==> id in error && id in out && out[id] == error[id]
      invariant forall id :: id in out && id !in order[..i] ==> id in nodeErrors && out[id] == nodeErrors[id]
    {
      assert order[i] in order;
      assert order[..i + 1] == order[..i] + [order[i]];
      out := out[order[i] := error[order[i]]];
    }
    assert order[..|order|] == order;
  }

  method AggregateNodeStatistics(multi: StatsAnswer, order: seq<string>, errorOrder: seq<string>)
    returns (queue: int, errored: int, nodes: seq<StatsRow>, nodeErrors: map<string, string>)
    requires Visits(order, multi.success.Keys) && Visits(errorOrder, multi.error.Keys)
    ensures IsBreakdown(nodes, multi.success)
    ensures queue == Wrap64(QueueSum(nodes)) && errored == Wrap64(ErrorSum(nodes))
    ensures nodeErrors == NodeErrorsOf(multi)
  {
    var rows;
    queue, errored, rows, nodeErrors := VisitStats(multi.success, order);
    assert nodeErrors == map id | id in multi.success && multi.success[id].None? :: STATS_NOT_REPORTED;
    nodeErrors := OverlayErrors(nodeErrors, multi.error, errorOrder);
    FinishBreakdown(rows, multi.success, order);
    SumsOfSort(rows);
    nodes := Sort(rows);
  }

  /** The breakdown, and with it both sums, is the same for every visiting order. */
  lemma BreakdownIsUnique(success: map<string, Option<BlockStats>>, a: seq<StatsRow>, b: seq<StatsRow>)
    requires IsBreakdown(a, success) && IsBreakdown(b, success)
    ensures a == b && QueueSum(a) == QueueSum(b) && ErrorSum(a) == ErrorSum(b)
  {
    SortedUnique(a, b);
  }

  /** The breakdown lists a node exactly when it reported statistics, with what it reported. */
  lemma BreakdownMembers(success: map<string, Option<BlockStats>>, rows: seq<StatsRow>, node: string, stats: BlockStats)
    requires IsBreakdown(rows, success)
    ensures Row(node, 0, stats) in rows <==> node in success && success[node] == Some(stats)
    ensures forall r :: r in rows && r.node == node ==> node in success && success[node] == Some(r.val)
  {
    GroupMembers(rows, node, 0, stats);
    forall r | r in rows && r.node == node ensures node in success && success[node] == Some(r.val) {
      GroupMembers(rows, node, r.id, r.val);
      assert r == Row(node, r.id, r.val);
    }
  }

  // ---- The merge ----

  /** A node's worker variables: not a map of strings, or the map. */
  datatype RawVars = BadVars | Vars(vars: map<string, string>)
  datatype VarsAnswer = VarsAnswer(success: map<string, RawVars>, error: map<string, string>)

  /** A listed worker: unreadable, or its name and its scrub status as passed through. */
  datatype RawListed = UnreadableWorker | ListedWorker(name: string, status: string)
  datatype WorkersAnswer = WorkersAnswer(success: map<string, seq<RawListed>>, error: map<string, string>)

  /** A request to all nodes: failed as a whole, possibly with a message of Garage, or answered. */
  datatype FanOut<T> = Failed(message: Option<string>) | Answered(data: T)

  datatype NodeHealth = NodeHealth(
    resyncQueueLen: Option<int>, resyncErrors: Option<int>,
    scrubCorruptions: Option<int>, scrubLastCompleted: Option<string>, scrub: Option<string>,
    error: string, statsError: string, varsError: string, workersError: string)

  /** Message texts are stand-ins; only that they are not empty matters. */
  const STATS_PREFIX := "node statistics: "
  const VARS_PREFIX := "worker variables: "
  const WORKERS_PREFIX := "worker list: "
  const STATS_FAILED := "the node statistics could not be fetched"
  const VARS_FAILED := "the worker variables could not be fetched"
  const WORKERS_FAILED := "the worker list could not be fetched"
  const NOT_ANSWERED := "the node did not answer"
  const BAD_VARS := "the worker variables are malformed"
  const NO_CORRUPTIONS := "scrub-corruptions_detected is not reported"
  const BAD_CORRUPTIONS := "scrub-corruptions_detected cannot be read: "
  const SCRUB_WORKER := "Block scrub worker"

  function UserMessage(message: Option<string>, fallback: string): string {
    if message.Some? && message.value != "" then fallback + ": " + message.value else fallback
  }

  function JoinMessages(messages: seq<string>): string {
    if messages == [] then ""
    else if |messages| == 1 then messages[0]
    else messages[0] + "; " + JoinMessages(messages[1..])
  }

  /**
   Everything gathered under one node ID while merging: the answer's entry, the problems found so
   far (all of them prefixed, and split by request), and which requests mentioned the node. In the
   source these are separate maps, all of which only ever hold IDs that are in the answer.
   */
  datatype Slot = Slot(health: NodeHealth, errs: seq<string>,
                       statsErrs: seq<string>, varsErrs: seq<string>, workersErrs: seq<string>,
                       statsSeen: bool, varsSeen: bool)
  type Board = map<string, Slot>

  function Blank(): Slot {
    Slot(NodeHealth(None, None, None, None, None, "", "", "", ""), [], [], [], [], false, false)
  }

  function At(board: Board, id: string): Slot {
    if id in board then board[id] else Blank()
  }

  function StatsError(s: Slot, msg: string): Slot {
    s.(errs := s.errs + [STATS_PREFIX + msg], statsErrs := s.statsErrs + [msg])
  }

  function VarsError(s: Slot, prefix: string, msg: string): Slot {
    s.(errs := s.errs + [prefix + msg], varsErrs := s.varsErrs + [msg])
  }

  // The bodies of the loops, as steps on the slot of the visited node.

  function OnStats(s: Slot, stats: BlockStats): Slot {
    s.(statsSeen := true,
       health := s.health.(resyncQueueLen := Some(stats.queueLen), resyncErrors := Some(stats.errors)))
  }

  function OnStatsError(s: Slot, msg: string): Slot {
    StatsError(s.(statsSeen := true), msg)
  }

  /** The corruption counter among a node's variables. */
  function OnCount(s: Slot, m: map<string, string>, parse: string -> Option<int>): Slot {
    if "scrub-corruptions_detected" !in m then VarsError(s, "", NO_CORRUPTIONS)
    else
      var v := m["scrub-corruptions_detected"];
      if parse(v).None? then VarsError(s, "", BAD_CORRUPTIONS + v)
      else s.(health := s.health.(scrubCorruptions := parse(v)))
  }

  function OnVars(s: Slot, raw: RawVars, parse: string -> Option<int>): Slot {
    var seen := s.(varsSeen := true);
    match raw
    case BadVars => VarsError(seen, "", BAD_VARS)
    case Vars(m) =>
      var counted := OnCount(seen, m, parse);
      if "scrub-last-completed" in m
      then counted.(health := counted.health.(scrubLastCompleted := Some(m["scrub-last-completed"])))
      else counted
  }

  function OnVarsError(s: Slot, msg: string): Slot {
    VarsError(s.(varsSeen := true), VARS_PREFIX, msg)
  }

  function FirstScrub(list: seq<RawListed>): Option<string> {
    if list == [] then None
    else if list[0].ListedWorker? && list[0].name == SCRUB_WORKER then Some(list[0].status)
    else FirstScrub(list[1..])
  }

  predicate IsScrub(w: RawListed) {
    w.ListedWorker? && w.name == SCRUB_WORKER
  }

  /** The status of the first scrub worker listed, and nothing exactly when none is listed. */
  lemma {:induction false} FirstScrubMeaning(list: seq<RawListed>)
    ensures FirstScrub(list).None? <==> forall k :: 0 <= k < |list| ==> !IsScrub(list[k])
    ensures FirstScrub(list).Some? ==>
              exists k :: 0 <= k < |list| && IsScrub(list[k]) && FirstScrub(list).value == list[k].status
                          && forall j :: 0 <= j < k ==> !IsScrub(list[j])
  {
    if list != [] {
      if IsScrub(list[0]) {
        assert FirstScrub(list).value == list[0].status;
      } else {
        FirstScrubMeaning(list[1..]);
        if FirstScrub(list).Some? {
          var k :| 0 <= k < |list| - 1 && IsScrub(list[1..][k]) && FirstScrub(list[1..]).value == list[1..][k].status
                   && forall j :: 0 <= j < k ==> !IsScrub(list[1..][j]);
          assert IsScrub(list[k + 1]) && FirstScrub(list).value == list[k + 1].status;
          forall j | 0 <= j < k + 1 ensures !IsScrub(list[j]) {
            if j > 0 {
              assert !IsScrub(list[1..][j - 1]);
            }
          }
        } else {
          forall j | 0 <= j < |list| ensures !IsScrub(list[j]) {
            if j > 0 {
              assert !IsScrub(list[1..][j - 1]);
            }
          }
        }
      }
    }
  }

  function OnWorkers(s: Slot, list: seq<RawListed>): Slot {
    if FirstScrub(list).Some? then s.(health := s.health.(scrub := FirstScrub(list))) else s
  }

  function OnWorkersError(s: Slot, msg: string): Slot {
    s.(errs := s.errs + [WORKERS_PREFIX + msg], workersErrs := s.workersErrs + [msg])
  }

  function OnEnd(s: Slot, statsAnswered: bool, varsAnswered: bool): Slot {
    var a := if statsAnswered && !s.statsSeen then StatsError(s, NOT_ANSWERED) else s;
    var b := if varsAnswered && !s.varsSeen then VarsError(a, VARS_PREFIX, NOT_ANSWERED) else a;
    b.(health := b.health.(error := JoinMessages(b.errs), statsError := JoinMessages(b.statsErrs),
                           varsError := JoinMessages(b.varsErrs), workersError := JoinMessages(b.workersErrs)))
  }

  /** The nodes visited so far had the step applied to their slots, once, and no other slot changed. */
  ghost predicate Stepped<V>(board: Board, out: Board, m: map<string, V>, visited: seq<string>,
                             step: (Slot, V) -> Slot) {
    (forall id :: id in out <==> id in board || id in visited) &&
    (forall id :: id in visited ==> id in m && At(out, id) == step(At(board, id), m[id])) &&
    (forall id :: id !in visited ==> At(out, id) == At(board, id))
  }

  lemma StepOne<V>(board: Board, out: Board, m: map<string, V>, visited: seq<string>, step: (Slot, V) -> Slot,
                   id: string)
    requires Stepped(board, out, m, visited, step) && id in m && id !in visited
    ensures Stepped(board, out[id := step(At(out, id), m[id])], m, visited + [id], step)
  {
  }

  /** One loop over a map, with one of the steps above as its body. */
  method VisitAll<V>(board: Board, m: map<string, V>, order: seq<string>, step: (Slot, V) -> Slot) returns (out: Board)
    requires Visits(order, m.Keys)
    ensures out.Keys == board.Keys + m.Keys
    ensures forall id :: At(out, id) == if id in m then step(At(board, id), m[id]) else At(board, id)
  {
    out := board;
    for i := 0 to |order|
      invariant Stepped(board, out, m, order[..i], step)
    {
      var id := order[i];
      assert id in order;
      assert order[..i + 1] == order[..i] + [id];
      StepOne(board, out, m, order[..i], step, id);
      out := out[id := step(At(out, id), m[id])];
    }
    assert order[..|order|] == order;
  }

  ghost predicate Reached(rows: seq<StatsRow>, i: nat, id: string)
    requires i <= |rows|
  {
    exists j :: 0 <= j < i && rows[j].node == id
  }

  /** The loop over the sorted breakdown. */
  method VisitRows(board: Board, rows: seq<StatsRow>, success: map<string, Option<BlockStats>>) returns (out: Board)
    requires IsBreakdown(rows, success)
    ensures forall id :: id in out <==> id in board || (id in success && success[id].Some?)
    ensures forall id :: At(out, id) == if id in success && success[id].Some?
        then OnStats(At(board, id), success[id].value)
                                        else At(board, id)
  {
    out := board;
    ReachedByAll(rows, success);
    for i := 0 to |rows|
      invariant forall id :: id in out <==> id in board || Reached(rows, i, id)
      invariant forall id :: At(out, id) == if Reached(rows, i, id)
          then OnStats(At(board, id), success[id].value) else At(board, id)
    {
      var b := rows[i];
      forall id ensures Reached(rows, i + 1, id) <==> Reached(rows, i, id) || id == b.node {
      }
      assert Reached(rows, |rows|, b.node);
      StatsTwice(At(board, b.node), b.val);
      out := out[b.node := OnStats(At(out, b.node), b.val)];
    }
  }

  lemma StatsTwice(s: Slot, stats: BlockStats)
    ensures OnStats(OnStats(s, stats), stats) == OnStats(s, stats)
  {
  }

  lemma ReachedByAll(rows: seq<StatsRow>, success: map<string, Option<BlockStats>>)
    requires IsBreakdown(rows, success)
    ensures forall i, id :: 0 <= i <= |rows| && Reached(rows, i, id) ==> id in success && success[id].Some?
    ensures forall id :: Reached(rows, |rows|, id) <==> id in success && success[id].Some?
    ensures forall i :: 0 <= i < |rows| ==> rows[i].node in success && success[rows[i].node] == Some(rows[i].val)
  {
    forall i | 0 <= i < |rows| ensures rows[i].node in success && success[rows[i].node] == Some(rows[i].val) {
      BreakdownMembers(success, rows, rows[i].node, rows[i].val);
      assert rows[i] in rows;
    }
    forall id | id in success && success[id].Some? ensures Reached(rows, |rows|, id) {
      BreakdownMembers(success, rows, id, success[id].value);
      var j :| 0 <= j < |rows| && rows[j] == Row(id, 0, success[id].value);
    }
  }

  datatype Inputs = Inputs(stats: FanOut<StatsAnswer>, vars: FanOut<VarsAnswer>, workers: FanOut<WorkersAnswer>)

  /** The orders in which the maps of the three answers are visited. */
  datatype Orders = Orders(statsOk: seq<string>, statsBad: seq<string>, statsAll: seq<string>,
                           varsOk: seq<string>, varsBad: seq<string>, workersOk: seq<string>, workersBad: seq<string>)

  ghost predicate OrdersFit(o: Orders, i: Inputs) {
    (i.stats.Answered? ==> Visits(o.statsOk, i.stats.data.success.Keys) && Visits(o.statsBad, i.stats.data.error.Keys)
                           && Visits(o.statsAll, NodeErrorsOf(i.stats.data).Keys)) &&
    (i.vars.Answered? ==> Visits(o.varsOk, i.vars.data.success.Keys) && Visits(o.varsBad, i.vars.data.error.Keys)) &&
    (i.workers.Answered? ==> Visits(o.workersOk, i.workers.data.success.Keys)
                             && Visits(o.workersBad, i.workers.data.error.Keys))
  }

  // What the merge puts under one ID, request by request.

  function AfterStats(i: Inputs, id: string): Slot {
    if i.stats.Failed? then Blank()
    else
      var d := i.stats.data;
      var s := if id in d.success && d.success[id].Some? then OnStats(Blank(), d.success[id].value) else Blank();
      if id in NodeErrorsOf(d) then OnStatsError(s, NodeErrorsOf(d)[id]) else s
  }

  function AfterVars(i: Inputs, id: string, parse: string -> Option<int>): Slot {
    if i.vars.Failed? then AfterStats(i, id)
    else
      var d := i.vars.data;
      var s := if id in d.success then OnVars(AfterStats(i, id), d.success[id], parse) else AfterStats(i, id);
      if id in d.error then OnVarsError(s, d.error[id]) else s
  }

  function AfterWorkers(i: Inputs, id: string, parse: string -> Option<int>): Slot {
    if i.workers.Failed? then AfterVars(i, id, parse)
    else
      var d := i.workers.data;
      var s := if id in d.success then OnWorkers(AfterVars(i, id, parse), d.success[id]) else AfterVars(i, id, parse);
      if id in d.error then OnWorkersError(s, d.error[id]) else s
  }

  function HealthOf(i: Inputs, id: string, parse: string -> Option<int>): NodeHealth {
    OnEnd(AfterWorkers(i, id, parse), i.stats.Answered?, i.vars.Answered?).health
  }

  predicate InStats(i: Inputs, id: string) {
    i.stats.Answered? && (id in i.stats.data.success || id in i.stats.data.error)
  }

  predicate InVars(i: Inputs, id: string) {
    i.vars.Answered? && (id in i.vars.data.success || id in i.vars.data.error)
  }

  predicate InWorkers(i: Inputs, id: string) {
    i.workers.Answered? && (id in i.workers.data.success || id in i.workers.data.error)
  }

  method MergeStats(i: Inputs, o: Orders) returns (board: Board)
    requires OrdersFit(o, i)
    ensures forall id :: id in board <==> InStats(i, id)
    ensures forall id :: At(board, id) == AfterStats(i, id)
  {
    board := map[];
    if i.stats.Answered? {
      var _, _, rows, nodeErrors := AggregateNodeStatistics(i.stats.data, o.statsOk, o.statsBad);
      var listed := VisitRows(board, rows, i.stats.data.success);
      board := VisitAll(listed, nodeErrors, o.statsAll, OnStatsError);
      forall id ensures At(board, id) == AfterStats(i, id) {
        assert At(listed, id)
            == if id in i.stats.data.success && i.stats.data.success[id].Some?
               then OnStats(Blank(), i.stats.data.success[id].value) else Blank();
      }
    }
  }

  method MergeVars(start: Board, i: Inputs, o: Orders, parse: string -> Option<int>) returns (board: Board)
    requires OrdersFit(o, i)
    requires forall id :: At(start, id) == AfterStats(i, id)
    ensures forall id :: id in board <==> id in start || InVars(i, id)
    ensures forall id :: At(board, id) == AfterVars(i, id, parse)
  {
    board := start;
    if i.vars.Answered? {
      var d := i.vars.data;
      var read := VisitAll(start, d.success, o.varsOk, (s, raw) => OnVars(s, raw, parse));
      board := VisitAll(read, d.error, o.varsBad, OnVarsError);
      forall id ensures At(board, id) == AfterVars(i, id, parse) {
        assert At(read, id)
            == if id in d.success then OnVars(AfterStats(i, id), d.success[id], parse) else AfterStats(i, id);
      }
    }
  }

  method MergeWorkers(start: Board, i: Inputs, o: Orders, parse: string -> Option<int>) returns (board: Board)
    requires OrdersFit(o, i)
    requires forall id :: At(start, id) == AfterVars(i, id, parse)
    ensures forall id :: id in board <==> id in start || InWorkers(i, id)
    ensures forall id :: At(board, id) == AfterWorkers(i, id, parse)
  {
    board := start;
    if i.workers.Answered? {
      var d := i.workers.data;
      var read := VisitAll(start, d.success, o.workersOk, OnWorkers);
      board := VisitAll(read, d.error, o.workersBad, OnWorkersError);
      forall id ensures At(board, id) == AfterWorkers(i, id, parse) {
        assert At(read, id)
            == if id in d.success then OnWorkers(AfterVars(i, id, parse), d.success[id]) else AfterVars(i, id, parse);
      }
    }
  }

  /** The last loop: nodes a request passed over, and the joined texts. */
  method FinishNodes(board: Board, order: seq<string>, statsAnswered: bool, varsAnswered: bool)
    returns (nodes: map<string, NodeHealth>)
    requires Visits(order, board.Keys)
    ensures nodes.Keys == board.Keys
    ensures forall id :: id in nodes ==> nodes[id] == OnEnd(At(board, id), statsAnswered, varsAnswered).health
  {
    nodes := map[];
    for k := 0 to |order|
      invariant forall id :: id in nodes <==> id in order[..k]
      invariant forall id :: id in nodes ==> nodes[id] == OnEnd(At(board, id), statsAnswered, varsAnswered).health
    {
      assert order[k] in order;
      assert order[..k + 1] == order[..k] + [order[k]];
      nodes := nodes[order[k] := OnEnd(At(board, order[k]), statsAnswered, varsAnswered).health];
    }
    assert order[..|order|] == order;
  }

  datatype Response = Response(nodes: map<string, NodeHealth>, statsError: string, varsError: string,
                               workersError: string)

  /**
   Every node some answered request mentions is in the response and no other; its entry depends
   only on what was answered about it, not on the order of a map.
   */
  method BuildStorageHealth(i: Inputs, o: Orders, parse: string -> Option<int>, last: seq<string>) returns (r: Response)
    requires OrdersFit(o, i)
    requires Visits(last, set id | id in last)
    requires forall id :: id in last <==> InStats(i, id) || InVars(i, id) || InWorkers(i, id)
    ensures forall id :: id in r.nodes <==> InStats(i, id) || InVars(i, id) || InWorkers(i, id)
    ensures forall id :: id in r.nodes ==> r.nodes[id] == HealthOf(i, id, parse)
    ensures r.statsError == "" <==> i.stats.Answered?
    ensures r.varsError == "" <==> i.vars.Answered?
    ensures r.workersError == "" <==> i.workers.Answered?
  {
    var board := MergeStats(i, o);
    board := MergeVars(board, i, o, parse);
    board := MergeWorkers(board, i, o, parse);
    var nodes := FinishNodes(board, last, i.stats.Answered?, i.vars.Answered?);
    r := Response(nodes,
                  if i.stats.Failed? then UserMessage(i.stats.message, STATS_FAILED) else "",
                  if i.vars.Failed? then UserMessage(i.vars.message, VARS_FAILED) else "",
                  if i.workers.Failed? then UserMessage(i.workers.message, WORKERS_FAILED) else "");
  }

  // ---- What the entry of a node means ----

  lemma {:induction false} JoinIsBlank(messages: seq<string>)
    ensures JoinMessages(messages) == "" <==> messages == [] || messages == [""]
  {
    if |messages| == 1 {
      assert messages == [messages[0]];
    }
  }

  /** The messages one after the other, a semicolon and a blank between two. */
  lemma {:induction false} JoinAppends(messages: seq<string>, last: string)
    ensures JoinMessages(messages + [last]) == if messages == [] then last else JoinMessages(messages) + "; " + last
  {
    if messages == [] {
      assert messages + [last] == [last];
    } else {
      assert (messages + [last])[1..] == messages[1..] + [last];
      JoinAppends(messages[1..], last);
    }
  }

  /** A failed request is explained by the fixed text, and by Garage's own words behind it if there are any. */
  lemma FailureIsExplained(message: Option<string>, fallback: string, r: string)
    requires r == UserMessage(message, fallback)
    ensures r == fallback <==> message in {None, Some("")}
    ensures r != fallback ==> |r| > |fallback| + 2 && r[..|fallback| + 2] == fallback + ": "
                              && message == Some(r[|fallback| + 2..])
  {
    if message.Some? && message.value != "" {
      assert r[|fallback| + 2..] == message.value;
    }
  }

  /** The joined problems are the split ones, and each carries a prefix or is a fixed text. */
  ghost predicate WellJoined(s: Slot) {
    (forall k :: 0 <= k < |s.errs| ==> s.errs[k] != "") &&
    |s.errs| == |s.statsErrs| + |s.varsErrs| + |s.workersErrs|
  }

  /** The part of a slot that the statistics request fills. */
  ghost predicate SameStats(a: Slot, b: Slot) {
    a.statsErrs == b.statsErrs && a.statsSeen == b.statsSeen &&
    a.health.resyncQueueLen == b.health.resyncQueueLen && a.health.resyncErrors == b.health.resyncErrors
  }

  /** The part that the variables request fills. */
  ghost predicate SameVars(a: Slot, b: Slot) {
    a.varsErrs == b.varsErrs && a.varsSeen == b.varsSeen && a.health.scrubCorruptions == b.health.scrubCorruptions
  }

  lemma StatsStep(i: Inputs, id: string)
    ensures var s := AfterStats(i, id);
            WellJoined(s) && SameVars(s, Blank()) && (s.statsSeen <==> InStats(i, id)) &&
            s.statsErrs == (if i.stats.Answered? && id in NodeErrorsOf(i.stats.data)
                then [NodeErrorsOf(i.stats.data)[id]] else []) &&
            (if i.stats.Answered? && id in i.stats.data.success && i.stats.data.success[id].Some?
             then s.health.resyncQueueLen == Some(i.stats.data.success[id].value.queueLen)
                  && s.health.resyncErrors == Some(i.stats.data.success[id].value.errors)
             else s.health.resyncQueueLen == None && s.health.resyncErrors == None)
  {
  }

  lemma OnCountStep(s: Slot, m: map<string, string>, parse: string -> Option<int>)
    requires WellJoined(s) && s.varsErrs == [] && s.health.scrubCorruptions.None?
    ensures var t := OnCount(s, m, parse);
            WellJoined(t) && SameStats(t, s) && t.varsSeen == s.varsSeen &&
            (t.health.scrubCorruptions.None? <==> t.varsErrs != []) &&
            (t.varsErrs != [] ==> |t.varsErrs| == 1 && t.varsErrs[0] != "") &&
            (t.health.scrubCorruptions.Some? ==>
               "scrub-corruptions_detected" in m
               && t.health.scrubCorruptions == parse(m["scrub-corruptions_detected"]))
  {
  }

  lemma OnVarsStep(s: Slot, raw: RawVars, parse: string -> Option<int>)
    requires WellJoined(s) && s.varsErrs == [] && s.health.scrubCorruptions.None?
    ensures var t := OnVars(s, raw, parse);
            WellJoined(t) && SameStats(t, s) && t.varsSeen &&
            (t.health.scrubCorruptions.None? <==> t.varsErrs != []) &&
            (t.varsErrs != [] ==> |t.varsErrs| == 1 && t.varsErrs[0] != "") &&
            (t.health.scrubCorruptions.Some? ==>
               raw.Vars? && "scrub-corruptions_detected" in raw.vars &&
               t.health.scrubCorruptions == parse(raw.vars["scrub-corruptions_detected"]))
  {
    if raw.Vars? {
      OnCountStep(s.(varsSeen := true), raw.vars, parse);
    }
  }

  lemma OnVarsErrorStep(s: Slot, msg: string)
    requires WellJoined(s)
    ensures var t := OnVarsError(s, msg);
            WellJoined(t) && SameStats(t, s) && t.varsSeen && t.varsErrs == s.varsErrs + [msg] &&
            t.health.scrubCorruptions == s.health.scrubCorruptions
  {
  }

  /** The variables request leaves the statistics part alone and explains a missing count. */
  lemma VarsStep(i: Inputs, id: string, parse: string -> Option<int>)
    ensures var s := AfterVars(i, id, parse);
            WellJoined(s) && SameStats(s, AfterStats(i, id)) && (s.varsSeen <==> InVars(i, id))
    ensures var s := AfterVars(i, id, parse);
            s.health.scrubCorruptions.None? && InVars(i, id) ==>
              (JoinMessages(s.varsErrs) == ""
               <==> id !in i.vars.data.success && id in i.vars.data.error && i.vars.data.error[id] == "") &&
              s.varsErrs != []
    ensures var s := AfterVars(i, id, parse);
            !InVars(i, id) ==> s.varsErrs == [] && s.health.scrubCorruptions.None?
    ensures AfterVars(i, id, parse).health.scrubCorruptions.Some? ==>
              i.vars.Answered? && id in i.vars.data.success && i.vars.data.success[id].Vars?
              && "scrub-corruptions_detected" in i.vars.data.success[id].vars
              && AfterVars(i, id, parse).health.scrubCorruptions
                 == parse(i.vars.data.success[id].vars["scrub-corruptions_detected"])
  {
    StatsStep(i, id);
    if i.vars.Answered? {
      var d, s := i.vars.data, AfterStats(i, id);
      if id in d.success {
        OnVarsStep(s, d.success[id], parse);
        s := OnVars(s, d.success[id], parse);
      }
      if id in d.error {
        OnVarsErrorStep(s, d.error[id]);
      }
      JoinIsBlank(AfterVars(i, id, parse).varsErrs);
    }
  }

  function LastCompletedIn(raw: RawVars): Option<string> {
    if raw.Vars? && "scrub-last-completed" in raw.vars then Some(raw.vars["scrub-last-completed"]) else None
  }

  /** The time of the last scrub comes from the variables of the node, whatever else they lack. */
  lemma LastCompletedStep(i: Inputs, id: string, parse: string -> Option<int>)
    ensures AfterVars(i, id, parse).health.scrubLastCompleted
         == (if i.vars.Answered? && id in i.vars.data.success then LastCompletedIn(i.vars.data.success[id]) else None)
    ensures AfterVars(i, id, parse).health.scrub == None && AfterVars(i, id, parse).workersErrs == []
  {
    assert AfterStats(i, id).health.scrubLastCompleted == None && AfterStats(i, id).health.scrub == None
           && AfterStats(i, id).workersErrs == [];
    if i.vars.Answered? && id in i.vars.data.success {
      OnVarsLast(AfterStats(i, id), i.vars.data.success[id], parse);
    }
  }

  lemma OnVarsLast(s: Slot, raw: RawVars, parse: string -> Option<int>)
    requires s.health.scrubLastCompleted == None
    ensures var t := OnVars(s, raw, parse);
            t.health.scrubLastCompleted == LastCompletedIn(raw) && t.health.scrub == s.health.scrub
                && t.workersErrs == s.workersErrs
  {
  }

  lemma OnWorkersErrorStep(s: Slot, msg: string)
    ensures var t := OnWorkersError(s, msg);
            (WellJoined(s) ==> WellJoined(t)) && SameStats(t, s) && SameVars(t, s) && t.health == s.health
  {
  }

  lemma WorkersStep(i: Inputs, id: string, parse: string -> Option<int>)
    ensures var s, before := AfterWorkers(i, id, parse), AfterVars(i, id, parse);
            (WellJoined(before) ==> WellJoined(s)) && SameStats(s, before) && SameVars(s, before) &&
            s.health.scrubLastCompleted == before.health.scrubLastCompleted
  {
    if i.workers.Answered? && id in i.workers.data.error {
      var d, before := i.workers.data, AfterVars(i, id, parse);
      OnWorkersErrorStep(if id in d.success then OnWorkers(before, d.success[id]) else before, d.error[id]);
    }
  }

  lemma ScrubStep(i: Inputs, id: string, parse: string -> Option<int>)
    requires AfterVars(i, id, parse).health.scrub == None && AfterVars(i, id, parse).workersErrs == []
    ensures AfterWorkers(i, id, parse).health.scrub
         == (if i.workers.Answered? && id in i.workers.data.success
             then FirstScrub(i.workers.data.success[id]) else None)
    ensures AfterWorkers(i, id, parse).workersErrs
         == (if i.workers.Answered? && id in i.workers.data.error then [i.workers.data.error[id]] else [])
  {
  }

  lemma EndStep(s: Slot, statsAnswered: bool, varsAnswered: bool)
    requires WellJoined(s)
    ensures var t := OnEnd(s, statsAnswered, varsAnswered);
            WellJoined(t) &&
            t.statsErrs == (if statsAnswered && !s.statsSeen then s.statsErrs + [NOT_ANSWERED] else s.statsErrs) &&
            t.varsErrs == (if varsAnswered && !s.varsSeen then s.varsErrs + [NOT_ANSWERED] else s.varsErrs) &&
            t.health.resyncQueueLen == s.health.resyncQueueLen && t.health.resyncErrors == s.health.resyncErrors &&
            t.health.scrubCorruptions == s.health.scrubCorruptions
    ensures var t := OnEnd(s, statsAnswered, varsAnswered);
            t.health.error == JoinMessages(t.errs) && t.health.statsError == JoinMessages(t.statsErrs) &&
            t.health.varsError == JoinMessages(t.varsErrs) && t.health.workersError == JoinMessages(s.workersErrs) &&
            t.health.scrubLastCompleted == s.health.scrubLastCompleted && t.health.scrub == s.health.scrub
  {
  }

  /** A missing resync value has a reason: the whole request failed, or the entry says why. */
  lemma MissingResyncHasAReason(i: Inputs, id: string, parse: string -> Option<int>)
    requires i.stats.Answered? && HealthOf(i, id, parse).resyncQueueLen.None?
    ensures HealthOf(i, id, parse).error != ""
    ensures HealthOf(i, id, parse).statsError == "" <==> id in i.stats.data.error && i.stats.data.error[id] == ""
  {
    StatsStep(i, id);
    VarsStep(i, id, parse);
    WorkersStep(i, id, parse);
    var before := AfterWorkers(i, id, parse);
    EndStep(before, i.stats.Answered?, i.vars.Answered?);
    var s := OnEnd(before, i.stats.Answered?, i.vars.Answered?);
    JoinIsBlank(s.errs);
    JoinIsBlank(s.statsErrs);
  }

  /** A missing corruption count has a reason likewise. */
  lemma MissingCorruptionsHaveAReason(i: Inputs, id: string, parse: string -> Option<int>)
    requires i.vars.Answered? && HealthOf(i, id, parse).scrubCorruptions.None?
    ensures HealthOf(i, id, parse).error != ""
    ensures HealthOf(i, id, parse).varsError == ""
            <==> id !in i.vars.data.success && id in i.vars.data.error && i.vars.data.error[id] == ""
  {
    VarsStep(i, id, parse);
    WorkersStep(i, id, parse);
    var before := AfterWorkers(i, id, parse);
    EndStep(before, i.stats.Answered?, i.vars.Answered?);
    var s := OnEnd(before, i.stats.Answered?, i.vars.Answered?);
    JoinIsBlank(s.errs);
    JoinIsBlank(s.varsErrs);
  }

  /** What the entry shows is what Garage answered for that node: nothing is mixed up or made up. */
  lemma ShownIsReported(i: Inputs, id: string, parse: string -> Option<int>)
    ensures var h := HealthOf(i, id, parse);
            if i.stats.Answered? && id in i.stats.data.success && i.stats.data.success[id].Some?
            then h.resyncQueueLen == Some(i.stats.data.success[id].value.queueLen)
                 && h.resyncErrors == Some(i.stats.data.success[id].value.errors)
            else h.resyncQueueLen == None && h.resyncErrors == None
    ensures HealthOf(i, id, parse).scrubCorruptions.Some? ==>
              i.vars.Answered? && id in i.vars.data.success && i.vars.data.success[id].Vars?
              && "scrub-corruptions_detected" in i.vars.data.success[id].vars
              && HealthOf(i, id, parse).scrubCorruptions
                 == parse(i.vars.data.success[id].vars["scrub-corruptions_detected"])
  {
    StatsStep(i, id);
    VarsStep(i, id, parse);
    WorkersStep(i, id, parse);
    EndStep(AfterWorkers(i, id, parse), i.stats.Answered?, i.vars.Answered?);
  }

  /** The scrub fields and the reason of the worker list come from that node's own entries too. */
  lemma ShownScrubIsReported(i: Inputs, id: string, parse: string -> Option<int>)
    ensures HealthOf(i, id, parse).scrubLastCompleted
         == (if i.vars.Answered? && id in i.vars.data.success then LastCompletedIn(i.vars.data.success[id]) else None)
    ensures HealthOf(i, id, parse).scrub
         == (if i.workers.Answered? && id in i.workers.data.success
             then FirstScrub(i.workers.data.success[id]) else None)
    ensures HealthOf(i, id, parse).workersError
         == (if i.workers.Answered? && id in i.workers.data.error then i.workers.data.error[id] else "")
  {
    StatsStep(i, id);
    VarsStep(i, id, parse);
    LastCompletedStep(i, id, parse);
    WorkersStep(i, id, parse);
    ScrubStep(i, id, parse);
    EndStep(AfterWorkers(i, id, parse), i.stats.Answered?, i.vars.Answered?);
  }

  // ---- The whole entry ----

  const CORRUPTIONS := "scrub-corruptions_detected"

  /** The number of corruptions that a node's variables tell, if they do. */
  function CountIn(raw: RawVars, parse: string -> Option<int>): Option<int> {
    if raw.Vars? && CORRUPTIONS in raw.vars then parse(raw.vars[CORRUPTIONS]) else None
  }

  /** Why they do not. */
  function CountProblem(raw: RawVars, parse: string -> Option<int>): seq<string> {
    if CountIn(raw, parse).Some? then []
    else if raw.BadVars? then [BAD_VARS]
    else if CORRUPTIONS in raw.vars then [BAD_CORRUPTIONS + raw.vars[CORRUPTIONS]]
    else [NO_CORRUPTIONS]
  }

  /** What one request says against a node: problems found in its answer, Garage's error, or silence. */
  datatype Complaints = Complaints(problem: seq<string>, error: seq<string>, silence: seq<string>)

  function All(c: Complaints): seq<string> {
    c.problem + c.error + c.silence
  }

  function ErrorFor(error: map<string, string>, id: string): seq<string> {
    if id in error then [error[id]] else []
  }

  /** Against the statistics; an error message takes the place of missing statistics. */
  function StatsComplaints(i: Inputs, id: string): Complaints {
    if i.stats.Failed? then Complaints([], [], [])
    else
      var d := i.stats.data;
      if id in d.error then Complaints([], [d.error[id]], [])
      else if id !in d.success then Complaints([], [], [NOT_ANSWERED])
      else Complaints([], if d.success[id].None? then [STATS_NOT_REPORTED] else [], [])
  }

  function VarsComplaints(i: Inputs, id: string, parse: string -> Option<int>): Complaints {
    if i.vars.Failed? then Complaints([], [], [])
    else
      var d := i.vars.data;
      Complaints(if id in d.success then CountProblem(d.success[id], parse) else [], ErrorFor(d.error, id),
                 if id in d.success || id in d.error then [] else [NOT_ANSWERED])
  }

  function WorkersComplaints(i: Inputs, id: string): Complaints {
    Complaints([], if i.workers.Answered? then ErrorFor(i.workers.data.error, id) else [], [])
  }

  function Prefixed(prefix: string, messages: seq<string>): seq<string> {
    seq(|messages|, k requires 0 <= k < |messages| => prefix + messages[k])
  }

  /** All complaints in their order: request by request, and then the silences. */
  function EveryProblem(stats: Complaints, vars: Complaints, workers: Complaints): seq<string> {
    Prefixed(STATS_PREFIX, stats.error) + vars.problem + Prefixed(VARS_PREFIX, vars.error)
    + Prefixed(WORKERS_PREFIX, workers.error)
    + Prefixed(STATS_PREFIX, stats.silence) + Prefixed(VARS_PREFIX, vars.silence)
  }

  lemma StatsExact(i: Inputs, id: string, s: Slot, c: Complaints)
    requires s == AfterStats(i, id) && c == StatsComplaints(i, id)
    ensures s.statsErrs == c.error && s.errs == Prefixed(STATS_PREFIX, c.error)
    ensures s.statsSeen == (i.stats.Answered? && c.silence == []) && (s.varsErrs == [] && s.workersErrs == [])
  {
  }

  lemma OnVarsExact(s: Slot, raw: RawVars, parse: string -> Option<int>, t: Slot)
    requires t == OnVars(s, raw, parse) && s.health.scrubCorruptions.None?
    ensures t.health.scrubCorruptions == CountIn(raw, parse)
    ensures t.varsErrs == s.varsErrs + CountProblem(raw, parse) && t.errs == s.errs + CountProblem(raw, parse)
    ensures t.statsErrs == s.statsErrs && t.workersErrs == s.workersErrs && t.varsSeen && t.statsSeen == s.statsSeen
  {
    assert "" + BAD_VARS == BAD_VARS && "" + NO_CORRUPTIONS == NO_CORRUPTIONS;
    if raw.Vars? && CORRUPTIONS in raw.vars {
      assert "" + (BAD_CORRUPTIONS + raw.vars[CORRUPTIONS]) == BAD_CORRUPTIONS + raw.vars[CORRUPTIONS];
    }
  }

  lemma VarsExact(i: Inputs, id: string, parse: string -> Option<int>, before: Slot, s: Slot, c: Complaints)
    requires before == AfterStats(i, id) && s == AfterVars(i, id, parse) && c == VarsComplaints(i, id, parse)
    requires before.varsErrs == [] && before.health.scrubCorruptions.None? && !before.varsSeen
    ensures s.varsErrs == c.problem + c.error && s.errs == before.errs + c.problem + Prefixed(VARS_PREFIX, c.error)
    ensures s.varsSeen == (i.vars.Answered? && c.silence == []) && s.statsSeen == before.statsSeen
    ensures s.statsErrs == before.statsErrs && s.workersErrs == before.workersErrs
    ensures s.health.scrubCorruptions
         == if i.vars.Answered? && id in i.vars.data.success then CountIn(i.vars.data.success[id], parse) else None
  {
    if i.vars.Answered? && id in i.vars.data.success {
      OnVarsExact(before, i.vars.data.success[id], parse, OnVars(before, i.vars.data.success[id], parse));
    }
  }

  lemma WorkersExact(i: Inputs, id: string, parse: string -> Option<int>, before: Slot, s: Slot, c: Complaints)
    requires before == AfterVars(i, id, parse) && s == AfterWorkers(i, id, parse) && c == WorkersComplaints(i, id)
    requires before.workersErrs == []
    ensures s.workersErrs == c.error && s.errs == before.errs + Prefixed(WORKERS_PREFIX, c.error)
    ensures s.varsErrs == before.varsErrs && s.statsErrs == before.statsErrs
    ensures s.statsSeen == before.statsSeen && s.varsSeen == before.varsSeen
    ensures s.health.scrubCorruptions == before.health.scrubCorruptions
  {
  }

  lemma EndExact(s: Slot, statsAnswered: bool, varsAnswered: bool, stats: seq<string>, vars: seq<string>)
    requires stats == if statsAnswered && !s.statsSeen then [NOT_ANSWERED] else []
    requires vars == if varsAnswered && !s.varsSeen then [NOT_ANSWERED] else []
    ensures var h := OnEnd(s, statsAnswered, varsAnswered).health;
            && h.error == JoinMessages(s.errs + Prefixed(STATS_PREFIX, stats) + Prefixed(VARS_PREFIX, vars))
            && h.statsError == JoinMessages(s.statsErrs + stats) && h.varsError == JoinMessages(s.varsErrs + vars)
            && h.workersError == JoinMessages(s.workersErrs) && h.scrubCorruptions == s.health.scrubCorruptions
  {
    var silent := [NOT_ANSWERED];
    assert Prefixed(STATS_PREFIX, silent) == [STATS_PREFIX + NOT_ANSWERED];
    assert Prefixed(VARS_PREFIX, silent) == [VARS_PREFIX + NOT_ANSWERED];
    NothingAdded(s.errs, Prefixed(STATS_PREFIX, []));
    NothingAdded(s.errs + Prefixed(STATS_PREFIX, stats), Prefixed(VARS_PREFIX, []));
    NothingAdded(s.statsErrs, []);
    NothingAdded(s.varsErrs, []);
  }

  lemma NothingAdded(messages: seq<string>, none: seq<string>)
    requires none == []
    ensures messages + none == messages
  {
  }

  /**
   The corruption count is the one reported, exactly when the variables request answered with one that
   can be read, and all four error texts are exactly the complaints there are, in order.
   */
  lemma EntryIsExact(i: Inputs, id: string, parse: string -> Option<int>)
    ensures var h := HealthOf(i, id, parse);
            var s, v, w := StatsComplaints(i, id), VarsComplaints(i, id, parse), WorkersComplaints(i, id);
            && h.scrubCorruptions == (if i.vars.Answered? && id in i.vars.data.success
                                      then CountIn(i.vars.data.success[id], parse) else None)
            && h.statsError == JoinMessages(All(s)) && h.varsError == JoinMessages(All(v))
            && h.workersError == JoinMessages(All(w)) && h.error == JoinMessages(EveryProblem(s, v, w))
  {
    var s, v, w := StatsComplaints(i, id), VarsComplaints(i, id, parse), WorkersComplaints(i, id);
    var a, b, c := AfterStats(i, id), AfterVars(i, id, parse), AfterWorkers(i, id, parse);
    StatsExact(i, id, a, s);
    StatsStep(i, id);
    VarsExact(i, id, parse, a, b, v);
    WorkersExact(i, id, parse, b, c, w);
    EndExact(c, i.stats.Answered?, i.vars.Answered?, s.silence, v.silence);
    JoinedParts(s, v, w, c.errs);
  }

  lemma JoinedParts(s: Complaints, v: Complaints, w: Complaints, errs: seq<string>)
    requires errs == Prefixed(STATS_PREFIX, s.error) + v.problem + Prefixed(VARS_PREFIX, v.error)
                     + Prefixed(WORKERS_PREFIX, w.error)
    ensures errs + Prefixed(STATS_PREFIX, s.silence) + Prefixed(VARS_PREFIX, v.silence) == EveryProblem(s, v, w)
    ensures s.problem == [] ==> s.error + s.silence == All(s)
    ensures v.problem + v.error + v.silence == All(v)
    ensures w.problem == [] && w.silence == [] ==> w.error == All(w)
  {
  }

  /** A shown count leaves nothing to complain about but what Garage says against the node itself. */
  lemma ShownCountHasNoReason(i: Inputs, id: string, parse: string -> Option<int>)
    requires HealthOf(i, id, parse).scrubCorruptions.Some?
    ensures i.vars.Answered? && (id !in i.vars.data.error ==> HealthOf(i, id, parse).varsError == "")
  {
    EntryIsExact(i, id, parse);
  }
}
