/**
 The guard on destructive repairs, written twice: backend/repair_guard.go decides whether a launch
 is forwarded to Garage, frontend/src/lib/repair-guard.ts whether the button is enabled. Both are
 modelled here, together with what their verdicts mean for the cluster and for each other.
 */
module RepairGuard {
  import opened Options
  import opened StableSort
  import opened Workers

  /** The repairType of a launch: the plain string form, or anything else. */
  datatype Repair = Named(name: string) | OtherForm

  predicate Destructive(repair: Repair) {
    repair.Named? && repair.name in {"versions", "blockRefs", "blockRc", "multipartUploads"}
  }

  predicate TableSync(worker: string) {
    worker in {"object sync", "version sync", "block_ref sync", "multipart_upload sync"}
  }

  datatype Health = Health(storageNodes: Option<int>, storageNodesUp: Option<int>,
                           partitions: Option<int>, partitionsAllOk: Option<int>)

  predicate Complete(h: Health) {
    h.storageNodes.Some? && h.storageNodesUp.Some? && h.partitions.Some? && h.partitionsAllOk.Some?
  }

  datatype Role = Role(capacity: Option<int>)
  datatype Node = Node(id: string, hostname: string, draining: bool, role: Option<Role>)

  /** The node holds metadata: a role with capacity, or no role while draining. */
  predicate IsStorage(n: Node) {
    if n.role.Some? then n.role.value.capacity.Some? else n.draining
  }

  ghost predicate IsStorageId(nodes: seq<Node>, id: string) {
    exists k :: 0 <= k < |nodes| && IsStorage(nodes[k]) && nodes[k].id == id
  }

  datatype ListWorkers = ListWorkers(success: map<string, seq<RawWorker>>, error: map<string, string>)

  datatype BusyWorker = BusyWorker(node: string, worker: string)
  datatype Reason =
    | NodesDown(up: int, total: int)
    | ReplicasMissing(ok: int, total: int)
    | NoAnswer(node: string, why: string)
    | TablesSyncing(busy: seq<BusyWorker>)
  datatype Advice = NoAdvice | RestoreNodes | WaitForSync

  /** A storage node by ID, carrying its display name. */
  type NodeRow = Row<string>

  /** The worker is a table sync that is not idle. */
  predicate Syncing(raw: RawWorker) {
    raw.WorkerObject? && raw.name.Text? && TableSync(raw.name.text) && raw.state != Text("idle")
  }

  // ---- What both guards are for ----

  /** What three requests to Garage answered, each of which may have failed. */
  datatype Fetched<T> = Failed | Got(data: T)
  datatype Snapshot = Snapshot(health: Fetched<Health>, status: Fetched<seq<Node>>, workers: Fetched<ListWorkers>)

  predicate AllUp(h: Health) {
    Complete(h) && h.storageNodesUp.value >= h.storageNodes.value && h.partitionsAllOk.value >= h.partitions.value
  }

  ghost predicate QuietNode(id: string, success: map<string, seq<RawWorker>>) {
    id in success && forall raw :: raw in success[id] ==> !Syncing(raw)
  }

  ghost predicate QuietStorage(nodes: seq<Node>, success: map<string, seq<RawWorker>>) {
    forall id :: IsStorageId(nodes, id) ==> QuietNode(id, success)
  }

  /** Every storage node up, every replica present, no table sync running on any storage node. */
  ghost predicate Safe(s: Snapshot) {
    s.health.Got? && s.status.Got? && s.workers.Got? &&
    AllUp(s.health.data) && QuietStorage(s.status.data, s.workers.data.success)
  }

  ghost predicate ListsAWorker(id: string, success: map<string, seq<RawWorker>>) {
    id in success && exists raw :: raw in success[id] && !raw.NotObject?
  }

  ghost predicate EveryStorageNodeLists(nodes: seq<Node>, success: map<string, seq<RawWorker>>) {
    forall id :: IsStorageId(nodes, id) ==> ListsAWorker(id, success)
  }

  // ---- The backend ----

  function BackendName(n: Node): string {
    if n.hostname != "" then n.hostname
    else if |n.id| > 16 then n.id[..16] + "…" else n.id
  }

  function UiName(n: Node): string {
    if n.hostname != "" then n.hostname else (if |n.id| > 16 then n.id[..16] else n.id) + "…"
  }

  /** The storage nodes in the order of the status, named by the backend's or by the UI's rule. */
  function StorageRows(nodes: seq<Node>, ui: bool): seq<NodeRow> {
    if nodes == [] then []
    else
      StorageRows(nodes[..|nodes| - 1], ui)
      + var n := nodes[|nodes| - 1];
        if IsStorage(n) then [Row(n.id, 0, if ui then UiName(n) else BackendName(n))] else []
  }

  method StorageNodes(nodes: seq<Node>) returns (rows: seq<NodeRow>)
    ensures rows == Sort(StorageRows(nodes, false))
  {
    var out: seq<NodeRow> := [];
    for i := 0 to |nodes|
      invariant out == StorageRows(nodes[..i], false)
    {
      assert nodes[..i + 1][..i] == nodes[..i];
      var n := nodes[i];
      var isStorage := n.draining;
      if n.role.Some? {
        isStorage := n.role.value.capacity.Some?;
      }
      if isStorage {
        var name := n.hostname;
        if name == "" {
          name := n.id;
          if |name| > 16 {
            name := name[..16] + "…";
          }
        }
        out := out + [Row(n.id, 0, name)];
      }
    }
    assert nodes[..|nodes|] == nodes;
    rows := Sort(out);
  }

  /** The name and state Go reads from a list element; None when it does not decode. */
  function WorkerStatus(raw: RawWorker): Option<(string, Field)> {
    match raw
    case NotObject => None
    case NullWorker => Some(("", Absent))
    case WorkerObject(_, name, state, _) =>
      match name
      case Text(text) => Some((text, state))
      case OtherJson => None
      case _ => Some(("", state))
  }

  function BusyOn(name: string, raws: seq<RawWorker>): seq<BusyWorker> {
    if raws == [] then []
    else
      BusyOn(name, raws[..|raws| - 1])
      + if Syncing(raws[|raws| - 1]) then [BusyWorker(name, raws[|raws| - 1].name.text)] else []
  }

  function Busy(rows: seq<NodeRow>, success: map<string, seq<RawWorker>>): seq<BusyWorker> {
    if rows == [] then []
    else
      Busy(rows[..|rows| - 1], success)
      + if rows[|rows| - 1].node in success then BusyOn(rows[|rows| - 1].val, success[rows[|rows| - 1].node]) else []
  }

  function WhyNot(id: string, error: map<string, string>): string {
    if id in error && error[id] != "" then error[id] else "no answer"
  }

  function Unanswered(rows: seq<NodeRow>, workers: ListWorkers): seq<Reason> {
    if rows == [] then []
    else
      Unanswered(rows[..|rows| - 1], workers)
      + var n := rows[|rows| - 1];
        if n.node in workers.success then [] else [NoAnswer(n.val, WhyNot(n.node, workers.error))]
  }

  function Degraded(h: Health): seq<Reason>
    requires Complete(h)
  {
    (if h.storageNodesUp.value < h.storageNodes.value
     then [NodesDown(h.storageNodesUp.value, h.storageNodes.value)] else [])
    + (if h.partitionsAllOk.value < h.partitions.value
       then [ReplicasMissing(h.partitionsAllOk.value, h.partitions.value)] else [])
  }

  function InOneReason(busy: seq<BusyWorker>): seq<Reason> {
    if busy == [] then [] else [TablesSyncing(busy)]
  }

  function AdviceFor(degraded: bool, reasons: seq<Reason>): Advice {
    if degraded then RestoreNodes else if reasons != [] then WaitForSync else NoAdvice
  }

  method CollectBusy(name: string, raws: seq<RawWorker>, syncing: seq<BusyWorker>) returns (out: seq<BusyWorker>)
    ensures out == syncing + BusyOn(name, raws)
  {
    out := syncing;
    for j := 0 to |raws|
      invariant out == syncing + BusyOn(name, raws[..j])
    {
      assert raws[..j + 1][..j] == raws[..j];
      var w := WorkerStatus(raws[j]);
      if w.Some? && TableSync(w.value.0) {
        if w.value.1 != Text("idle") {
          out := out + [BusyWorker(name, w.value.0)];
        }
      }
    }
    assert raws[..|raws|] == raws;
  }

  method CheckCounters(h: Health) returns (reasons: seq<Reason>)
    requires Complete(h)
    ensures reasons == Degraded(h)
  {
    reasons := [];
    if h.storageNodesUp.value < h.storageNodes.value {
      reasons := reasons + [NodesDown(h.storageNodesUp.value, h.storageNodes.value)];
    }
    if h.partitionsAllOk.value < h.partitions.value {
      reasons := reasons + [ReplicasMissing(h.partitionsAllOk.value, h.partitions.value)];
    }
  }

  /** The loop over the storage nodes: those without an answer join the reasons, busy workers are collected. */
  method VisitNodes(rows: seq<NodeRow>, workers: ListWorkers, before: seq<Reason>)
    returns (reasons: seq<Reason>, syncing: seq<BusyWorker>)
    ensures reasons == before + Unanswered(rows, workers)
    ensures syncing == Busy(rows, workers.success)
  {
    reasons, syncing := before, [];
    for i := 0 to |rows|
      invariant reasons == before + Unanswered(rows[..i], workers)
      invariant syncing == Busy(rows[..i], workers.success)
    {
      assert rows[..i + 1][..i] == rows[..i];
      var n := rows[i];
      if n.node !in workers.success {
        var msg := if n.node in workers.error then workers.error[n.node] else "";
        if msg == "" {
          msg := "no answer";
        }
        reasons := reasons + [NoAnswer(n.val, msg)];
      } else {
        syncing := CollectBusy(n.val, workers.success[n.node], syncing);
      }
    }
    assert rows[..|rows|] == rows;
  }

  /** Why the repair must not run, in the order the operator reads the reasons, and what to do. */
  method DestructiveRepairBlockers(h: Health, rows: seq<NodeRow>, workers: ListWorkers)
    returns (reasons: seq<Reason>, advice: Advice)
    requires Complete(h)
    ensures reasons == Degraded(h) + Unanswered(rows, workers) + InOneReason(Busy(rows, workers.success))
    ensures advice == AdviceFor(Degraded(h) != [], reasons)
  {
    reasons := CheckCounters(h);
    var degraded := |reasons| > 0;
    var syncing;
    reasons, syncing := VisitNodes(rows, workers, reasons);
    if |syncing| > 0 {
      reasons := reasons + [TablesSyncing(syncing)];
    }
    if degraded {
      advice := RestoreNodes;
    } else if |reasons| > 0 {
      advice := WaitForSync;
    } else {
      advice := NoAdvice;
    }
  }

  datatype Unreadable = ClusterState | NodeRoles | WorkerStates
  datatype Decision = Forward | Unknown(what: Unreadable) | Conflict(reasons: seq<Reason>, advice: Advice)

  /** An answer the backend cannot judge from. */
  predicate Unjudgeable(s: Snapshot) {
    s.health.Failed? || !Complete(s.health.data) || s.status.Failed? || s.workers.Failed?
  }

  /**
   A destructive repair is forwarded exactly when the cluster is safe for it; answers that could
   not be read or lack a counter refuse it, and every other repair passes.
   */
  method GuardDestructiveRepair(repair: Repair, s: Snapshot) returns (d: Decision)
    ensures d.Forward? <==> (Destructive(repair) ==> Safe(s))
    ensures d.Unknown? <==> Destructive(repair) && Unjudgeable(s)
    ensures d.Unknown? ==>
              d.what == if s.health.Failed? || !Complete(s.health.data) then ClusterState
                        else if s.status.Failed? then NodeRoles else WorkerStates
    ensures d.Conflict? ==> !Unjudgeable(s) && d.reasons != [] &&
                            d.reasons == Blockers(s.health.data, s.status.data, s.workers.data)
    ensures d.Conflict? ==> d.advice == if AllUp(s.health.data) then WaitForSync else RestoreNodes
  {
    if !Destructive(repair) {
      return Forward;
    }
    if s.health.Failed? || !Complete(s.health.data) {
      return Unknown(ClusterState);
    }
    if s.status.Failed? {
      return Unknown(NodeRoles);
    }
    if s.workers.Failed? {
      return Unknown(WorkerStates);
    }
    var rows := StorageNodes(s.status.data);
    var reasons, advice := DestructiveRepairBlockers(s.health.data, rows, s.workers.data);
    BlockersMeaning(s.health.data, s.status.data, s.workers.data);
    if |reasons| == 0 {
      return Forward;
    }
    d := Conflict(reasons, advice);
  }

  lemma {:induction false} NoBusyOn(name: string, raws: seq<RawWorker>)
    ensures BusyOn(name, raws) == [] <==> forall raw :: raw in raws ==> !Syncing(raw)
  {
    if raws != [] {
      var n := |raws| - 1;
      NoBusyOn(name, raws[..n]);
      assert raws == raws[..n] + [raws[n]];
    }
  }

  ghost predicate AllQuiet(rows: seq<NodeRow>, success: map<string, seq<RawWorker>>) {
    forall k :: 0 <= k < |rows| ==> QuietNode(rows[k].node, success)
  }

  lemma AllQuietLast(before: seq<NodeRow>, last: NodeRow, success: map<string, seq<RawWorker>>)
    ensures AllQuiet(before + [last], success) <==> AllQuiet(before, success) && QuietNode(last.node, success)
  {
    var rows := before + [last];
    assert rows[|before|] == last;
    if AllQuiet(rows, success) {
      forall k | 0 <= k < |before| ensures QuietNode(before[k].node, success) {
        assert rows[k] == before[k];
      }
    }
  }

  lemma LastRow(rows: seq<NodeRow>, workers: ListWorkers, before: seq<NodeRow>, last: NodeRow)
    requires rows == before + [last]
    ensures Unanswered(rows, workers) == [] && Busy(rows, workers.success) == []
            <==> Unanswered(before, workers) == [] && Busy(before, workers.success) == []
                 && QuietNode(last.node, workers.success)
  {
    assert rows[..|rows| - 1] == before;
    if last.node in workers.success {
      NoBusyOn(last.val, workers.success[last.node]);
    }
  }

  lemma {:induction false} NoneBusy(rows: seq<NodeRow>, workers: ListWorkers)
    ensures Unanswered(rows, workers) == [] && Busy(rows, workers.success) == [] <==> AllQuiet(rows, workers.success)
  {
    if rows != [] {
      var before, last := rows[..|rows| - 1], rows[|rows| - 1];
      assert rows == before + [last];
      NoneBusy(before, workers);
      LastRow(rows, workers, before, last);
      AllQuietLast(before, last, workers.success);
    }
  }

  ghost predicate HasId(rows: seq<NodeRow>, id: string) {
    exists k :: 0 <= k < |rows| && rows[k].node == id
  }

  lemma {:induction false} StorageRowsExactly(nodes: seq<Node>, ui: bool, id: string)
    ensures HasId(StorageRows(nodes, ui), id) <==> IsStorageId(nodes, id)
  {
    if nodes != [] {
      var n := |nodes| - 1;
      var before, rows := StorageRows(nodes[..n], ui), StorageRows(nodes, ui);
      StorageRowsExactly(nodes[..n], ui, id);
      if HasId(before, id) {
        var k :| 0 <= k < |before| && before[k].node == id;
        assert rows[k] == before[k];
      }
      if IsStorage(nodes[n]) {
        assert rows[|before|].node == nodes[n].id;
      }
    }
  }

  /** Sorting neither loses nor invents a storage node. */
  lemma SortedStorageIds(nodes: seq<Node>, ui: bool, id: string)
    ensures HasId(Sort(StorageRows(nodes, ui)), id) <==> IsStorageId(nodes, id)
  {
    var rows := StorageRows(nodes, ui);
    StorageRowsExactly(nodes, ui, id);
    SortFacts(rows, "", 0);
    if HasId(rows, id) {
      var k :| 0 <= k < |rows| && rows[k].node == id;
      assert rows[k] in multiset(Sort(rows));
      assert rows[k] in Sort(rows);
    }
    if HasId(Sort(rows), id) {
      var k :| 0 <= k < |Sort(rows)| && Sort(rows)[k].node == id;
      assert Sort(rows)[k] in multiset(rows);
      assert Sort(rows)[k] in rows;
    }
  }

  /** All the reasons of the backend, in the order the operator reads them. */
  function Blockers(h: Health, nodes: seq<Node>, workers: ListWorkers): seq<Reason>
    requires Complete(h)
  {
    var rows := Sort(StorageRows(nodes, false));
    Degraded(h) + Unanswered(rows, workers) + InOneReason(Busy(rows, workers.success))
  }

  /** No reasons means a safe cluster, and a safe cluster has no reasons. */
  lemma BlockersMeaning(h: Health, nodes: seq<Node>, workers: ListWorkers)
    requires Complete(h)
    ensures Blockers(h, nodes, workers) == []
            <==> AllUp(h) && QuietStorage(nodes, workers.success)
  {
    var rows := Sort(StorageRows(nodes, false));
    NoneBusy(rows, workers);
    forall id ensures HasId(rows, id) <==> IsStorageId(nodes, id) {
      SortedStorageIds(nodes, false, id);
    }
    forall k | 0 <= k < |rows| ensures HasId(rows, rows[k].node) {
    }
  }

  // ---- The UI ----

  /** A react-query result: the last data it got stays when a later fetch fails. */
  datatype Query<T> = Query(pending: bool, isError: bool, data: Option<T>)
  datatype FetchState = Pending | Errored | Succeeded

  function StateOf<T>(q: Query<T>): FetchState {
    if q.isError then Errored else if q.pending then Pending else Succeeded
  }

  datatype UiWorkers = UiWorkers(entries: seq<Entry>, errors: map<string, string>)

  datatype StateKind = Idle | NotIdle

  function DescribeState(state: Field): StateKind {
    if state == Text("idle") then Idle else NotIdle
  }

  ghost predicate Listed(id: string, entries: seq<Entry>) {
    exists e :: e in entries && e.node == id
  }

  /** The node has an entry in the worker list, and none of its entries is a running sync. */
  ghost predicate ListedAndQuiet(id: string, entries: seq<Entry>) {
    Listed(id, entries) && forall e :: e in entries && e.node == id ==> !Syncing(e.val)
  }

  /** The running syncs of one node, in the order of the flattened list. */
  function UiBusyOn(id: string, name: string, entries: seq<Entry>): seq<BusyWorker> {
    if entries == [] then []
    else
      UiBusyOn(id, name, entries[..|entries| - 1])
      + var e := entries[|entries| - 1];
        if e.node == id && Syncing(e.val) then [BusyWorker(name, e.val.name.text)] else []
  }

  ghost function UiBusy(rows: seq<NodeRow>, entries: seq<Entry>): seq<BusyWorker> {
    if rows == [] then []
    else
      UiBusy(rows[..|rows| - 1], entries)
      + var n := rows[|rows| - 1];
        if Listed(n.node, entries) then UiBusyOn(n.node, n.val, entries) else []
  }

  ghost function UiUnanswered(rows: seq<NodeRow>, workers: UiWorkers): seq<Reason> {
    if rows == [] then []
    else
      UiUnanswered(rows[..|rows| - 1], workers)
      + var n := rows[|rows| - 1];
        if Listed(n.node, workers.entries) then []
        else [NoAnswer(n.val, if n.node in workers.errors then workers.errors[n.node] else "no answer")]
  }

  method UiCollectBusy(id: string, name: string, entries: seq<Entry>, syncing: seq<BusyWorker>)
    returns (out: seq<BusyWorker>)
    ensures out == syncing + UiBusyOn(id, name, entries)
  {
    out := syncing;
    for j := 0 to |entries|
      invariant out == syncing + UiBusyOn(id, name, entries[..j])
    {
      assert entries[..j + 1][..j] == entries[..j];
      var w := entries[j];
      if w.node == id && w.val.WorkerObject? && w.val.name.Text? && TableSync(w.val.name.text) {
        if DescribeState(w.val.state) != Idle {
          out := out + [BusyWorker(name, w.val.name.text)];
        }
      }
    }
    assert entries[..|entries|] == entries;
  }

  method UiVisitNodes(rows: seq<NodeRow>, workers: UiWorkers, before: seq<Reason>)
    returns (reasons: seq<Reason>, syncing: seq<BusyWorker>)
    ensures reasons == before + UiUnanswered(rows, workers)
    ensures syncing == UiBusy(rows, workers.entries)
  {
    reasons, syncing := before, [];
    var answered := UiAnswered(workers.entries);
    for i := 0 to |rows|
      invariant reasons == before + UiUnanswered(rows[..i], workers)
      invariant syncing == UiBusy(rows[..i], workers.entries)
    {
      assert rows[..i + 1][..i] == rows[..i];
      var id := rows[i].node;
      if id !in answered {
        var why := if id in workers.errors then workers.errors[id] else "no answer";
        reasons := reasons + [NoAnswer(rows[i].val, why)];
      } else {
        syncing := UiCollectBusy(id, rows[i].val, workers.entries, syncing);
      }
    }
    assert rows[..|rows|] == rows;
  }

  lemma {:induction false} UiNoBusyOn(id: string, name: string, entries: seq<Entry>)
    ensures UiBusyOn(id, name, entries) == [] <==> forall e :: e in entries && e.node == id ==> !Syncing(e.val)
  {
    if entries != [] {
      var n := |entries| - 1;
      UiNoBusyOn(id, name, entries[..n]);
      assert entries == entries[..n] + [entries[n]];
    }
  }

  ghost predicate AllListedAndQuiet(rows: seq<NodeRow>, entries: seq<Entry>) {
    forall k :: 0 <= k < |rows| ==> ListedAndQuiet(rows[k].node, entries)
  }

  lemma AllListedLast(before: seq<NodeRow>, last: NodeRow, entries: seq<Entry>)
    ensures AllListedAndQuiet(before + [last], entries)
            <==> AllListedAndQuiet(before, entries) && ListedAndQuiet(last.node, entries)
  {
    var rows := before + [last];
    assert rows[|before|] == last;
    if AllListedAndQuiet(rows, entries) {
      forall k | 0 <= k < |before| ensures ListedAndQuiet(before[k].node, entries) {
        assert rows[k] == before[k];
      }
    }
  }

  lemma UiLastRow(rows: seq<NodeRow>, workers: UiWorkers, before: seq<NodeRow>, last: NodeRow)
    requires rows == before + [last]
    ensures UiUnanswered(rows, workers) == [] && UiBusy(rows, workers.entries) == []
            <==> UiUnanswered(before, workers) == [] && UiBusy(before, workers.entries) == []
                 && ListedAndQuiet(last.node, workers.entries)
  {
    assert rows[..|rows| - 1] == before;
    UiNoBusyOn(last.node, last.val, workers.entries);
  }

  lemma {:induction false} UiNoneBusy(rows: seq<NodeRow>, workers: UiWorkers)
    ensures UiUnanswered(rows, workers) == [] && UiBusy(rows, workers.entries) == []
            <==> AllListedAndQuiet(rows, workers.entries)
  {
    if rows != [] {
      var before, last := rows[..|rows| - 1], rows[|rows| - 1];
      assert rows == before + [last];
      UiNoneBusy(before, workers);
      UiLastRow(rows, workers, before, last);
      AllListedLast(before, last, workers.entries);
    }
  }

  method UiAnswered(entries: seq<Entry>) returns (ids: set<string>)
    ensures forall id :: id in ids <==> Listed(id, entries)
  {
    ids := {};
    for j := 0 to |entries|
      invariant forall id :: id in ids <==> exists i :: 0 <= i < j && entries[i].node == id
    {
      ids := ids + {entries[j].node};
    }
    forall id ensures id in ids <==> Listed(id, entries) {
      if id in ids {
        var i :| 0 <= i < |entries| && entries[i].node == id;
        assert entries[i] in entries;
      }
    }
  }

  datatype UiDecision = Allowed | Blocked(reasons: seq<Reason>, advice: Advice) | NotYet | Unknowable

  /** What the UI needs to see before it enables a destructive repair. */
  ghost predicate UiSatisfied(health: Query<Health>, workers: Query<UiWorkers>, status: Query<seq<Node>>) {
    UiJudgeable(health, workers, status) && AllUp(health.data.value) &&
    forall id :: IsStorageId(status.data.value, id) ==> ListedAndQuiet(id, workers.data.value.entries)
  }

  method UiStorageNodes(nodes: seq<Node>) returns (rows: seq<NodeRow>)
    ensures rows == StorageRows(nodes, true)
  {
    rows := [];
    for i := 0 to |nodes|
      invariant rows == StorageRows(nodes[..i], true)
    {
      assert nodes[..i + 1][..i] == nodes[..i];
      if IsStorage(nodes[i]) {
        rows := rows + [Row(nodes[i].id, 0, UiName(nodes[i]))];
      }
    }
    assert nodes[..|nodes|] == nodes;
  }

  /** The query has neither answered nor failed. */
  predicate Loading<T>(q: Query<T>) {
    q.pending && !q.isError
  }

  /** The query holds an answer that no later failure made doubtful. */
  predicate Holds<T>(q: Query<T>) {
    !q.pending && !q.isError && q.data.Some?
  }

  predicate UiJudgeable(health: Query<Health>, workers: Query<UiWorkers>, status: Query<seq<Node>>) {
    Holds(health) && Complete(health.data.value) && Holds(workers) && status.data.Some?
  }

  ghost function UiReasons(h: Health, workers: UiWorkers, nodes: seq<Node>): seq<Reason>
    requires Complete(h)
  {
    var rows := Sort(StorageRows(nodes, true));
    Degraded(h) + UiUnanswered(rows, workers) + InOneReason(UiBusy(rows, workers.entries))
  }

  lemma UiReasonsMeaning(h: Health, workers: UiWorkers, nodes: seq<Node>)
    requires Complete(h)
    ensures UiReasons(h, workers, nodes) == []
            <==> AllUp(h) && forall id :: IsStorageId(nodes, id) ==> ListedAndQuiet(id, workers.entries)
  {
    var rows := Sort(StorageRows(nodes, true));
    UiNoneBusy(rows, workers);
    forall id ensures HasId(rows, id) <==> IsStorageId(nodes, id) {
      SortedStorageIds(nodes, true, id);
    }
    forall k | 0 <= k < |rows| ensures HasId(rows, rows[k].node) {
    }
  }

  /**
   The button is enabled exactly when the UI is satisfied; until the health and worker queries have
   answered it says so, and a refusal carries the full list of reasons.
   */
  method EvaluateRepairGuard(repair: Repair, health: Query<Health>, workers: Query<UiWorkers>, status: Query<seq<Node>>)
    returns (d: UiDecision)
    ensures d.Allowed? <==> (Destructive(repair) ==> UiSatisfied(health, workers, status))
    ensures d.NotYet? <==> Destructive(repair) && (Loading(health) || Loading(workers))
    ensures d.Blocked? ==> UiJudgeable(health, workers, status) && d.reasons != [] &&
                           d.reasons == UiReasons(health.data.value, workers.data.value, status.data.value)
    ensures d.Blocked? ==> d.advice == if AllUp(health.data.value) then WaitForSync else RestoreNodes
  {
    if !Destructive(repair) {
      return Allowed;
    }
    if StateOf(health) == Pending || StateOf(workers) == Pending {
      return NotYet;
    }
    if StateOf(health) == Errored || health.data.None? || !Complete(health.data.value) {
      return Unknowable;
    }
    if StateOf(workers) == Errored || workers.data.None? || status.data.None? {
      return Unknowable;
    }
    var reasons := CheckCounters(health.data.value);
    var degraded := |reasons| > 0;
    var unsorted := UiStorageNodes(status.data.value);
    var rows := Sort(unsorted);
    var syncing;
    reasons, syncing := UiVisitNodes(rows, workers.data.value, reasons);
    if |syncing| > 0 {
      reasons := reasons + [TablesSyncing(syncing)];
    }
    UiReasonsMeaning(health.data.value, workers.data.value, status.data.value);
    if |reasons| == 0 {
      return Allowed;
    }
    d := Blocked(reasons, if degraded then RestoreNodes else WaitForSync);
  }

  // ---- The two together ----

  /** The query holds what the request of this moment answered; a failed one may still hold old data. */
  ghost predicate Shows<T>(q: Query<T>, f: Fetched<T>) {
    if f.Failed? then q.isError else q == Query(false, false, Some(f.data))
  }

  /** The worker query holds the flattened form of what Garage answered. */
  ghost predicate ShowsWorkers(q: Query<UiWorkers>, f: Fetched<ListWorkers>) {
    if f.Failed? then q.isError
    else !q.pending && !q.isError && q.data.Some? &&
         IsFlattening(f.data.success, q.data.value.entries) && q.data.value.errors == f.data.error
  }

  lemma ListedAndQuietMeaning(id: string, success: map<string, seq<RawWorker>>, entries: seq<Entry>)
    requires IsFlattening(success, entries)
    ensures ListedAndQuiet(id, entries) <==> QuietNode(id, success) && ListsAWorker(id, success)
  {
    forall raw: RawWorker
      ensures Row(id, IdOf(raw), raw) in entries <==> id in success && raw in success[id] && !raw.NotObject?
      ensures forall e :: e in entries && e.node == id ==> id in success && e.val in success[id] && e.id == IdOf(e.val)
    {
      EntriesOfNode(success, entries, id, raw);
    }
    if ListedAndQuiet(id, entries) {
      var e :| e in entries && e.node == id;
      EntriesOfNode(success, entries, id, e.val);
      assert Row(id, IdOf(e.val), e.val) == e;
      forall raw | raw in success[id] ensures !Syncing(raw) {
        if !raw.NotObject? {
          assert Row(id, IdOf(raw), raw) in entries;
        }
      }
    }
    if QuietNode(id, success) && ListsAWorker(id, success) {
      var raw :| raw in success[id] && !raw.NotObject?;
      assert Row(id, IdOf(raw), raw) in entries;
    }
  }

  /**
   On one snapshot the UI enables a destructive repair exactly when the backend would forward it
   and every storage node listed at least one worker, provided the node roles were fetched.
   */
  lemma GuardsAgree(s: Snapshot, health: Query<Health>, workers: Query<UiWorkers>, status: Query<seq<Node>>)
    requires Shows(health, s.health) && ShowsWorkers(workers, s.workers) && Shows(status, s.status)
    requires s.status.Got?
    ensures UiSatisfied(health, workers, status)
            <==> Safe(s) && EveryStorageNodeLists(s.status.data, s.workers.data.success)
  {
    if s.health.Got? && s.workers.Got? {
      forall id ensures ListedAndQuiet(id, workers.data.value.entries)
                        <==> QuietNode(id, s.workers.data.success) && ListsAWorker(id, s.workers.data.success)
      {
        ListedAndQuietMeaning(id, s.workers.data.success, workers.data.value.entries);
      }
    }
  }

  /**
   The UI does not look at whether the status query failed. An enabled button is a repair the
   backend forwards if and only if the node roles could be fetched.
   */
  lemma EnabledIsForwarded(s: Snapshot, health: Query<Health>, workers: Query<UiWorkers>, status: Query<seq<Node>>)
    requires Shows(health, s.health) && ShowsWorkers(workers, s.workers) && Shows(status, s.status)
    requires UiSatisfied(health, workers, status)
    ensures Safe(s) <==> s.status.Got?
  {
    if s.status.Got? {
      GuardsAgree(s, health, workers, status);
    }
  }

  /** The button can be enabled while the backend refuses: the roles on the page are old ones. */
  lemma StaleRolesEnableTheButton()
    ensures exists s: Snapshot, health: Query<Health>, workers: Query<UiWorkers>, status: Query<seq<Node>> ::
              Shows(health, s.health) && ShowsWorkers(workers, s.workers) && Shows(status, s.status) &&
              UiSatisfied(health, workers, status) && !Safe(s)
  {
    var h := Health(Some(1), Some(1), Some(256), Some(256));
    var idle := WorkerObject(Some(1), Text("object sync"), Text("idle"), "");
    var success: map<string, seq<RawWorker>> := map["a" := [idle]];
    var entries: seq<Entry> := [Row("a", 1, idle)];
    var s := Snapshot(Got(h), Failed, Got(ListWorkers(success, map[])));
    var health := Query(false, false, Some(h));
    var workers := Query(false, false, Some(UiWorkers(entries, map[])));
    var status: Query<seq<Node>> := Query(false, true, Some([Node("a", "a", false, Some(Role(Some(1))))]));
    assert Rows("a", [idle]) == Rows("a", []) + RowOf("a", idle) by {
      assert [idle][..0] == [];
    }
    assert IsFlattening(success, entries);
    assert entries[0] in entries;
    assert ListedAndQuiet("a", entries);
    assert UiSatisfied(health, workers, status);
    assert Shows(status, s.status);
  }

  /** The backend's extra freedom: a storage node that answered with no worker passes there, not in the UI. */
  lemma EmptyListsDivide(s: Snapshot, health: Query<Health>, workers: Query<UiWorkers>, status: Query<seq<Node>>,
                         id: string)
    requires Shows(health, s.health) && ShowsWorkers(workers, s.workers) && Shows(status, s.status)
    requires Safe(s) && IsStorageId(s.status.data, id) && s.workers.data.success[id] == []
    ensures !UiSatisfied(health, workers, status)
  {
    GuardsAgree(s, health, workers, status);
  }
}
