/**
 What stands in the reasons of both repair guards: which nodes and workers they name, in which
 words, and in which order. RepairGuard proves when there is no reason at all.
 */
module RepairReasons {
  import opened Options
  import opened StableSort
  import opened Workers
  import opened RepairGuard

  // ---- The vocabulary, in terms of the answers of Garage ----

  ghost predicate HoldsMetadata(n: Node) {
    (n.role.Some? && n.role.value.capacity.Some?) || (n.role.None? && n.draining)
  }

  /**
   The name the operator reads: the host name or, without one, the ID up to 16 characters with
   dots behind it, which the backend leaves out when nothing is cut off.
   */
  ghost predicate Shown(n: Node, name: string, ui: bool) {
    if n.hostname != "" then name == n.hostname
    else if |n.id| > 16 then |name| == 17 && name[..16] == n.id[..16] && name[16] == '…'
    else name == if ui then n.id + ['…'] else n.id
  }

  /** The k-th node of the status holds metadata, has this ID and is shown under this name. */
  ghost predicate StorageAt(nodes: seq<Node>, k: int, id: string, name: string, ui: bool) {
    0 <= k < |nodes| && HoldsMetadata(nodes[k]) && nodes[k].id == id && Shown(nodes[k], name, ui)
  }

  ghost predicate IsShownStorage(nodes: seq<Node>, id: string, name: string, ui: bool) {
    exists k :: StorageAt(nodes, k, id, name, ui)
  }

  /** A list element that is one of the four table syncs and says anything but idle. */
  ghost predicate RunsSync(raw: RawWorker, worker: string) {
    raw.WorkerObject? && raw.name == Text(worker) && raw.state != Text("idle") &&
    (worker == "object sync" || worker == "version sync" || worker == "block_ref sync"
     || worker == "multipart_upload sync")
  }

  ghost predicate NodeRuns(id: string, success: map<string, seq<RawWorker>>, worker: string) {
    id in success && exists raw :: raw in success[id] && RunsSync(raw, worker)
  }

  ghost predicate ListRuns(id: string, entries: seq<Entry>, worker: string) {
    exists e :: e in entries && e.node == id && RunsSync(e.val, worker)
  }

  lemma SyncingIs(raw: RawWorker, worker: string)
    ensures RunsSync(raw, worker) <==> Syncing(raw) && raw.name.text == worker
  {
  }

  // ---- The storage nodes ----

  lemma {:induction false} StorageRowsAre(nodes: seq<Node>, ui: bool, row: NodeRow)
    ensures row in StorageRows(nodes, ui) <==> row.id == 0 && IsShownStorage(nodes, row.node, row.val, ui)
  {
    if nodes != [] {
      var n := |nodes| - 1;
      var before := nodes[..n];
      StorageRowsAre(before, ui, row);
      assert IsShownStorage(nodes, row.node, row.val, ui)
        <==> IsShownStorage(before, row.node, row.val, ui) || StorageAt(nodes, n, row.node, row.val, ui)
      by {
        if IsShownStorage(before, row.node, row.val, ui) {
          var k :| StorageAt(before, k, row.node, row.val, ui);
          assert StorageAt(nodes, k, row.node, row.val, ui);
        }
        if IsShownStorage(nodes, row.node, row.val, ui) {
          var k :| StorageAt(nodes, k, row.node, row.val, ui);
          assert k < n ==> StorageAt(before, k, row.node, row.val, ui);
        }
      }
      NameIsShown(nodes[n], row.val, ui);
    }
  }

  lemma NameIsShown(n: Node, name: string, ui: bool)
    ensures Shown(n, name, ui) <==> name == if ui then UiName(n) else BackendName(n)
  {
    if n.hostname == "" && |n.id| > 16 && Shown(n, name, ui) {
      assert name == name[..16] + [name[16]];
    }
  }

  /** The rows both guards go through are the storage nodes, in the order of their IDs. */
  lemma RowsOfStorage(nodes: seq<Node>, ui: bool, row: NodeRow)
    ensures row in Sort(StorageRows(nodes, ui)) <==> row.id == 0 && IsShownStorage(nodes, row.node, row.val, ui)
    ensures Sorted(Sort(StorageRows(nodes, ui)))
  {
    var rows := StorageRows(nodes, ui);
    SortFacts(rows, "", 0);
    StorageRowsAre(nodes, ui, row);
    assert row in multiset(rows) <==> row in multiset(Sort(rows));
  }

  // ---- The reasons follow the rows ----

  lemma {:induction false} BusyOnFollows(name: string, a: seq<RawWorker>, b: seq<RawWorker>)
    ensures BusyOn(name, a + b) == BusyOn(name, a) + BusyOn(name, b)
  {
    if b == [] {
      assert a + b == a;
    } else {
      var n := |b| - 1;
      assert (a + b)[..|a + b| - 1] == a + b[..n];
      BusyOnFollows(name, a, b[..n]);
    }
  }

  /** The reasons and the running syncs of the rows in front come before those of the rows behind. */
  lemma {:induction false} BackendFollows(a: seq<NodeRow>, b: seq<NodeRow>, workers: ListWorkers)
    ensures Unanswered(a + b, workers) == Unanswered(a, workers) + Unanswered(b, workers)
    ensures Busy(a + b, workers.success) == Busy(a, workers.success) + Busy(b, workers.success)
  {
    if b == [] {
      assert a + b == a;
    } else {
      var n := |b| - 1;
      assert (a + b)[..|a + b| - 1] == a + b[..n];
      BackendFollows(a, b[..n], workers);
    }
  }

  lemma {:induction false} UiBusyOnFollows(id: string, name: string, a: seq<Entry>, b: seq<Entry>)
    ensures UiBusyOn(id, name, a + b) == UiBusyOn(id, name, a) + UiBusyOn(id, name, b)
  {
    if b == [] {
      assert a + b == a;
    } else {
      var n := |b| - 1;
      assert (a + b)[..|a + b| - 1] == a + b[..n];
      UiBusyOnFollows(id, name, a, b[..n]);
    }
  }

  lemma {:induction false} UiFollows(a: seq<NodeRow>, b: seq<NodeRow>, workers: UiWorkers)
    ensures UiUnanswered(a + b, workers) == UiUnanswered(a, workers) + UiUnanswered(b, workers)
    ensures UiBusy(a + b, workers.entries) == UiBusy(a, workers.entries) + UiBusy(b, workers.entries)
  {
    if b == [] {
      assert a + b == a;
    } else {
      var n := |b| - 1;
      assert (a + b)[..|a + b| - 1] == a + b[..n];
      UiFollows(a, b[..n], workers);
    }
  }

  // ---- The backend ----

  /** The node has no answer, and this is Garage's message about it or, without one, the fixed text. */
  ghost predicate Silent(id: string, workers: ListWorkers, why: string) {
    id !in workers.success &&
    ((why == "no answer" && (id in workers.error ==> workers.error[id] == ""))
     || (why != "" && id in workers.error && workers.error[id] == why))
  }

  lemma {:induction false} BusyOnAre(name: string, raws: seq<RawWorker>, b: BusyWorker)
    ensures b in BusyOn(name, raws) <==> b.node == name && exists raw :: raw in raws && RunsSync(raw, b.worker)
  {
    if raws != [] {
      var n := |raws| - 1;
      assert raws == raws[..n] + [raws[n]];
      BusyOnAre(name, raws[..n], b);
      SyncingIs(raws[n], b.worker);
    }
  }

  lemma {:induction false} UnansweredAre(rows: seq<NodeRow>, workers: ListWorkers, name: string, why: string)
    ensures NoAnswer(name, why) in Unanswered(rows, workers)
            <==> exists row :: row in rows && row.val == name && Silent(row.node, workers, why)
    ensures forall x :: x in Unanswered(rows, workers) ==> x.NoAnswer?
  {
    if rows != [] {
      var n := |rows| - 1;
      assert rows == rows[..n] + [rows[n]];
      UnansweredAre(rows[..n], workers, name, why);
    }
  }

  lemma {:induction false} BusyAre(rows: seq<NodeRow>, success: map<string, seq<RawWorker>>, b: BusyWorker)
    ensures b in Busy(rows, success)
            <==> exists row :: row in rows && row.val == b.node && NodeRuns(row.node, success, b.worker)
  {
    if rows != [] {
      var n := |rows| - 1;
      assert rows == rows[..n] + [rows[n]];
      BusyAre(rows[..n], success, b);
      if rows[n].node in success {
        BusyOnAre(rows[n].val, success[rows[n].node], b);
      }
    }
  }

  /** Some storage node shown under this name has no worker states, for this reason. */
  ghost predicate SomeSilent(nodes: seq<Node>, workers: ListWorkers, name: string, why: string) {
    exists id :: IsShownStorage(nodes, id, name, false) && Silent(id, workers, why)
  }

  /** Some storage node shown under this name runs this sync. */
  ghost predicate SomeRuns(nodes: seq<Node>, success: map<string, seq<RawWorker>>, b: BusyWorker) {
    exists id :: IsShownStorage(nodes, id, b.node, false) && NodeRuns(id, success, b.worker)
  }

  lemma SilentNodes(nodes: seq<Node>, workers: ListWorkers, name: string, why: string)
    ensures NoAnswer(name, why) in Unanswered(Sort(StorageRows(nodes, false)), workers)
            <==> SomeSilent(nodes, workers, name, why)
  {
    var rows := Sort(StorageRows(nodes, false));
    UnansweredAre(rows, workers, name, why);
    forall row: NodeRow ensures row in rows <==> row.id == 0 && IsShownStorage(nodes, row.node, row.val, false) {
      RowsOfStorage(nodes, false, row);
    }
    if SomeSilent(nodes, workers, name, why) {
      var id :| IsShownStorage(nodes, id, name, false) && Silent(id, workers, why);
      assert Row(id, 0, name) in rows;
    }
  }

  lemma RunningSyncs(nodes: seq<Node>, success: map<string, seq<RawWorker>>, b: BusyWorker)
    ensures b in Busy(Sort(StorageRows(nodes, false)), success) <==> SomeRuns(nodes, success, b)
  {
    var rows := Sort(StorageRows(nodes, false));
    BusyAre(rows, success, b);
    forall row: NodeRow ensures row in rows <==> row.id == 0 && IsShownStorage(nodes, row.node, row.val, false) {
      RowsOfStorage(nodes, false, row);
    }
    if SomeRuns(nodes, success, b) {
      var id :| IsShownStorage(nodes, id, b.node, false) && NodeRuns(id, success, b.worker);
      assert Row(id, 0, b.node) in rows;
    }
  }

  /** One of the two counters is below what it should be, and this says so with both numbers. */
  ghost predicate CounterShort(h: Health, x: Reason) {
    (x.NodesDown? && h.storageNodesUp == Some(x.up) && h.storageNodes == Some(x.total) && x.up < x.total) ||
    (x.ReplicasMissing? && h.partitionsAllOk == Some(x.ok) && h.partitions == Some(x.total) && x.ok < x.total)
  }

  lemma CountersAre(h: Health, x: Reason)
    requires Complete(h)
    ensures x in Degraded(h) <==> CounterShort(h, x)
  {
  }

  /**
   What the backend answers with: a counter is named exactly when it is short, a node exactly when
   it is a storage node without worker states, and all running syncs of storage nodes, and nothing
   else, in one last reason.
   */
  lemma BlockersAre(h: Health, nodes: seq<Node>, workers: ListWorkers, x: Reason)
    requires Complete(h)
    ensures !x.NoAnswer? && !x.TablesSyncing? ==> (x in Blockers(h, nodes, workers) <==> CounterShort(h, x))
    ensures x.NoAnswer? ==> (x in Blockers(h, nodes, workers) <==> SomeSilent(nodes, workers, x.node, x.why))
    ensures x.TablesSyncing? ==>
              (x in Blockers(h, nodes, workers)
               <==> x.busy != [] && x.busy == Busy(Sort(StorageRows(nodes, false)), workers.success))
    ensures x.TablesSyncing? && x in Blockers(h, nodes, workers) ==>
              forall b :: b in x.busy <==> SomeRuns(nodes, workers.success, b)
  {
    var rows := Sort(StorageRows(nodes, false));
    CountersAre(h, x);
    if x.NoAnswer? {
      SilentNodes(nodes, workers, x.node, x.why);
    } else {
      UnansweredAre(rows, workers, "", "");
    }
    forall b ensures b in Busy(rows, workers.success) <==> SomeRuns(nodes, workers.success, b) {
      RunningSyncs(nodes, workers.success, b);
    }
  }

  // ---- The UI ----

  /** The node has no entry; its error message is shown even when it is empty. */
  ghost predicate Unlisted(id: string, workers: UiWorkers, why: string) {
    !Listed(id, workers.entries) &&
    ((id in workers.errors && workers.errors[id] == why) || (id !in workers.errors && why == "no answer"))
  }

  lemma {:induction false} UiBusyOnAre(id: string, name: string, entries: seq<Entry>, b: BusyWorker)
    ensures b in UiBusyOn(id, name, entries) <==> b.node == name && ListRuns(id, entries, b.worker)
  {
    if entries != [] {
      var n := |entries| - 1;
      assert entries == entries[..n] + [entries[n]];
      UiBusyOnAre(id, name, entries[..n], b);
      SyncingIs(entries[n].val, b.worker);
    }
  }

  lemma {:induction false} UiUnansweredAre(rows: seq<NodeRow>, workers: UiWorkers, name: string, why: string)
    ensures NoAnswer(name, why) in UiUnanswered(rows, workers)
            <==> exists row :: row in rows && row.val == name && Unlisted(row.node, workers, why)
    ensures forall x :: x in UiUnanswered(rows, workers) ==> x.NoAnswer?
  {
    if rows != [] {
      var n := |rows| - 1;
      assert rows == rows[..n] + [rows[n]];
      UiUnansweredAre(rows[..n], workers, name, why);
    }
  }

  lemma {:induction false} UiBusyAre(rows: seq<NodeRow>, entries: seq<Entry>, b: BusyWorker)
    ensures b in UiBusy(rows, entries)
            <==> exists row :: row in rows && row.val == b.node && ListRuns(row.node, entries, b.worker)
  {
    if rows != [] {
      var n := |rows| - 1;
      assert rows == rows[..n] + [rows[n]];
      UiBusyAre(rows[..n], entries, b);
      UiBusyOnAre(rows[n].node, rows[n].val, entries, b);
    }
  }

  ghost predicate SomeUnlisted(nodes: seq<Node>, workers: UiWorkers, name: string, why: string) {
    exists id :: IsShownStorage(nodes, id, name, true) && Unlisted(id, workers, why)
  }

  ghost predicate SomeListRuns(nodes: seq<Node>, entries: seq<Entry>, b: BusyWorker) {
    exists id :: IsShownStorage(nodes, id, b.node, true) && ListRuns(id, entries, b.worker)
  }

  lemma UnlistedNodes(nodes: seq<Node>, workers: UiWorkers, name: string, why: string)
    ensures NoAnswer(name, why) in UiUnanswered(Sort(StorageRows(nodes, true)), workers)
            <==> SomeUnlisted(nodes, workers, name, why)
  {
    var rows := Sort(StorageRows(nodes, true));
    UiUnansweredAre(rows, workers, name, why);
    forall row: NodeRow ensures row in rows <==> row.id == 0 && IsShownStorage(nodes, row.node, row.val, true) {
      RowsOfStorage(nodes, true, row);
    }
    if SomeUnlisted(nodes, workers, name, why) {
      var id :| IsShownStorage(nodes, id, name, true) && Unlisted(id, workers, why);
      assert Row(id, 0, name) in rows;
    }
  }

  lemma ListedSyncs(nodes: seq<Node>, entries: seq<Entry>, b: BusyWorker)
    ensures b in UiBusy(Sort(StorageRows(nodes, true)), entries) <==> SomeListRuns(nodes, entries, b)
  {
    var rows := Sort(StorageRows(nodes, true));
    UiBusyAre(rows, entries, b);
    forall row: NodeRow ensures row in rows <==> row.id == 0 && IsShownStorage(nodes, row.node, row.val, true) {
      RowsOfStorage(nodes, true, row);
    }
    if SomeListRuns(nodes, entries, b) {
      var id :| IsShownStorage(nodes, id, b.node, true) && ListRuns(id, entries, b.worker);
      assert Row(id, 0, b.node) in rows;
    }
  }

  /** The same for the reasons the button shows. */
  lemma UiReasonsAre(h: Health, workers: UiWorkers, nodes: seq<Node>, x: Reason)
    requires Complete(h)
    ensures !x.NoAnswer? && !x.TablesSyncing? ==> (x in UiReasons(h, workers, nodes) <==> CounterShort(h, x))
    ensures x.NoAnswer? ==> (x in UiReasons(h, workers, nodes) <==> SomeUnlisted(nodes, workers, x.node, x.why))
    ensures x.TablesSyncing? ==>
              (x in UiReasons(h, workers, nodes)
               <==> x.busy != [] && x.busy == UiBusy(Sort(StorageRows(nodes, true)), workers.entries))
    ensures x.TablesSyncing? && x in UiReasons(h, workers, nodes) ==>
              forall b :: b in x.busy <==> SomeListRuns(nodes, workers.entries, b)
  {
    var rows := Sort(StorageRows(nodes, true));
    CountersAre(h, x);
    if x.NoAnswer? {
      UnlistedNodes(nodes, workers, x.node, x.why);
    } else {
      UiUnansweredAre(rows, workers, "", "");
    }
    forall b ensures b in UiBusy(rows, workers.entries) <==> SomeListRuns(nodes, workers.entries, b) {
      ListedSyncs(nodes, workers.entries, b);
    }
  }

  // ---- Which repairs are held back ----

  /** Only the plain string form of the four repairs is judged; any other launch passes both guards. */
  lemma HeldBack(repair: Repair)
    ensures Destructive(repair) <==>
            repair == Named("versions") || repair == Named("blockRefs") || repair == Named("blockRc")
            || repair == Named("multipartUploads")
  {
  }
}
