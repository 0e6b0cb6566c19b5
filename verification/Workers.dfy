/**
 backend/handler_workers.go: Garage's per-node worker lists flattened into one list sorted by
 node ID and then worker ID. Go visits a map in an arbitrary order, so the order is a parameter.
 */
module Workers {
  import opened Options
  import opened StableSort

  /** One field of a decoded JSON object. */
  datatype Field = Absent | Null | Text(text: string) | OtherJson

  /**
   One element of a node's worker list. JSON null decodes into a nil map without an error;
   anything that is neither null nor an object does not decode. The id is the number with its
   fraction dropped, when the field is a number at all; rest stands for the other fields.
   */
  datatype RawWorker =
    | NotObject
    | NullWorker
    | WorkerObject(id: Option<int>, name: Field, state: Field, rest: string)

  type Entry = Row<RawWorker>

  function IdOf(raw: RawWorker): int {
    if raw.WorkerObject? && raw.id.Some? then raw.id.value else 0
  }

  function RowOf(node: string, raw: RawWorker): seq<Entry> {
    if raw.NotObject? then [] else [Row(node, IdOf(raw), raw)]
  }

  /** The decodable workers of one node, in Garage's order. */
  function Rows(node: string, raws: seq<RawWorker>): seq<Entry> {
    if raws == [] then [] else Rows(node, raws[..|raws| - 1]) + RowOf(node, raws[|raws| - 1])
  }

  /** order lists every key once. */
  ghost predicate Visits(order: seq<string>, keys: set<string>) {
    (forall i, j :: 0 <= i < j < |order| ==> order[i] != order[j]) &&
    (forall key :: key in order <==> key in keys)
  }

  function RowsAt(success: map<string, seq<RawWorker>>, node: string): seq<Entry> {
    if node in success then Rows(node, success[node]) else []
  }

  /**
   What the flattened list is, without naming a visiting order: sorted by node and ID, and under
   every node and ID exactly that node's decodable workers with that ID, in Garage's order.
   */
  ghost predicate IsFlattening(success: map<string, seq<RawWorker>>, entries: seq<Entry>) {
    Sorted(entries) &&
    forall node, id :: Group(entries, node, id) == Group(RowsAt(success, node), node, id)
  }

  lemma {:induction false} RowsBelongToNode(node: string, raws: seq<RawWorker>, other: string, id: int)
    ensures forall e :: e in Rows(node, raws) ==> e.node == node && !e.val.NotObject? && e.val in raws
    ensures other != node ==> Group(Rows(node, raws), other, id) == []
  {
    if raws != [] {
      var n := |raws| - 1;
      RowsBelongToNode(node, raws[..n], other, id);
      GroupConcat(Rows(node, raws[..n]), RowOf(node, raws[n]), other, id);
    }
  }

  lemma {:induction false} RowsCoverNode(node: string, raws: seq<RawWorker>, i: nat)
    requires i < |raws| && !raws[i].NotObject?
    ensures Row(node, IdOf(raws[i]), raws[i]) in Rows(node, raws)
  {
    var n := |raws| - 1;
    if i < n {
      RowsCoverNode(node, raws[..n], i);
    }
  }

  /** all holds the workers of the nodes visited so far and nothing else. */
  ghost predicate Gathered(all: seq<Entry>, success: map<string, seq<RawWorker>>, visited: seq<string>) {
    forall node, id :: Group(all, node, id) == if node in visited then Group(RowsAt(success, node), node, id) else []
  }

  lemma GatherOne(all: seq<Entry>, success: map<string, seq<RawWorker>>, visited: seq<string>, nodeID: string)
    requires Gathered(all, success, visited) && nodeID in success && nodeID !in visited
    ensures Gathered(all + Rows(nodeID, success[nodeID]), success, visited + [nodeID])
  {
    var rows := Rows(nodeID, success[nodeID]);
    forall node, id
      ensures Group(all + rows, node, id)
           == if node in visited + [nodeID] then Group(RowsAt(success, node), node, id) else []
    {
      GroupConcat(all, rows, node, id);
      RowsBelongToNode(nodeID, success[nodeID], node, id);
    }
  }

  lemma GatherAll(all: seq<Entry>, success: map<string, seq<RawWorker>>, order: seq<string>)
    requires Gathered(all, success, order) && Visits(order, success.Keys)
    ensures IsFlattening(success, Sort(all))
  {
    var entries := Sort(all);
    forall node, id ensures Group(entries, node, id) == Group(RowsAt(success, node), node, id) {
      SortFacts(all, node, id);
    }
    SortFacts(all, "", 0);
  }

  /** The inner loop: one node's workers behind those gathered so far. */
  method GatherNode(all: seq<Entry>, nodeID: string, raws: seq<RawWorker>) returns (out: seq<Entry>)
    ensures out == all + Rows(nodeID, raws)
  {
    out := all;
    for j := 0 to |raws|
      invariant out == all + Rows(nodeID, raws[..j])
    {
      assert raws[..j + 1][..j] == raws[..j];
      if !raws[j].NotObject? {
        out := out + [Row(nodeID, IdOf(raws[j]), raws[j])];
      }
    }
    assert raws[..|raws|] == raws;
  }

  method CopyErrors(errors: map<string, string>, order: seq<string>) returns (out: map<string, string>)
    requires Visits(order, errors.Keys)
    ensures out == errors
  {
    out := map[];
    for i := 0 to |order|
      invariant forall key :: key in out <==> key in order[..i]
      invariant forall key :: key in out ==> key in errors && out[key] == errors[key]
    {
      assert order[i] in order;
      out := out[order[i] := errors[order[i]]];
    }
    assert order[..|order|] == order;
  }

  method FlattenWorkers(success: map<string, seq<RawWorker>>, errors: map<string, string>,
                        order: seq<string>, errorOrder: seq<string>)
    returns (entries: seq<Entry>, outErrors: map<string, string>)
    requires Visits(order, success.Keys) && Visits(errorOrder, errors.Keys)
    ensures IsFlattening(success, entries)
    ensures outErrors == errors
  {
    var all: seq<Entry> := [];
    for i := 0 to |order|
      invariant Gathered(all, success, order[..i])
    {
      assert order[i] in order;
      GatherOne(all, success, order[..i], order[i]);
      all := GatherNode(all, order[i], success[order[i]]);
      assert order[..i + 1] == order[..i] + [order[i]];
    }
    assert order[..|order|] == order;
    GatherAll(all, success, order);
    entries := Sort(all);
    outErrors := CopyErrors(errors, errorOrder);
  }

  /** Whatever order Go visits the nodes in, the list is the same. */
  lemma FlatteningIsUnique(success: map<string, seq<RawWorker>>, a: seq<Entry>, b: seq<Entry>)
    requires IsFlattening(success, a) && IsFlattening(success, b)
    ensures a == b
  {
    SortedUnique(a, b);
  }

  /** The entries of a node are its decodable workers: nothing is lost, invented or moved. */
  lemma EntriesOfNode(success: map<string, seq<RawWorker>>, entries: seq<Entry>, node: string, raw: RawWorker)
    requires IsFlattening(success, entries)
    ensures Row(node, IdOf(raw), raw) in entries
            <==> node in success && raw in success[node] && !raw.NotObject?
    ensures forall e :: e in entries && e.node == node ==>
        node in success && e.val in success[node] &&
        e.id == match e.val case WorkerObject(Some(id), _, _, _) => id case _ => 0
  {
    GroupMembers(entries, node, IdOf(raw), raw);
    GroupMembers(RowsAt(success, node), node, IdOf(raw), raw);
    if node in success {
      RowsBelongToNode(node, success[node], node, 0);
      if raw in success[node] && !raw.NotObject? {
        var i :| 0 <= i < |success[node]| && success[node][i] == raw;
        RowsCoverNode(node, success[node], i);
      }
    }
    forall e | e in entries && e.node == node
      ensures node in success && e.val in success[node] && e.id == IdOf(e.val)
    {
      GroupMembers(entries, node, e.id, e.val);
      GroupMembers(RowsAt(success, node), node, e.id, e.val);
      assert e in RowsAt(success, node);
      RowsKeepIds(node, success[node], e);
    }
  }

  lemma {:induction false} RowsKeepIds(node: string, raws: seq<RawWorker>, e: Entry)
    requires e in Rows(node, raws)
    ensures e.id == IdOf(e.val) && e.val in raws
  {
    var n := |raws| - 1;
    if e in Rows(node, raws[..n]) {
      RowsKeepIds(node, raws[..n], e);
    }
  }
}
