/**
 frontend/src/routes/index.tsx: increases of a node's cumulative corruption counter since the page
 was loaded, kept by trackCorruptions in a map of baselines.
 */
module Corruptions {
  import opened Options

  datatype Baseline = Baseline(first: int, noticedAt: Option<int>)
  datatype Increase = Increase(delta: int, noticedAt: int)

  /** One poll's answer about one node: its counter, when it was known, and the time of the poll. */
  datatype Seen = Seen(value: Option<int>, at: int)

  function NextBaseline(b: Option<Baseline>, s: Seen): Option<Baseline> {
    if s.value.None? then b
    else if b.None? || s.value.value < b.value.first then Some(Baseline(s.value.value, None))
    else if s.value.value > b.value.first && b.value.noticedAt.None? then Some(b.value.(noticedAt := Some(s.at)))
    else b
  }

  function Reported(b: Option<Baseline>, s: Seen): Option<Increase> {
    if s.value.Some? && b.Some? && s.value.value > b.value.first
    then Some(Increase(s.value.value - b.value.first,
                       if b.value.noticedAt.Some? then b.value.noticedAt.value else s.at))
    else None
  }

  // ---- What baseline and increase mean for all polls so far ----

  predicate Above(s: Seen, floor: int) {
    s.value.Some? && s.value.value > floor
  }

  /** low is the minimum of the known values and k the first poll that showed it. */
  ghost predicate LowestAt(h: seq<Seen>, low: int, k: int) {
    0 <= k < |h| && h[k].value == Some(low) &&
    (forall i :: 0 <= i < |h| && h[i].value.Some? ==> low <= h[i].value.value) &&
    (forall i :: 0 <= i < k ==> h[i].value != Some(low))
  }

  /** j is the earliest poll behind k with a value above low. */
  ghost predicate EarliestAbove(h: seq<Seen>, low: int, k: int, j: int) {
    0 <= k < j < |h| && Above(h[j], low) && forall i :: k < i < j ==> !Above(h[i], low)
  }

  ghost predicate BaselineAt(b: Baseline, h: seq<Seen>, k: int) {
    LowestAt(h, b.first, k) &&
    (b.noticedAt.None? ==> forall i :: k < i < |h| ==> !Above(h[i], b.first)) &&
    (b.noticedAt.Some? ==> exists j :: EarliestAbove(h, b.first, k, j) && h[j].at == b.noticedAt.value)
  }

  /** The stored baseline describes the whole history: nothing known, or the minimum and the first rise above it. */
  ghost predicate Describes(b: Option<Baseline>, h: seq<Seen>) {
    if b.None? then forall i :: 0 <= i < |h| ==> h[i].value.None?
    else exists k :: BaselineAt(b.value, h, k)
  }

  lemma EarliestStays(h: seq<Seen>, s: Seen, low: int, k: int, j: int)
    requires EarliestAbove(h, low, k, j)
    ensures EarliestAbove(h + [s], low, k, j) && (h + [s])[j] == h[j]
  {
  }

  lemma BaselineStep(b: Baseline, h: seq<Seen>, k: int, s: Seen)
    requires BaselineAt(b, h, k) && (s.value.Some? ==> s.value.value >= b.first)
    ensures BaselineAt(NextBaseline(Some(b), s).value, h + [s], k)
  {
    var g := h + [s];
    assert LowestAt(g, b.first, k);
    if b.noticedAt.Some? {
      var j :| EarliestAbove(h, b.first, k, j) && h[j].at == b.noticedAt.value;
      EarliestStays(h, s, b.first, k, j);
    } else if Above(s, b.first) {
      assert EarliestAbove(g, b.first, k, |h|) && g[|h|] == s;
    }
  }

  /** One more poll keeps the description. */
  lemma StepDescribes(b: Option<Baseline>, h: seq<Seen>, s: Seen)
    requires Describes(b, h)
    ensures Describes(NextBaseline(b, s), h + [s])
  {
    if s.value.Some? && (b.None? || s.value.value < b.value.first) {
      if b.Some? {
        var k :| BaselineAt(b.value, h, k);
        assert LowestAt(h, b.value.first, k);
      }
      assert LowestAt(h + [s], s.value.value, |h|);
      assert BaselineAt(Baseline(s.value.value, None), h + [s], |h|);
    } else if b.Some? {
      var k :| BaselineAt(b.value, h, k);
      BaselineStep(b.value, h, k, s);
    }
  }

  lemma LowestUnique(h: seq<Seen>, low: int, k: int, first: int, m: int)
    requires LowestAt(h, low, k) && LowestAt(h, first, m)
    ensures low == first && k == m
  {
  }

  /**
   The increase shown for the latest poll: present exactly when its value is above the minimum of
   all known values, that one included; the delta is the distance, and the time is that of the
   earliest poll above the minimum since the minimum was first seen.
   */
  lemma ReportMeaning(b: Option<Baseline>, h: seq<Seen>, s: Seen, low: int, k: int)
    requires Describes(b, h) && LowestAt(h + [s], low, k)
    ensures Reported(b, s).Some? <==> Above(s, low)
    ensures Above(s, low) ==> Reported(b, s).value.delta == s.value.value - low
    ensures Above(s, low) ==>
              exists j :: EarliestAbove(h + [s], low, k, j) && (h + [s])[j].at == Reported(b, s).value.noticedAt
  {
    var g := h + [s];
    StepDescribes(b, h, s);
    var next := NextBaseline(b, s);
    assert g[k].value == Some(low);
    assert next.Some?;
    var m :| BaselineAt(next.value, g, m);
    LowestUnique(g, low, k, next.value.first, m);
    if Above(s, low) {
      assert g[|h|] == s;
      var j :| EarliestAbove(g, low, k, j) && g[j].at == next.value.noticedAt.value;
    }
  }

  // ---- The map of baselines ----

  /** One poll: the nodes in the order of the answer's object, each once, and the time. */
  datatype Entry = Entry(id: string, value: Option<int>)
  datatype Poll = Poll(nodes: seq<Entry>, now: int)

  ghost predicate WellFormed(p: Poll) {
    forall i, j :: 0 <= i < j < |p.nodes| ==> p.nodes[i].id != p.nodes[j].id
  }

  type Baselines = map<string, Baseline>
  type History = map<string, seq<Seen>>

  ghost function HistoryAt(h: History, id: string): seq<Seen> {
    if id in h then h[id] else []
  }

  function BaselineOf(b: Baselines, id: string): Option<Baseline> {
    if id in b then Some(b[id]) else None
  }

  function IncreaseOf(r: map<string, Increase>, id: string): Option<Increase> {
    if id in r then Some(r[id]) else None
  }

  /** The node's entry was taken in: history, baseline and reported increase. */
  ghost predicate TakenIn(e: Entry, now: int, b0: Baselines, h0: History, b: Baselines, h: History,
                          r: map<string, Increase>) {
    var s := Seen(e.value, now);
    HistoryAt(h, e.id) == HistoryAt(h0, e.id) + [s] &&
    BaselineOf(b, e.id) == NextBaseline(BaselineOf(b0, e.id), s) &&
    IncreaseOf(r, e.id) == Reported(BaselineOf(b0, e.id), s)
  }

  ghost predicate LeftAlone(id: string, b0: Baselines, h0: History, b: Baselines, h: History,
                            r: map<string, Increase>) {
    HistoryAt(h, id) == HistoryAt(h0, id) && BaselineOf(b, id) == BaselineOf(b0, id) && id !in r
  }

  /** The first n entries were taken in and nothing else happened. */
  ghost predicate TakenInUpTo(p: Poll, n: int, b0: Baselines, h0: History, b: Baselines, h: History,
                              r: map<string, Increase>) {
    (forall i :: 0 <= i < n && i < |p.nodes| ==> TakenIn(p.nodes[i], p.now, b0, h0, b, h, r)) &&
    (forall id :: (forall i :: 0 <= i < n && i < |p.nodes| ==> p.nodes[i].id != id) ==> LeftAlone(id, b0, h0, b, h, r))
  }

  class Tracker {
    var baselines: Baselines
    ghost var history: History

    ghost predicate Valid()
      reads this
    {
      forall id :: Describes(BaselineOf(baselines, id), HistoryAt(history, id))
    }

    constructor ()
      ensures Valid() && baselines == map[] && history == map[]
    {
      baselines, history := map[], map[];
    }

    /** One node of a poll: its baseline moves on and its increase, if any, is recorded. */
    method Observe(e: Entry, now: int, before: map<string, Increase>) returns (increases: map<string, Increase>)
      requires Valid() && e.id !in before
      modifies this
      ensures Valid()
      ensures TakenIn(e, now, old(baselines), old(history), baselines, history, increases)
      ensures forall id :: id != e.id ==> HistoryAt(history, id) == old(HistoryAt(history, id))
                                          && BaselineOf(baselines, id) == old(BaselineOf(baselines, id))
                                          && IncreaseOf(increases, id) == IncreaseOf(before, id)
    {
      ghost var s := Seen(e.value, now);
      StepDescribes(BaselineOf(baselines, e.id), HistoryAt(history, e.id), s);
      history := history[e.id := HistoryAt(history, e.id) + [s]];
      increases := before;
      if e.value.Some? {
        var v := e.value.value;
        if e.id !in baselines || v < baselines[e.id].first {
          baselines := baselines[e.id := Baseline(v, None)];
        } else if v > baselines[e.id].first {
          if baselines[e.id].noticedAt.None? {
            baselines := baselines[e.id := baselines[e.id].(noticedAt := Some(now))];
          }
          increases := increases[e.id := Increase(v - baselines[e.id].first, baselines[e.id].noticedAt.value)];
        }
      }
      assert BaselineOf(baselines, e.id) == NextBaseline(old(BaselineOf(baselines, e.id)), s);
      assert forall id :: id != e.id ==> BaselineOf(baselines, id) == old(BaselineOf(baselines, id));
    }

    /**
     One poll. The increases are, node by node, those that the node's own history says; nodes the
     poll does not mention keep their baselines.
     */
    method TrackCorruptions(p: Poll) returns (increases: map<string, Increase>)
      requires Valid() && WellFormed(p)
      modifies this
      ensures Valid()
      ensures TakenInUpTo(p, |p.nodes|, old(baselines), old(history), baselines, history, increases)
    {
      increases := map[];
      ghost var b0, h0 := baselines, history;
      for n := 0 to |p.nodes|
        invariant Valid()
        invariant TakenInUpTo(p, n, b0, h0, baselines, history, increases)
      {
        ghost var b, h, r := baselines, history, increases;
        assert LeftAlone(p.nodes[n].id, b0, h0, b, h, r);
        increases := Observe(p.nodes[n], p.now, increases);
        TakeOneMore(p, n, b0, h0, b, h, r, baselines, history, increases);
      }
    }
  }

  lemma TakeOneMore(p: Poll, n: nat, b0: Baselines, h0: History,
                    b: Baselines, h: History, r: map<string, Increase>,
                    b1: Baselines, h1: History, r1: map<string, Increase>)
    requires WellFormed(p) && n < |p.nodes| && TakenInUpTo(p, n, b0, h0, b, h, r)
    requires TakenIn(p.nodes[n], p.now, b, h, b1, h1, r1)
    requires forall id :: id != p.nodes[n].id ==> HistoryAt(h1, id) == HistoryAt(h, id)
                                                  && BaselineOf(b1, id) == BaselineOf(b, id)
                                                  && IncreaseOf(r1, id) == IncreaseOf(r, id)
    ensures TakenInUpTo(p, n + 1, b0, h0, b1, h1, r1)
  {
    assert LeftAlone(p.nodes[n].id, b0, h0, b, h, r);
    forall i | 0 <= i < n + 1 ensures TakenIn(p.nodes[i], p.now, b0, h0, b1, h1, r1) {
      if i < n {
        assert TakenIn(p.nodes[i], p.now, b0, h0, b, h, r);
      }
    }
    forall id | (forall i :: 0 <= i < n + 1 && i < |p.nodes| ==> p.nodes[i].id != id)
      ensures LeftAlone(id, b0, h0, b1, h1, r1)
    {
      assert LeftAlone(id, b0, h0, b, h, r);
      assert IncreaseOf(r1, id) == IncreaseOf(r, id);
    }
  }
}
