/**
 backend/list_enrich.go: the shared cache between requests that read from Garage, mutations, and the
 invalidation after them. A fetch takes time: what it stores may be older than an invalidation that
 happened meanwhile.
 */
module CacheFreshness {
  import opened Options
  import opened TtlCache

  /**
   A fetch under way: its key and how many mutations Garage had seen when it began. The answer is
   read somewhere between then and the end of the fetch.
   */
  datatype Fetch = Fetch(key: string, since: nat)

  /**
   mutations counts the mutations Garage has applied; a cached value is identified with the number
   of mutations it reflects. clock is the time of the latest event.
   */
  datatype World = World(mutations: nat, entries: map<string, Entry<nat>>, fetches: map<nat, Fetch>, clock: int)

  /**
   What can happen. A fetch ends with the value after some number of mutations, or fails. Mutate is
   Garage applying a change; Invalidate is the console clearing its caches.
   */
  datatype Event =
    | Begin(id: nat, key: string, at: int)
    | End(id: nat, reflects: nat, at: int)
    | Fail(id: nat, at: int)
    | Mutate(at: int)
    | Invalidate(at: int)
    | Purge(at: int)

  predicate Possible(w: World, e: Event) {
    w.clock <= e.at &&
    match e
    case Begin(id, _, _) => id !in w.fetches
    case End(id, reflects, _) => id in w.fetches && w.fetches[id].since <= reflects <= w.mutations
    case Fail(id, _) => id in w.fetches
    case _ => true
  }

  function Step(w: World, e: Event, life: int): World
    requires Possible(w, e)
  {
    var now := w.(clock := e.at);
    match e
    case Begin(id, key, _) => now.(fetches := w.fetches[id := Fetch(key, w.mutations)])
    case End(id, reflects, at) =>
      now.(fetches := w.fetches - {id}, entries := w.entries[w.fetches[id].key := Entry(reflects, at + life)])
    case Fail(id, _) => now.(fetches := w.fetches - {id})
    case Mutate(_) => now.(mutations := w.mutations + 1)
    case Invalidate(_) => now.(entries := map[])
    case Purge(at) => now.(entries := Purged(w.entries, at))
  }

  ghost predicate IsRun(w: World, run: seq<Event>, life: int)
    decreases |run|
  {
    run == [] || (Possible(w, run[0]) && IsRun(Step(w, run[0], life), run[1..], life))
  }

  function After(w: World, run: seq<Event>, life: int): World
    requires IsRun(w, run, life)
    decreases |run|
  {
    if run == [] then w else After(Step(w, run[0], life), run[1..], life)
  }

  /** A lookup of the key now finds nothing, or a value that reflects the first n mutations. */
  predicate Fresh(w: World, key: string, now: int, n: nat) {
    Lookup<nat>(w.entries, key, now).Some? ==> Lookup<nat>(w.entries, key, now).value >= n
  }

  /** Whatever happens from here on, no lookup of the key gives a value older than the n-th mutation. */
  ghost predicate StaysFresh(w: World, key: string, n: nat, life: int) {
    forall run: seq<Event>, now: int ::
      IsRun(w, run, life) && now >= After(w, run, life).clock ==> Fresh(After(w, run, life), key, now, n)
  }

  /** No fetch of the key that is under way began before the n-th mutation. */
  predicate NoOlderFetch(w: World, key: string, n: nat) {
    forall id :: id in w.fetches && w.fetches[id].key == key ==> w.fetches[id].since >= n
  }

  /** What keeps lookups of the key fresh. */
  ghost predicate Safe(w: World, key: string, n: nat) {
    w.mutations >= n && (key in w.entries ==> w.entries[key].val >= n) && NoOlderFetch(w, key, n)
  }

  lemma {:induction false} RunSafe(w: World, run: seq<Event>, key: string, n: nat, life: int)
    requires Safe(w, key, n) && IsRun(w, run, life)
    ensures Safe(After(w, run, life), key, n)
    decreases |run|
  {
    if run != [] {
      RunSafe(Step(w, run[0], life), run[1..], key, n, life);
    }
  }

  /** With a negative lifetime every entry is expired from the start. */
  ghost predicate Dead(w: World) {
    forall key :: key in w.entries ==> w.entries[key].expires < w.clock
  }

  lemma {:induction false} RunDead(w: World, run: seq<Event>, life: int)
    requires life < 0 && Dead(w) && IsRun(w, run, life)
    ensures Dead(After(w, run, life))
    decreases |run|
  {
    if run != [] {
      assert Dead(Step(w, run[0], life));
      RunDead(Step(w, run[0], life), run[1..], life);
    }
  }

  /** An older fetch can end at once with the value it may have read when it began. */
  lemma OlderFetchGoesStale(w: World, id: nat, n: nat, life: int)
    requires id in w.fetches && w.fetches[id].since < n && w.fetches[id].since <= w.mutations && life >= 0
    ensures !StaysFresh(w, w.fetches[id].key, n, life)
  {
    var f := w.fetches[id];
    var e := End(id, f.since, w.clock);
    var run := [e];
    var next := Step(w, e, life);
    assert run[1..] == [];
    assert IsRun(next, run[1..], life);
    assert IsRun(w, run, life) && After(w, run, life) == next;
    assert Lookup<nat>(next.entries, f.key, w.clock) == Some(f.since);
    assert !Fresh(After(w, run, life), f.key, w.clock, n);
  }

  /**
   What an invalidation achieves. Whatever follows it, lookups of a key give only values that reflect
   all mutations up to the invalidation if and only if every fetch of that key that was under way had
   begun after the last of them. (With a negative lifetime nothing is ever found.)
   */
  lemma FreshAfterInvalidate(w: World, key: string, at: int, life: int)
    requires at >= w.clock
    requires forall id :: id in w.fetches ==> w.fetches[id].since <= w.mutations
    ensures StaysFresh(Step(w, Invalidate(at), life), key, w.mutations, life)
            <==> life < 0 || NoOlderFetch(w, key, w.mutations)
  {
    var v := Step(w, Invalidate(at), life);
    if life < 0 {
      forall run: seq<Event>, now: int | IsRun(v, run, life) && now >= After(v, run, life).clock
        ensures Fresh(After(v, run, life), key, now, w.mutations)
      {
        RunDead(v, run, life);
      }
    } else if NoOlderFetch(w, key, w.mutations) {
      forall run: seq<Event>, now: int | IsRun(v, run, life) && now >= After(v, run, life).clock
        ensures Fresh(After(v, run, life), key, now, w.mutations)
      {
        RunSafe(v, run, key, w.mutations, life);
      }
    } else {
      var id :| id in w.fetches && w.fetches[id].key == key && w.fetches[id].since < w.mutations;
      OlderFetchGoesStale(v, id, w.mutations, life);
    }
  }

  const START := World(0, map[], map[], 0)

  /** In every world that is reached, no fetch began in the future. */
  lemma {:induction false} FetchesAreInThePast(w: World, run: seq<Event>, life: int)
    requires IsRun(w, run, life) && forall id :: id in w.fetches ==> w.fetches[id].since <= w.mutations
    ensures forall id :: id in After(w, run, life).fetches ==>
              After(w, run, life).fetches[id].since <= After(w, run, life).mutations
    decreases |run|
  {
    if run != [] {
      FetchesAreInThePast(Step(w, run[0], life), run[1..], life);
    }
  }

  ghost predicate AllStayFresh(w: World, n: nat, life: int) {
    forall key: string :: StaysFresh(w, key, n, life)
  }

  /**
   The same for a mutation that is invalidated at once, after any run from the start: all lookups of
   all keys reflect the mutation for ever if and only if no fetch was under way when it was made.
   */
  lemma FreshAfterMutation(run: seq<Event>, at: int, life: int)
    requires IsRun(START, run, life) && at >= After(START, run, life).clock
    ensures var w := After(START, run, life);
            var v := Step(Step(w, Mutate(at), life), Invalidate(at), life);
            AllStayFresh(v, v.mutations, life) <==> life < 0 || w.fetches == map[]
  {
    var w := After(START, run, life);
    var m := Step(w, Mutate(at), life);
    var v := Step(m, Invalidate(at), life);
    var n := v.mutations;
    FetchesAreInThePast(START, run, life);
    forall key: string ensures StaysFresh(v, key, n, life) <==> life < 0 || NoOlderFetch(m, key, n) {
      FreshAfterInvalidate(m, key, at, life);
    }
    if life >= 0 && w.fetches != map[] {
      var id :| id in w.fetches;
      assert !NoOlderFetch(m, w.fetches[id].key, n);
      assert !StaysFresh(v, w.fetches[id].key, n, life);
    }
  }

  /** A run that shows it: a list request reads a bucket, the bucket changes, and the old value is cached. */
  lemma StaleAfterInvalidate(key: string, life: int)
    requires life >= 0
    ensures var run := [Begin(1, key, 0), Mutate(1), Invalidate(1), End(1, 0, 2)];
            IsRun(START, run, life) && After(START, run, life).mutations == 1 &&
            Lookup<nat>(After(START, run, life).entries, key, 2) == Some(0)
  {
    var run := [Begin(1, key, 0), Mutate(1), Invalidate(1), End(1, 0, 2)];
    var a := Step(START, run[0], life);
    var b := Step(a, run[1], life);
    var c := Step(b, run[2], life);
    var d := Step(c, run[3], life);
    assert run[1..][1..][1..][1..] == [];
    assert run[1..][0] == run[1] && run[1..][1..][0] == run[2] && run[1..][1..][1..][0] == run[3];
    assert IsRun(c, run[1..][1..][1..], life) && After(c, run[1..][1..][1..], life) == d;
    assert IsRun(b, run[1..][1..], life) && After(b, run[1..][1..], life) == d;
    assert IsRun(a, run[1..], life) && After(a, run[1..], life) == d;
  }
}
