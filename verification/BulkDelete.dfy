/**
 Bulk deletion (backend/handler_objects.go): deleting a list of keys in chunks, deleting
 everything under a prefix by listing again after every deletion, and the summary that says
 beforehand how much that is.
 */
module BulkDelete {
  import opened KeyOrder
  import opened ObjectStore

  /** deleteObjectsChunk and maxPrefixDeleteObjects. */
  const CHUNK := 1000
  const MAX_PREFIX_DELETE := 10000

  function Min(a: int, b: int): int {
    if a <= b then a else b
  }

  /** A line of the error list: a key S3 did not delete, or the note that the listing stopped. */
  datatype Problem = KeyError(key: string) | ListingStopped

  datatype Answer =
    | BadRequest
    | S3Error
    | Ok(deleted: nat, errors: seq<Problem>, truncated: bool)

  datatype SummaryAnswer = SummaryError | Summary(count: nat, bytes: int, truncated: bool)

  /** The keys named by the key errors of a list. */
  function ErrorKeys(errors: seq<Problem>): seq<string> {
    if errors == [] then []
    else if errors[0].KeyError? then [errors[0].key] + ErrorKeys(errors[1..])
    else ErrorKeys(errors[1..])
  }

  function KeyErrors(keys: seq<string>): (r: seq<Problem>)
    ensures |r| == |keys|
  {
    seq(|keys|, i requires 0 <= i < |keys| => KeyError(keys[i]))
  }

  function Keys(s: seq<Object>): (r: seq<string>)
    ensures |r| == |s|
  {
    seq(|s|, i requires 0 <= i < |s| => s[i].key)
  }

  function KeySet(keys: seq<string>): set<string> {
    set k | k in keys
  }

  /** The first attempted keys were sent, and every one of them is among the done ones or the errors. */
  ghost predicate Sent(keys: seq<string>, attempted: nat, done: seq<string>, errs: seq<string>) {
    && attempted <= |keys| && |done| + |errs| == attempted
    && multiset(done) + multiset(errs) == multiset(keys[..attempted])
  }

  lemma SentMore(keys: seq<string>, start: nat, end: nat, done: seq<string>, errs: seq<string>,
                 deleted: seq<string>, refused: seq<string>)
    requires Sent(keys, start, done, errs) && start <= end <= |keys|
    requires Sent(keys[start..end], end - start, deleted, refused)
    ensures Sent(keys, end, done + deleted, errs + refused)
  {
    var chunk := keys[start..end];
    assert chunk[..end - start] == chunk;
    assert keys[..end] == keys[..start] + chunk;
  }

  /** Done keys were removed, and those of them under observation have been absent. */
  ghost predicate DoneGone(done: seq<string>, removed: set<string>, watched: set<string>, gone: set<string>) {
    forall k :: k in done ==> k in removed && (k in watched ==> k in gone)
  }

  lemma DoneGoneMore(done: seq<string>, removed: set<string>, watched: set<string>, gone: set<string>,
                     deleted: seq<string>, dropped: set<string>, later: set<string>)
    requires DoneGone(done, removed, watched, gone) && gone <= later
    requires DoneGone(deleted, dropped, watched, later)
    ensures DoneGone(done + deleted, removed + dropped, watched, later)
  {
  }

  lemma KeySetMore(keys: seq<string>, start: nat, end: nat)
    requires start <= end <= |keys|
    ensures KeySet(keys[..end]) == KeySet(keys[..start]) + KeySet(keys[start..end])
    ensures KeySet(keys[start..end]) <= KeySet(keys)
  {
    assert keys[..end] == keys[..start] + keys[start..end];
  }

  /**
   deleteKeys. attempted says how many of the keys were sent; the done keys are those S3 says
   it deleted.
   */
  method DeleteKeys(bucket: Bucket, keys: seq<string>)
    returns (deleted: nat, errs: seq<string>, ok: bool,
             ghost attempted: nat, ghost done: seq<string>, ghost removed: set<string>)
    requires bucket.Valid()
    modifies bucket`objects, bucket`clock, bucket`gone, bucket`requested
    ensures bucket.Valid() && old(bucket.gone) <= bucket.gone
    ensures attempted <= |keys| && (ok || |keys| <= CHUNK ==> attempted == |keys|) && (!ok ==> errs != [])
    ensures bucket.requested == old(bucket.requested) + KeySet(keys[..attempted])
    ensures deleted == |done| && deleted + |errs| == attempted
    ensures multiset(done) + multiset(errs) == multiset(keys[..attempted])
    ensures DoneGone(done, removed, bucket.watched, bucket.gone)
    ensures bucket.Reliable() ==> ok
    ensures removed <= KeySet(keys) && (!bucket.shared ==> bucket.objects == Without(old(bucket.objects), removed))
  {
    deleted, errs, ok, attempted, done, removed := 0, [], true, 0, [], {};
    WithoutNone(bucket.objects);
    var start := 0;
    while start < |keys|
      invariant attempted == Min(start, |keys|) && deleted == |done|
      invariant bucket.Valid() && old(bucket.gone) <= bucket.gone
      invariant bucket.requested == old(bucket.requested) + KeySet(keys[..attempted])
      invariant Sent(keys, attempted, done, errs)
      invariant DoneGone(done, removed, bucket.watched, bucket.gone)
      invariant removed <= KeySet(keys)
      invariant !bucket.shared ==> bucket.objects == Without(old(bucket.objects), removed)
      decreases |keys| - start
    {
      var end := Min(start + CHUNK, |keys|);
      ghost var before := bucket.gone;
      var out;
      ghost var dropped;
      out, dropped := DeleteChunk(bucket, keys[start..end]);
      KeySetMore(keys, start, end);
      WithoutTwice(old(bucket.objects), removed, dropped);
      SentMore(keys, start, end, done, errs, out.deleted, out.errors);
      DoneGoneMore(done, removed, bucket.watched, before, out.deleted, dropped, bucket.gone);
      removed, attempted := removed + dropped, end;
      deleted := deleted + |out.deleted|;
      errs := errs + out.errors;
      done := done + out.deleted;
      if out.failed {
        ok := false;
        break;
      }
      start := start + CHUNK;
    }
  }

  /** How one request of deleteKeys ended; when it failed, all of its keys are errors. */
  datatype ChunkResult = ChunkResult(deleted: seq<string>, errors: seq<string>, failed: bool)

  method DeleteChunk(bucket: Bucket, chunk: seq<string>) returns (r: ChunkResult, ghost dropped: set<string>)
    requires bucket.Valid()
    modifies bucket`objects, bucket`clock, bucket`gone, bucket`requested
    ensures bucket.Valid() && old(bucket.gone) <= bucket.gone
    ensures bucket.requested == old(bucket.requested) + KeySet(chunk)
    ensures Sent(chunk, |chunk|, r.deleted, r.errors) && (r.failed ==> r.errors == chunk)
    ensures DoneGone(r.deleted, dropped, bucket.watched, bucket.gone)
    ensures bucket.Reliable() ==> !r.failed
    ensures dropped <= KeySet(chunk) && (!bucket.shared ==> bucket.objects == Without(old(bucket.objects), dropped))
  {
    var out;
    out, dropped := bucket.Delete(chunk);
    assert chunk[..|chunk|] == chunk;
    r := if out.Refused? then ChunkResult([], chunk, true) else ChunkResult(out.deleted, out.errors, false);
  }

  /** The keys of a page, as many as there is room for; capped says that some were left out. */
  method TakeKeys(contents: seq<Object>, room: nat) returns (keys: seq<string>, capped: bool)
    ensures keys == Keys(contents[..Min(|contents|, room)])
    ensures capped == (|contents| > room)
  {
    keys, capped := [], false;
    var i := 0;
    while i < |contents|
      invariant i <= |contents| && i <= room && !capped
      invariant keys == Keys(contents[..i])
    {
      if |keys| >= room {
        capped := true;
        break;
      }
      assert contents[..i + 1] == contents[..i] + [contents[i]];
      keys := keys + [contents[i].key];
      i := i + 1;
    }
    assert contents[..|contents|] == contents;
  }

  /** A key that a listing shows no later than a given listed object is among those up to it. */
  lemma PageCovers(s: seq<Object>, prefix: string, after: string, m: nat, k: string)
    requires Sorted(s) && HasKey(s, k) && Matches(Object(k, 0), prefix, after)
    requires m <= |Under(s, prefix, after)|
    requires m == |Under(s, prefix, after)| || (m > 0 && !Less(Under(s, prefix, after)[m - 1].key, k))
    ensures k in Keys(Under(s, prefix, after)[..m])
  {
    UnderFacts(s, prefix, after);
    var all := Under(s, prefix, after);
    var j :| 0 <= j < |s| && s[j].key == k;
    assert s[j] in s && Matches(s[j], prefix, after);
    var i :| 0 <= i < |all| && all[i] == s[j];
    assert i < m;
    assert Keys(all[..m])[i] == k;
  }

  /** What was not in the bucket when a page was listed is gone; what the page showed was then deleted. */
  lemma PageSwept(watched: set<string>, gone: set<string>, s: seq<Object>, prefix: string, after: string, m: nat,
                  k: string)
    requires Sorted(s) && m <= |Under(s, prefix, after)|
    requires m == |Under(s, prefix, after)| || (m > 0 && !Less(Under(s, prefix, after)[m - 1].key, k))
    requires k in watched && HasPrefix(k, prefix)
    requires after != "" && !Less(after, k) ==> k in gone
    requires HasKey(s, k) || k in gone
    requires forall x :: x in Keys(Under(s, prefix, after)[..m]) && x in watched ==> x in gone
    ensures k in gone
  {
    if HasKey(s, k) && (after == "" || Less(after, k)) {
      PageCovers(s, prefix, after, m, k);
    }
  }

  lemma AllDone(done: seq<string>, errs: seq<string>, keys: seq<string>)
    requires multiset(done) + multiset(errs) == multiset(keys) && errs == []
    ensures forall k :: k in keys <==> k in done
  {
    assert multiset(done) == multiset(keys);
    forall k ensures k in keys <==> k in done {
      assert k in keys <==> k in multiset(keys);
      assert k in done <==> k in multiset(done);
    }
  }

  /** How one turn of the prefix loop ends. */
  datatype Turn =
    | ListFailed
    | NothingListed(capped: bool)
    | Deleted(keys: seq<string>, deleted: nat, errs: seq<string>, ok: bool, capped: bool, more: bool)

  /** What one turn reports, against the bucket seen by its listing. */
  ghost predicate TurnFacts(seen: seq<Object>, prefix: string, startAfter: string, room: nat, t: Turn) {
    var all := Under(seen, prefix, startAfter);
    && Sorted(seen)
    && (t.NothingListed? ==> (room > 0 ==> all == []) && t.capped == (|all| > 0))
    && (t.Deleted? ==>
          && 0 < |t.keys| <= room && |t.keys| <= |all|
          && t.keys == Keys(all[..|t.keys|])
          && (t.capped ==> |t.keys| == room)
          && (t.capped || t.more) == (|t.keys| < |all|)
          && t.deleted + |t.errs| == |t.keys| && (!t.ok ==> t.errs != []))
  }

  /**
   One turn: list the next page, and delete what there is room for. seen is the bucket at the
   moment of the listing.
   */
  method DeletePage(bucket: Bucket, prefix: string, startAfter: string, room: nat)
    returns (t: Turn, ghost seen: seq<Object>, ghost removed: set<string>)
    requires bucket.Valid()
    modifies bucket`objects, bucket`clock, bucket`gone, bucket`requested
    ensures bucket.Valid() && old(bucket.gone) <= bucket.gone
    ensures bucket.requested == old(bucket.requested) + if t.Deleted? then KeySet(t.keys) else {}
    ensures bucket.Reliable() ==> !t.ListFailed? && (t.Deleted? ==> t.ok)
    ensures TurnFacts(seen, prefix, startAfter, room, t)
    ensures forall k :: k in bucket.watched ==> HasKey(seen, k) || k in bucket.gone
    ensures t.Deleted? && t.errs == [] ==>
              forall k :: k in t.keys ==> k in removed && (k in bucket.watched ==> k in bucket.gone)
    ensures !bucket.shared ==> seen == old(bucket.objects) && bucket.objects == Without(seen, removed)
    ensures removed <= if t.Deleted? then KeySet(t.keys) else {}
  {
    removed := {};
    var page := bucket.List(prefix, startAfter, CHUNK);
    seen := bucket.objects;
    WithoutNone(seen);
    if page.Failed? {
      return ListFailed, seen, removed;
    }
    ghost var all := Under(seen, prefix, startAfter);
    var keys, capped := TakeKeys(page.contents, room);
    assert page.contents[..|keys|] == all[..|keys|];
    if |keys| == 0 {
      return NothingListed(capped), seen, removed;
    }
    var deleted, errs, ok;
    ghost var attempted, done;
    deleted, errs, ok, attempted, done, removed := DeleteKeys(bucket, keys);
    assert keys[..|keys|] == keys;
    if errs == [] {
      AllDone(done, errs, keys);
    }
    t := Deleted(keys, deleted, errs, ok, capped, page.isTruncated);
  }

  /** The keys of a page lie under the prefix and behind startAfter, and the listing goes on behind them. */
  lemma KeysOfPage(seen: seq<Object>, prefix: string, after: string, m: nat)
    requires Sorted(seen) && 0 < m <= |Under(seen, prefix, after)|
    ensures var all := Under(seen, prefix, after);
            var last := all[m - 1].key;
            && (forall k :: k in Keys(all[..m]) ==> HasPrefix(k, prefix) && !Less(last, k))
            && last != "" && (after != "" ==> Less(after, last))
            && Under(seen, prefix, last) == all[m..]
  {
    UnderFacts(seen, prefix, after);
    UnderRest(seen, prefix, after, m - 1);
    var all := Under(seen, prefix, after);
    forall i | 0 <= i < m ensures HasPrefix(all[i].key, prefix) && !Less(all[m - 1].key, all[i].key) {
      assert Matches(all[i], prefix, after);
      if i < m - 1 {
        LessAsymmetric(all[i].key, all[m - 1].key);
      } else {
        LessIrreflexive(all[i].key);
      }
    }
  }

  /** All watched keys under the prefix up to a key ("" for none of them) have been absent at some time. */
  ghost predicate SweptTo(watched: set<string>, gone: set<string>, prefix: string, upTo: string) {
    forall k :: k in watched && HasPrefix(k, prefix) && upTo != "" && !Less(upTo, k) ==> k in gone
  }

  ghost predicate Swept(watched: set<string>, gone: set<string>, prefix: string) {
    forall k :: k in watched && HasPrefix(k, prefix) ==> k in gone
  }

  lemma TurnSwept(watched: set<string>, gone: set<string>, seen: seq<Object>, prefix: string, after: string, m: nat)
    requires Sorted(seen) && m <= |Under(seen, prefix, after)|
    requires SweptTo(watched, gone, prefix, after)
    requires forall k :: k in watched ==> HasKey(seen, k) || k in gone
    requires forall k :: k in Keys(Under(seen, prefix, after)[..m]) && k in watched ==> k in gone
    ensures m > 0 ==> SweptTo(watched, gone, prefix, Under(seen, prefix, after)[m - 1].key)
    ensures m == |Under(seen, prefix, after)| ==> Swept(watched, gone, prefix)
  {
    var all := Under(seen, prefix, after);
    forall k | k in watched && HasPrefix(k, prefix) && (m == |all| || (m > 0 && !Less(all[m - 1].key, k)))
      ensures k in gone
    {
      PageSwept(watched, gone, seen, prefix, after, m, k);
    }
  }

  /**
   Where the deletion stands in a bucket nobody else uses: the first processed objects under
   the prefix are dealt with, the rest is still listed, and nothing but keys was removed.
   */
  ghost predicate Progress(start: seq<Object>, now: seq<Object>, prefix: string, after: string,
                           processed: nat, removed: set<string>) {
    && processed <= |Under(start, prefix, "")|
    && Under(now, prefix, after) == Under(start, prefix, "")[processed..]
    && now == Without(start, removed)
  }

  ghost predicate Removed(start: seq<Object>, prefix: string, processed: nat, removed: set<string>) {
    processed <= |Under(start, prefix, "")| &&
    forall i :: 0 <= i < processed ==> Under(start, prefix, "")[i].key in removed
  }

  lemma ProgressTurn(start: seq<Object>, seen: seq<Object>, prefix: string, after: string,
                     processed: nat, before: set<string>, m: nat, removed: set<string>)
    requires Sorted(seen) && Progress(start, seen, prefix, after, processed, before)
    requires 0 < m <= |Under(seen, prefix, after)|
    requires forall k :: k in removed ==> k in Keys(Under(seen, prefix, after)[..m])
    ensures var last := Under(seen, prefix, after)[m - 1].key;
            Progress(start, Without(seen, removed), prefix, last, processed + m, before + removed)
  {
    var page := Under(seen, prefix, after);
    var last := page[m - 1].key;
    KeysOfPage(seen, prefix, after, m);
    UnderWithout(seen, removed, prefix, last);
    WithoutTwice(start, before, removed);
    assert Under(start, prefix, "")[processed..][m..] == Under(start, prefix, "")[processed + m..];
  }

  lemma RemovedTurn(start: seq<Object>, page: seq<Object>, prefix: string,
                    processed: nat, before: set<string>, m: nat, removed: set<string>)
    requires Removed(start, prefix, processed, before)
    requires page == Under(start, prefix, "")[processed..] && m <= |page|
    requires forall k :: k in Keys(page[..m]) ==> k in removed
    ensures Removed(start, prefix, processed + m, before + removed)
  {
    var all := Under(start, prefix, "");
    forall i | processed <= i < processed + m ensures all[i].key in removed {
      assert Keys(page[..m])[i - processed] == all[i].key;
    }
  }

  lemma {:induction false} ErrorKeysAppend(errors: seq<Problem>, keys: seq<string>)
    ensures ErrorKeys(errors + KeyErrors(keys)) == ErrorKeys(errors) + keys
    ensures ErrorKeys(errors + [ListingStopped]) == ErrorKeys(errors)
    decreases |errors| + |keys|
  {
    if errors != [] {
      assert (errors + KeyErrors(keys))[1..] == errors[1..] + KeyErrors(keys);
      assert (errors + [ListingStopped])[1..] == errors[1..] + [ListingStopped];
      ErrorKeysAppend(errors[1..], keys);
    } else {
      assert errors + [ListingStopped] == [ListingStopped];
      assert errors + KeyErrors(keys) == KeyErrors(keys);
      if keys != [] {
        assert KeyErrors(keys)[1..] == KeyErrors(keys[1..]);
        ErrorKeysAppend([], keys[1..]);
        assert [] + KeyErrors(keys[1..]) == KeyErrors(keys[1..]);
      }
    }
  }

  /** The local variables of the prefix loop. */
  datatype Vars = Vars(deleted: nat, errors: seq<Problem>, truncated: bool, processed: nat, startAfter: string,
                       more: bool)

  /** The variables after a turn. */
  function Next(v: Vars, t: Turn): Vars
    requires t.Deleted? ==> t.keys != []
  {
    match t
    case ListFailed => v.(errors := v.errors + [ListingStopped], more := false)
    case NothingListed(capped) => v.(truncated := capped, more := false)
    case Deleted(keys, n, errs, ok, capped, isTruncated) =>
      var goesOn := ok && !capped && isTruncated;
      Vars(v.deleted + n, v.errors + KeyErrors(errs), capped, v.processed + |keys|,
           if goesOn then keys[|keys| - 1] else v.startAfter, goesOn)
  }

  function NextTrail(trail: seq<string>, v: Vars, t: Turn): seq<string>
    requires t.Deleted? ==> t.keys != []
  {
    if Next(v, t).more then trail + [Next(v, t).startAfter] else trail
  }

  ghost predicate Counted(v: Vars, trail: seq<string>) {
    && v.processed <= MAX_PREFIX_DELETE
    && v.deleted + |ErrorKeys(v.errors)| == v.processed
    && Ascending(trail)
    && (if v.startAfter == "" then trail == [] else trail != [] && trail[|trail| - 1] == v.startAfter)
    && (v.more ==> !v.truncated)
  }

  lemma NextCounted(v: Vars, trail: seq<string>, seen: seq<Object>, prefix: string, t: Turn)
    requires Counted(v, trail) && v.more
    requires TurnFacts(seen, prefix, v.startAfter, MAX_PREFIX_DELETE - v.processed, t)
    ensures Counted(Next(v, t), NextTrail(trail, v, t))
    ensures Next(v, t).more ==> v.processed < Next(v, t).processed
    ensures t.Deleted? ==> forall k :: k in t.keys ==> HasPrefix(k, prefix)
  {
    match t
    case ListFailed => ErrorKeysAppend(v.errors, []);
    case NothingListed(_) =>
    case Deleted(keys, n, errs, ok, capped, isTruncated) =>
      ErrorKeysAppend(v.errors, errs);
      KeysOfPage(seen, prefix, v.startAfter, |keys|);
      TrailStep(trail, v.startAfter, keys[|keys| - 1]);
  }

  lemma TrailStep(trail: seq<string>, last: string, next: string)
    requires Ascending(trail)
    requires if last == "" then trail == [] else trail != [] && trail[|trail| - 1] == last && Less(last, next)
    ensures Ascending(trail + [next])
  {
    forall i | 0 <= i < |trail| ensures Less(trail[i], next) {
      if i < |trail| - 1 {
        LessTransitive(trail[i], last, next);
      }
    }
  }

  /** What the loop knows about the watched keys. */
  ghost predicate Watch(watched: set<string>, gone: set<string>, prefix: string, v: Vars) {
    && (v.more && v.errors == [] ==> SweptTo(watched, gone, prefix, v.startAfter))
    && (!v.more && v.errors == [] && !v.truncated ==> Swept(watched, gone, prefix))
  }

  lemma NextWatch(watched: set<string>, before: set<string>, gone: set<string>, prefix: string, v: Vars,
                  seen: seq<Object>, t: Turn)
    requires Watch(watched, before, prefix, v) && v.more && before <= gone && v.processed <= MAX_PREFIX_DELETE
    requires TurnFacts(seen, prefix, v.startAfter, MAX_PREFIX_DELETE - v.processed, t)
    requires forall k :: k in watched ==> HasKey(seen, k) || k in gone
    requires t.Deleted? && t.errs == [] ==> forall k :: k in t.keys && k in watched ==> k in gone
    ensures Watch(watched, gone, prefix, Next(v, t))
  {
    if v.errors == [] && t.NothingListed? && !t.capped {
      TurnSwept(watched, gone, seen, prefix, v.startAfter, 0);
    } else if v.errors == [] && t.Deleted? && t.errs == [] {
      TurnSwept(watched, gone, seen, prefix, v.startAfter, |t.keys|);
    }
  }

  /** What the loop knows about a bucket nobody else uses, where no request fails if reliable. */
  ghost predicate Alone(start: seq<Object>, now: seq<Object>, prefix: string, removed: set<string>, reliable: bool,
                        v: Vars) {
    var n := |Under(start, prefix, "")|;
    && now == Without(start, removed)
    && (v.more ==> Progress(start, now, prefix, v.startAfter, v.processed, removed))
    && (v.errors == [] ==> Removed(start, prefix, v.processed, removed))
    && (!v.more && v.errors == [] && !v.truncated ==> v.processed == n)
    && (!v.more && reliable ==> v.processed == Min(n, MAX_PREFIX_DELETE) && v.truncated == (n > MAX_PREFIX_DELETE))
  }

  lemma NextAlone(start: seq<Object>, seen: seq<Object>, prefix: string, removed: set<string>, dropped: set<string>,
                  reliable: bool, v: Vars, t: Turn)
    requires Alone(start, seen, prefix, removed, reliable, v) && v.more && v.processed <= MAX_PREFIX_DELETE
    requires TurnFacts(seen, prefix, v.startAfter, MAX_PREFIX_DELETE - v.processed, t)
    requires dropped <= if t.Deleted? then KeySet(t.keys) else {}
    requires t.Deleted? && t.errs == [] ==> forall k :: k in t.keys ==> k in dropped
    requires reliable ==> !t.ListFailed? && (t.Deleted? ==> t.ok)
    ensures Alone(start, Without(seen, dropped), prefix, removed + dropped, reliable, Next(v, t))
  {
    var page := Under(seen, prefix, v.startAfter);
    assert |page| == |Under(start, prefix, "")| - v.processed;
    if t.Deleted? {
      ProgressTurn(start, seen, prefix, v.startAfter, v.processed, removed, |t.keys|, dropped);
      if v.errors == [] && t.errs == [] {
        RemovedTurn(start, page, prefix, v.processed, removed, |t.keys|, dropped);
      }
    } else {
      assert dropped == {} && removed + dropped == removed;
      WithoutNone(seen);
    }
  }

  /** Every key asked to be deleted since then lies under the prefix. */
  ghost predicate AskedUnder(since: set<string>, requested: set<string>, prefix: string) {
    forall k :: k in requested && k !in since ==> HasPrefix(k, prefix)
  }

  /**
   All that the loop knows: about the keys asked for since the start, the variables, the watched keys
   and, in a bucket nobody else uses, the objects.
   */
  ghost predicate Turned(since: set<string>, requested: set<string>, watched: set<string>, gone: set<string>,
                         start: seq<Object>, now: seq<Object>, removed: set<string>,
                         shared: bool, reliable: bool, prefix: string, v: Vars, trail: seq<string>) {
    && AskedUnder(since, requested, prefix)
    && Counted(v, trail)
    && Watch(watched, gone, prefix, v)
    && (!shared ==> Alone(start, now, prefix, removed, reliable, v))
  }

  /** What a turn does to the keys asked for, the keys gone and the objects. */
  ghost predicate TurnEffect(requested: set<string>, gone: set<string>, now: seq<Object>,
                             requested': set<string>, gone': set<string>, now': seq<Object>,
                             watched: set<string>, seen: seq<Object>, dropped: set<string>,
                             shared: bool, reliable: bool, t: Turn) {
    && gone <= gone'
    && requested' == requested + (if t.Deleted? then KeySet(t.keys) else {})
    && (reliable ==> !t.ListFailed? && (t.Deleted? ==> t.ok))
    && (forall k :: k in watched ==> HasKey(seen, k) || k in gone')
    && (t.Deleted? && t.errs == [] ==> forall k :: k in t.keys ==> k in dropped && (k in watched ==> k in gone'))
    && (!shared ==> seen == now && now' == Without(seen, dropped))
    && dropped <= if t.Deleted? then KeySet(t.keys) else {}
  }

  lemma NextTurned(since: set<string>, requested: set<string>, watched: set<string>, gone: set<string>,
                   start: seq<Object>, now: seq<Object>, removed: set<string>,
                   shared: bool, reliable: bool, prefix: string, v: Vars, trail: seq<string>,
                   requested': set<string>, gone': set<string>, now': seq<Object>,
                   seen: seq<Object>, dropped: set<string>, t: Turn)
    requires Turned(since, requested, watched, gone, start, now, removed, shared, reliable, prefix, v, trail) && v.more
    requires TurnFacts(seen, prefix, v.startAfter, MAX_PREFIX_DELETE - v.processed, t)
    requires TurnEffect(requested, gone, now, requested', gone', now', watched, seen, dropped, shared, reliable, t)
    ensures Turned(since, requested', watched, gone', start, now', removed + dropped, shared, reliable, prefix,
                   Next(v, t), NextTrail(trail, v, t))
    ensures Next(v, t).more ==> v.processed < Next(v, t).processed
  {
    NextCounted(v, trail, seen, prefix, t);
    NextWatch(watched, gone, gone', prefix, v, seen, t);
    if !shared {
      NextAlone(start, seen, prefix, removed, dropped, reliable, v, t);
    }
  }

  /** The rest of the loop body, once the turn is made: the counters, and whether the answer is an S3 error. */
  method RecordTurn(v: Vars, t: Turn) returns (next: Vars, fatal: bool)
    requires t.Deleted? ==> t.keys != []
    requires v.more
    ensures next == Next(v, t)
    ensures fatal <==> (t.ListFailed? && v.processed == 0) || (t.Deleted? && !t.ok && v.deleted + t.deleted == 0)
  {
    next, fatal := v, false;
    match t {
      case ListFailed =>
        fatal := v.processed == 0;
        next := next.(errors := next.errors + [ListingStopped], more := false);
      case NothingListed(capped) =>
        next := next.(truncated := capped, more := false);
      case Deleted(keys, n, errs, ok, capped, isTruncated) =>
        next := next.(truncated := capped, deleted := next.deleted + n, errors := next.errors + KeyErrors(errs),
          processed := next.processed + |keys|);
        if !ok {
          fatal := next.deleted == 0;
          next := next.(more := false);
        } else if next.truncated || !isTruncated {
          next := next.(more := false);
        } else {
          next := next.(startAfter := keys[|keys| - 1]);
        }
    }
  }

  lemma NothingTurned(since: set<string>, watched: set<string>, gone: set<string>, start: seq<Object>,
                      shared: bool, reliable: bool, prefix: string, v: Vars)
    requires v == Vars(0, [], false, 0, "", true)
    ensures Turned(since, since, watched, gone, start, start, {}, shared, reliable, prefix, v, [])
  {
    WithoutNone(start);
  }

  /** The loop over the turns, from the first listing to the last deletion or to a fatal failure. */
  method SweepPrefix(bucket: Bucket, prefix: string)
    returns (v: Vars, fatal: bool, ghost trail: seq<string>, ghost removed: set<string>)
    requires bucket.Valid()
    modifies bucket`objects, bucket`clock, bucket`gone, bucket`requested
    ensures bucket.Valid()
    ensures Turned(old(bucket.requested), bucket.requested, bucket.watched, bucket.gone, old(bucket.objects),
                   bucket.objects, removed, bucket.shared, bucket.Reliable(), prefix, v, trail)
    ensures if fatal then !bucket.Reliable() else !v.more
  {
    ghost var since, start, shared, reliable := bucket.requested, bucket.objects, bucket.shared, bucket.Reliable();
    v, fatal, trail, removed := Vars(0, [], false, 0, "", true), false, [], {};
    NothingTurned(since, bucket.watched, bucket.gone, start, shared, reliable, prefix, v);
    while v.more && !fatal
      invariant bucket.Valid()
      invariant Turned(since, bucket.requested, bucket.watched, bucket.gone, start, bucket.objects,
                       removed, shared, reliable, prefix, v, trail)
      invariant fatal ==> !reliable
      decreases !fatal, v.more, MAX_PREFIX_DELETE - v.processed
    {
      ghost var requested, gone, now := bucket.requested, bucket.gone, bucket.objects;
      ghost var seen, dropped;
      var t;
      t, seen, dropped := DeletePage(bucket, prefix, v.startAfter, MAX_PREFIX_DELETE - v.processed);
      NextTurned(since, requested, bucket.watched, gone, start, now, removed, shared, reliable, prefix, v, trail,
                 bucket.requested, bucket.gone, bucket.objects, seen, dropped, t);
      trail, removed := NextTrail(trail, v, t), removed + dropped;
      v, fatal := RecordTurn(v, t);
    }
  }

  /**
   handleDeletePrefix. processed counts the keys dealt with; trail records the StartAfter keys.

   Whatever others do and whichever requests fail, only keys under the prefix are asked to be
   deleted, at most 10000 of them, each is reported as deleted or as an error, and an answer
   without errors that is not truncated means that every key watched from the start has been
   gone. In a bucket nobody else uses the keys are dealt with in order, and such an answer
   leaves nothing under the prefix.
   */
  method DeletePrefix(bucket: Bucket, prefix: string)
    returns (r: Answer, processed: nat, ghost trail: seq<string>, ghost removed: set<string>)
    requires bucket.Valid()
    modifies bucket`objects, bucket`clock, bucket`gone, bucket`requested
    ensures bucket.Valid()
    ensures r.BadRequest? <==> prefix == ""
    ensures forall k :: k in bucket.requested - old(bucket.requested) ==> HasPrefix(k, prefix) && prefix != ""
    ensures processed <= MAX_PREFIX_DELETE && Ascending(trail)
    ensures r.Ok? ==> r.deleted + |ErrorKeys(r.errors)| == processed
    ensures r.Ok? && r.errors == [] && !r.truncated ==> Swept(bucket.watched, bucket.gone, prefix)
    ensures bucket.Reliable() && prefix != "" ==> r.Ok?
    ensures !bucket.shared && bucket.Reliable() && prefix != "" ==>
              var all := Under(old(bucket.objects), prefix, "");
              processed == Min(|all|, MAX_PREFIX_DELETE) && r.Ok? && r.truncated == (|all| > MAX_PREFIX_DELETE)
    ensures !bucket.shared ==>
              && bucket.objects == Without(old(bucket.objects), removed)
              && (r.Ok? && r.errors == [] && !r.truncated ==> Under(bucket.objects, prefix, "") == [])
  {
    processed, trail, removed := 0, [], {};
    if prefix == "" {
      WithoutNone(bucket.objects);
      return BadRequest, processed, trail, removed;
    }
    ghost var start := bucket.objects;
    var v, fatal;
    v, fatal, trail, removed := SweepPrefix(bucket, prefix);
    processed := v.processed;
    if fatal {
      return S3Error, processed, trail, removed;
    }
    if !bucket.shared && v.errors == [] && !v.truncated {
      UnderGone(start, removed, prefix, "");
    }
    r := Ok(v.deleted, v.errors, v.truncated);
  }

  // ---- The summary ----

  function TotalSize(s: seq<Object>): int {
    if s == [] then 0 else TotalSize(s[..|s| - 1]) + s[|s| - 1].size
  }

  lemma {:induction false} TotalSizeConcat(a: seq<Object>, b: seq<Object>)
    ensures TotalSize(a + b) == TotalSize(a) + TotalSize(b)
    decreases |b|
  {
    if b == [] {
      assert a + b == a;
    } else {
      assert (a + b)[..|a + b| - 1] == a + b[..|b| - 1];
      TotalSizeConcat(a, b[..|b| - 1]);
    }
  }

  /** Counts a page, up to the cap. */
  method CountPage(contents: seq<Object>, count0: nat, bytes0: int) returns (count: nat, bytes: int, truncated: bool)
    requires count0 <= MAX_PREFIX_DELETE
    ensures count == Min(count0 + |contents|, MAX_PREFIX_DELETE)
    ensures truncated == (count0 + |contents| > MAX_PREFIX_DELETE)
    ensures bytes == bytes0 + TotalSize(contents[..count - count0])
  {
    count, bytes, truncated := count0, bytes0, false;
    var i := 0;
    while i < |contents|
      invariant i <= |contents| && count == count0 + i <= MAX_PREFIX_DELETE && !truncated
      invariant bytes == bytes0 + TotalSize(contents[..i])
    {
      if count >= MAX_PREFIX_DELETE {
        truncated := true;
        break;
      }
      assert contents[..i + 1][..i] == contents[..i];
      count := count + 1;
      bytes := bytes + contents[i].size;
      i := i + 1;
    }
  }

  /** The tally of the first count keys of a bucket nobody changes; left is what is behind the token. */
  ghost predicate Tallied(all: seq<Object>, count: nat, bytes: int, truncated: bool, hasMore: bool, left: seq<Object>) {
    && count <= |all| && bytes == TotalSize(all[..count])
    && (truncated ==> count < |all|)
    && (!truncated && !hasMore ==> count == |all|)
    && (!truncated && hasMore ==> left == all[count..])
  }

  /** One more page, of which the first n objects fit under the cap. */
  lemma TallyPage(all: seq<Object>, count: nat, bytes: int, left: seq<Object>, contents: seq<Object>, n: nat,
                  rest: seq<Object>)
    requires Tallied(all, count, bytes, false, true, left) && contents <= left && n <= |contents|
    requires |contents| < |left| ==> rest == left[|contents|..]
    ensures Tallied(all, count + n, bytes + TotalSize(contents[..n]), n < |contents|, |contents| < |left|, rest)
  {
    assert all[..count + n] == all[..count] + contents[..n];
    TotalSizeConcat(all[..count], contents[..n]);
  }

  /**
   handlePrefixSummary. The continuation token of the paginator stands for the last key of the
   page before.
   */
  method PrefixSummary(bucket: Bucket, prefix: string) returns (r: SummaryAnswer)
    requires bucket.Valid()
    modifies bucket`objects, bucket`clock, bucket`gone
    ensures bucket.Valid()
    ensures bucket.Reliable() ==> r.Summary?
    ensures r.Summary? ==> r.count <= MAX_PREFIX_DELETE && (r.truncated ==> r.count == MAX_PREFIX_DELETE)
    ensures !bucket.shared ==> bucket.objects == old(bucket.objects)
    ensures !bucket.shared && r.Summary? ==>
              var all := Under(bucket.objects, prefix, "");
              && r.count == Min(|all|, MAX_PREFIX_DELETE)
              && r.truncated == (|all| > MAX_PREFIX_DELETE)
              && r.bytes == TotalSize(all[..r.count])
  {
    var count: nat, bytes, truncated := 0, 0, false;
    var token := "";
    var hasMore := true;
    ghost var all := Under(bucket.objects, prefix, "");
    while hasMore && !truncated
      invariant bucket.Valid()
      invariant count <= MAX_PREFIX_DELETE && (truncated ==> count == MAX_PREFIX_DELETE)
      invariant !bucket.shared ==>
                  && bucket.objects == old(bucket.objects)
                  && Tallied(all, count, bytes, truncated, hasMore, Under(bucket.objects, prefix, token))
      decreases hasMore, MAX_PREFIX_DELETE - count, !truncated
    {
      var page := bucket.List(prefix, token, CHUNK);
      if page.Failed? {
        return SummaryError;
      }
      ghost var c, b, listed := count, bytes, Under(bucket.objects, prefix, token);
      count, bytes, truncated := CountPage(page.contents, count, bytes);
      hasMore := page.isTruncated;
      if hasMore {
        var last := |page.contents| - 1;
        UnderRest(bucket.objects, prefix, token, last);
        assert listed[last] == page.contents[last];
        token := page.contents[last].key;
      }
      if !bucket.shared {
        TallyPage(all, c, b, listed, page.contents, count - c, Under(bucket.objects, prefix, token));
      }
    }
    r := Summary(count, bytes, truncated);
  }

  /**
   In a bucket nobody else uses, where no request fails, the summary shown before a deletion
   is exactly what the deletion then deals with, whatever pages the server chooses to send.
   */
  method SummaryThenDelete(bucket: Bucket, prefix: string) returns (sum: SummaryAnswer, r: Answer, processed: nat)
    requires bucket.Valid() && !bucket.shared && bucket.Reliable() && prefix != ""
    modifies bucket`objects, bucket`clock, bucket`gone, bucket`requested
    ensures sum.Summary? && r.Ok?
    ensures sum.count == processed == r.deleted + |ErrorKeys(r.errors)|
    ensures sum.truncated == r.truncated
  {
    sum := PrefixSummary(bucket, prefix);
    ghost var trail, removed;
    r, processed, trail, removed := DeletePrefix(bucket, prefix);
  }
}
