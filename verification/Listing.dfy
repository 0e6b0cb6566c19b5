/**
 Paging through Garage's ListBucketsInfo / ListKeysInfo (backend/list_enrich.go).
 The offset of a request is the ID of the first entry wanted, so every page after
 the first repeats the entry the previous page ended with.
 */
module Listing {
  import opened KeyOrder

  datatype Entry<T> = Entry(id: string, info: T)

  /** What Garage can answer to one page request. */
  datatype Answer<T> =
    | Page(items: seq<Entry<T>>)
    | StatusError(status: int, saysUnknownEndpoint: bool)
    | DecodeError
    | TransportError

  /**
   An arbitrary server: its answer to request number n with a given offset. The empty
   offset stands for a request without one. As n is part of the argument, the server may
   change its mind, and its data, between any two requests.
   */
  type Server<!T> = (nat, string) -> Answer<T>

  /** Why a listing ended: with the last page, at the page cap, or because the server repeats itself. */
  datatype Reason = LastPage | PageCap | RepeatedEntry | NoProgress

  datatype Outcome<T> =
    | Listed(items: seq<Entry<T>>, truncated: bool, requests: nat, why: Reason)
    | Unsupported(remember: bool, requests: nat)
    | Failed(error: Answer<T>, requests: nat)

  predicate Has<T>(s: seq<Entry<T>>, id: string) {
    exists i :: 0 <= i < |s| && s[i].id == id
  }

  ghost predicate Ordered<T>(s: seq<Entry<T>>) {
    forall i, j :: 0 <= i < j < |s| ==> Less(s[i].id, s[j].id)
  }

  ghost predicate Distinct<T>(s: seq<Entry<T>>) {
    forall i, j :: 0 <= i < j < |s| ==> s[i].id != s[j].id
  }

  /** Does this error mean that Garage lacks the endpoint? */
  predicate IsUnknownEndpoint<T>(a: Answer<T>, firstPage: bool) {
    match a
    case StatusError(status, says) =>
      (status == 400 && says) || (firstPage && (status == 400 || status == 404))
    case DecodeError => firstPage
    case _ => false
  }

  /** The page without its first entry when that entry only repeats the offset. */
  function DropRepeated<T>(offset: string, items: seq<Entry<T>>): seq<Entry<T>> {
    if offset != "" && |items| > 0 && items[0].id == offset then items[1..] else items
  }

  /** Appends entries until one has an ID already listed; the flag says that one did. */
  function Absorb<T>(all: seq<Entry<T>>, items: seq<Entry<T>>): (seq<Entry<T>>, bool)
    decreases |items|
  {
    if items == [] then (all, false)
    else if Has(all, items[0].id) then (all, true)
    else Absorb(all + [items[0]], items[1..])
  }

  lemma {:induction false} AbsorbLength<T>(all: seq<Entry<T>>, items: seq<Entry<T>>)
    ensures !Absorb(all, items).1 ==> |Absorb(all, items).0| == |all| + |items|
    decreases |items|
  {
    if items != [] && !Has(all, items[0].id) {
      AbsorbLength(all + [items[0]], items[1..]);
    }
  }

  /** What one answer leads to: the end of the listing, or the next offset and what is listed by then. */
  datatype Turn<T> = Stop(outcome: Outcome<T>) | Go(next: string, all: seq<Entry<T>>)

  function OnAnswer<T>(answer: Answer<T>, limit: nat, page: nat, offset: string, all: seq<Entry<T>>): Turn<T> {
    if !answer.Page? then
      Stop(if IsUnknownEndpoint(answer, page == 0) then Unsupported(true, page + 1) else Failed(answer, page + 1))
    else
      var added := DropRepeated(offset, answer.items);
      var (all', repeated) := Absorb(all, added);
      AbsorbLength(all, added);
      if repeated then
        Stop(Listed(all', true, page + 1, RepeatedEntry))
      else if |answer.items| < limit || |added| == 0 then
        Stop(Listed(all', false, page + 1, LastPage))
      else if all'[|all'| - 1].id == offset then
        Stop(Listed(all', true, page + 1, NoProgress))
      else
        Go(all'[|all'| - 1].id, all')
  }

  /** The listing continued from request number page with what was listed so far. */
  function Run<T>(server: Server<T>, limit: nat, left: nat, page: nat,
                  offset: string, all: seq<Entry<T>>): Outcome<T>
    decreases left
  {
    if left == 0 then Listed(all, true, page, PageCap)
    else
      match OnAnswer(server(page, offset), limit, page, offset, all)
      case Stop(outcome) => outcome
      case Go(next, all') => Run(server, limit, left - 1, page + 1, next, all')
  }

  function ListAll<T>(server: Server<T>, known: bool, limit: nat, maxPages: nat): Outcome<T> {
    if known then Unsupported(false, 0) else Run(server, limit, maxPages, 0, "", [])
  }

  /** The inner loop: lists a page's entries, looking every ID up in the set of those seen. */
  method AbsorbPage<T>(before: seq<Entry<T>>, known: set<string>, items: seq<Entry<T>>)
    returns (all: seq<Entry<T>>, seen: set<string>, repeated: bool)
    requires known == (set e | e in before :: e.id)
    ensures (all, repeated) == Absorb(before, items)
    ensures seen == (set e | e in all :: e.id)
  {
    all, seen, repeated := before, known, false;
    var i := 0;
    while i < |items|
      invariant i <= |items|
      invariant seen == (set e | e in all :: e.id)
      invariant Absorb(all, items[i..]) == Absorb(before, items)
    {
      var it := items[i];
      assert items[i..][1..] == items[i + 1..];
      assert Has(all, it.id) <==> it.id in seen;
      if it.id in seen {
        return all, seen, true;
      }
      seen := seen + {it.id};
      all := all + [it];
      i := i + 1;
    }
  }

  /** What the loop does with one answer. */
  method TakeAnswer<T>(answer: Answer<T>, limit: nat, page: nat, offset: string,
                       before: seq<Entry<T>>, known: set<string>)
    returns (turn: Turn<T>, seen: set<string>)
    requires known == (set e | e in before :: e.id)
    ensures turn == OnAnswer(answer, limit, page, offset, before)
    ensures turn.Go? ==> seen == (set e | e in turn.all :: e.id)
  {
    seen := known;
    if !answer.Page? {
      if IsUnknownEndpoint(answer, page == 0) {
        return Stop(Unsupported(true, page + 1)), seen;
      }
      return Stop(Failed(answer, page + 1)), seen;
    }
    var items := answer.items;
    var full := |items| >= limit;
    if offset != "" && |items| > 0 && items[0].id == offset {
      items := items[1..];
    }
    var all, repeated;
    AbsorbLength(before, items);
    all, seen, repeated := AbsorbPage(before, known, items);
    if repeated {
      return Stop(Listed(all, true, page + 1, RepeatedEntry)), seen;
    }
    if !full || |items| == 0 {
      return Stop(Listed(all, false, page + 1, LastPage)), seen;
    }
    var next := all[|all| - 1].id;
    if next == offset {
      return Stop(Listed(all, true, page + 1, NoProgress)), seen;
    }
    return Go(next, all), seen;
  }

  /** known is the answer of the memo of Garages without the endpoint. */
  method ListAllInfo<T>(server: Server<T>, known: bool, limit: nat, maxPages: nat) returns (r: Outcome<T>)
    ensures known ==> r == Unsupported(false, 0)
    ensures r == ListAll(server, known, limit, maxPages)
  {
    if known {
      return Unsupported(false, 0);
    }
    var all: seq<Entry<T>> := [];
    var seen: set<string> := {};
    var offset := "";
    var page := 0;
    while page < maxPages
      invariant page <= maxPages
      invariant seen == (set e | e in all :: e.id)
      invariant Run(server, limit, maxPages - page, page, offset, all) == Run(server, limit, maxPages, 0, "", [])
    {
      var turn;
      turn, seen := TakeAnswer(server(page, offset), limit, page, offset, all, seen);
      if turn.Stop? {
        return turn.outcome;
      }
      offset, all := turn.next, turn.all;
      page := page + 1;
    }
    return Listed(all, true, page, PageCap);
  }

  lemma {:induction false} AbsorbFacts<T>(all: seq<Entry<T>>, items: seq<Entry<T>>)
    ensures all <= Absorb(all, items).0
    ensures Distinct(all) ==> Distinct(Absorb(all, items).0)
    ensures !Absorb(all, items).1 ==> Absorb(all, items).0 == all + items
    decreases |items|
  {
    if items != [] && !Has(all, items[0].id) {
      assert all + [items[0]] + items[1..] == all + items;
      AbsorbFacts(all + [items[0]], items[1..]);
    }
  }

  predicate GivesPage<T>(server: Server<T>, n: nat, offset: string) {
    server(n, offset).Page?
  }

  /**
   The call ended with this answer: handed on as it is, or taken for a Garage without the endpoint.
   The latter for a 400 that says so, and on the first request for any 400 or 404 and for an answer
   that did not decode.
   */
  ghost predicate EndsWith<T>(answer: Answer<T>, n: nat, r: Outcome<T>) {
    var missing := match answer
      case StatusError(400, true) => true
      case StatusError(status, _) => n == 0 && status in {400, 404}
      case DecodeError => n == 0
      case _ => false;
    !answer.Page? && r.requests == n + 1 &&
    (if missing then r.Unsupported? && r.remember else r.Failed? && r.error == answer)
  }

  ghost predicate FailsAt<T>(server: Server<T>, n: nat, offset: string, r: Outcome<T>) {
    EndsWith(server(n, offset), n, r)
  }

  ghost predicate Fails<T(!new)>(server: Server<T>, n: nat, r: Outcome<T>) {
    exists offset :: FailsAt(server, n, offset, r)
  }

  /** The request made last was not answered with a page, and this is what comes of that answer. */
  ghost predicate RequestFailed<T(!new)>(server: Server<T>, r: Outcome<T>) {
    r.requests > 0 && Fails(server, r.requests - 1, r)
  }

  /** One turn of the run. */
  lemma RunTurn<T>(server: Server<T>, limit: nat, left: nat, page: nat, offset: string, all: seq<Entry<T>>,
                   turn: Turn<T>, r: Outcome<T>)
    requires left > 0 && turn == OnAnswer(server(page, offset), limit, page, offset, all)
    requires r == Run(server, limit, left, page, offset, all)
    ensures turn.Stop? ==> r == turn.outcome
    ensures turn.Go? ==> r == Run(server, limit, left - 1, page + 1, turn.next, turn.all)
  {
  }

  /** What holds of an outcome whatever the server answers, when the listing had come to all at page. */
  ghost predicate Sane<T(!new)>(server: Server<T>, left: nat, page: nat, all: seq<Entry<T>>, r: Outcome<T>) {
    && page <= r.requests <= page + left
    && (r.Listed? ==> all <= r.items && Distinct(r.items) && (r.truncated <==> !r.why.LastPage?))
    && (!r.Listed? ==> RequestFailed(server, r))
  }

  lemma AnyTurn<T(!new)>(server: Server<T>, limit: nat, page: nat, offset: string, all: seq<Entry<T>>)
    requires Distinct(all)
    ensures var turn := OnAnswer(server(page, offset), limit, page, offset, all);
            && (turn.Stop? ==> Sane(server, 1, page, all, turn.outcome))
            && (turn.Go? ==> all <= turn.all && Distinct(turn.all))
  {
    var answer := server(page, offset);
    if answer.Page? {
      AbsorbFacts(all, DropRepeated(offset, answer.items));
    } else {
      assert FailsAt(server, page, offset, OnAnswer(answer, limit, page, offset, all).outcome);
    }
  }

  /**
   Whatever the server answers: a bounded number of requests, no ID listed twice, and no listing
   only if a request failed, the answer to it deciding what the caller gets.
   */
  lemma {:induction false} AnyServer<T(!new)>(server: Server<T>, limit: nat, left: nat, page: nat,
                                              offset: string, all: seq<Entry<T>>, r: Outcome<T>)
    requires Distinct(all) && r == Run(server, limit, left, page, offset, all)
    ensures Sane(server, left, page, all, r)
    decreases left
  {
    if left > 0 {
      AnyTurn(server, limit, page, offset, all);
      var turn := OnAnswer(server(page, offset), limit, page, offset, all);
      RunTurn(server, limit, left, page, offset, all, turn, r);
      if turn.Go? {
        AnyServer(server, limit, left - 1, page + 1, turn.next, turn.all, r);
      }
    }
  }

  // ---- A sorted server whose entries others insert and delete between pages ----

  /** The suffix of a sorted list that starts at the first ID not before the offset. */
  function From<T>(list: seq<Entry<T>>, offset: string): seq<Entry<T>> {
    if list == [] || !Less(list[0].id, offset) then list else From(list[1..], offset)
  }

  function SortedPage<T>(list: seq<Entry<T>>, offset: string, limit: nat): seq<Entry<T>> {
    var rest := From(list, offset);
    if |rest| <= limit then rest else rest[..limit]
  }

  /** The page that answers request number n, unless the request fails, comes from a sorted list. */
  ghost predicate AnswersFrom<T(!new)>(server: Server<T>, limit: nat, list: seq<Entry<T>>, n: nat, offset: string) {
    Ordered(list) && (server(n, offset).Page? ==> server(n, offset) == Page(SortedPage(list, offset, limit)))
  }

  /** Garage answering every request number n from the sorted list world(n). */
  ghost predicate Serves<T(!new)>(server: Server<T>, limit: nat, world: nat -> seq<Entry<T>>) {
    forall n, offset :: AnswersFrom(server, limit, world(n), n, offset)
  }

  /** The entry named id was there at every one of the first n requests. */
  ghost predicate PresentThroughout<T(!new)>(world: nat -> seq<Entry<T>>, n: nat, id: string) {
    forall p: nat :: p < n ==> Has(world(p), id)
  }

  lemma {:induction false} FromSplits<T>(list: seq<Entry<T>>, offset: string)
    requires Ordered(list)
    ensures |From(list, offset)| <= |list|
    ensures From(list, offset) == list[|list| - |From(list, offset)|..]
    ensures forall i :: 0 <= i < |list| - |From(list, offset)| ==> Less(list[i].id, offset)
    ensures forall i :: |list| - |From(list, offset)| <= i < |list| ==> !Less(list[i].id, offset)
  {
    if list != [] && Less(list[0].id, offset) {
      FromSplits(list[1..], offset);
      assert forall i :: 0 < i < |list| ==> list[i] == list[1..][i - 1];
    } else if list != [] {
      forall i | 0 <= i < |list| ensures !Less(list[i].id, offset) {
        if Less(list[i].id, offset) && i > 0 {
          LessTransitive(list[0].id, list[i].id, offset);
        }
      }
    }
  }

  /** A page is in order, starts no earlier than the offset, and misses only what lies behind it. */
  lemma PageFacts<T>(list: seq<Entry<T>>, offset: string, limit: nat)
    requires Ordered(list)
    ensures var p := SortedPage(list, offset, limit);
            && |p| <= limit
            && Ordered(p)
            && (forall i :: 0 <= i < |p| ==> !Less(p[i].id, offset))
  {
    FromSplits(list, offset);
  }

  /** An entry not before the offset is in the suffix that starts there. */
  lemma InSuffix<T>(list: seq<Entry<T>>, offset: string, id: string)
    requires Ordered(list) && Has(list, id) && !Less(id, offset)
    ensures Ordered(From(list, offset)) && Has(From(list, offset), id)
  {
    FromSplits(list, offset);
    var rest := From(list, offset);
    var k := |list| - |rest|;
    var i :| 0 <= i < |list| && list[i].id == id;
    assert rest[i - k].id == id;
  }

  lemma PageMisses<T>(list: seq<Entry<T>>, offset: string, limit: nat, id: string)
    requires Ordered(list) && Has(list, id) && !Less(id, offset) && limit > 0
    ensures var p := SortedPage(list, offset, limit);
            Has(p, id) || (|p| == limit && Less(p[|p| - 1].id, id))
  {
    InSuffix(list, offset, id);
    var rest, p := From(list, offset), SortedPage(list, offset, limit);
    var i :| 0 <= i < |rest| && rest[i].id == id;
    if i < |p| {
      assert p[i].id == id;
    } else {
      assert p[limit - 1] == rest[limit - 1];
    }
  }

  /** IDs in ascending order never look like repeats. */
  lemma {:induction false} AbsorbOrdered<T>(all: seq<Entry<T>>, items: seq<Entry<T>>)
    requires Ordered(all + items)
    ensures Absorb(all, items) == (all + items, false)
    decreases |items|
  {
    if items == [] {
      assert all + items == all;
    } else {
      var both := all + items;
      if Has(all, items[0].id) {
        var i :| 0 <= i < |all| && all[i].id == items[0].id;
        assert Less(both[i].id, both[|all|].id);
        LessIrreflexive(items[0].id);
      }
      assert (all + [items[0]]) + items[1..] == both;
      AbsorbOrdered(all + [items[0]], items[1..]);
    }
  }

  /** One turn of the loop when the page holds only new IDs in ascending order. */
  lemma OrderedTurn<T>(limit: nat, page: nat, offset: string, all: seq<Entry<T>>, p: seq<Entry<T>>)
    requires Ordered(all + DropRepeated(offset, p))
    ensures var all' := all + DropRepeated(offset, p);
            OnAnswer(Page(p), limit, page, offset, all) ==
              if |p| < limit || |DropRepeated(offset, p)| == 0 then Stop(Listed(all', false, page + 1, LastPage))
              else if all'[|all'| - 1].id == offset then Stop(Listed(all', true, page + 1, NoProgress))
              else Go(all'[|all'| - 1].id, all')
  {
    AbsorbOrdered(all, DropRepeated(offset, p));
  }

  /** What is true whenever a sorted server is about to answer request number page. */
  ghost predicate UpTo<T(!new)>(world: nat -> seq<Entry<T>>, page: nat, offset: string, all: seq<Entry<T>>) {
    && Ordered(all)
    && (page == 0 ==> offset == "" && all == [])
    && (page > 0 ==> offset != "" && all != [] && all[|all| - 1].id == offset)
    && (page > 0 ==> forall id :: PresentThroughout(world, page, id) && !Less(offset, id) ==> Has(all, id))
  }

  lemma JoinOrdered<T>(a: seq<Entry<T>>, b: seq<Entry<T>>)
    requires Ordered(a) && Ordered(b)
    requires a != [] && b != [] ==> Less(a[|a| - 1].id, b[0].id)
    ensures Ordered(a + b)
  {
    forall i, j | 0 <= i < |a| && 0 <= j < |b| ensures Less(a[i].id, b[j].id) {
      if i < |a| - 1 {
        LessTransitive(a[i].id, a[|a| - 1].id, b[0].id);
      }
      if j > 0 {
        LessTransitive(a[i].id, b[0].id, b[j].id);
      }
    }
  }

  /** What a page adds: all of it but a leading repeat of the offset, and only later IDs. */
  lemma AddedFacts<T>(offset: string, p: seq<Entry<T>>)
    requires Ordered(p) && forall i :: 0 <= i < |p| ==> !Less(p[i].id, offset)
    ensures var added := DropRepeated(offset, p);
            && Ordered(added)
            && (offset != "" && added != [] ==> Less(offset, added[0].id))
            && (forall id :: Has(p, id) && id != offset ==> Has(added, id))
            && (offset == "" ==> added == p)
  {
    var added := DropRepeated(offset, p);
    if offset != "" && p != [] && p[0].id == offset {
      forall id | Has(p, id) && id != offset ensures Has(added, id) {
        var i :| 0 <= i < |p| && p[i].id == id;
        assert added[i - 1].id == id;
      }
    } else if p != [] {
      LessTotal(offset, p[0].id);
    }
  }

  /** The IDs of one page continue the list in order. */
  lemma OnePageInOrder<T(!new)>(world: nat -> seq<Entry<T>>, limit: nat, page: nat, offset: string, all: seq<Entry<T>>)
    requires Ordered(world(page)) && UpTo(world, page, offset, all)
    ensures Ordered(all + DropRepeated(offset, SortedPage(world(page), offset, limit)))
  {
    var p := SortedPage(world(page), offset, limit);
    PageFacts(world(page), offset, limit);
    AddedFacts(offset, p);
    JoinOrdered(all, DropRepeated(offset, p));
  }

  lemma HasConcat<T>(a: seq<Entry<T>>, b: seq<Entry<T>>, id: string)
    requires Has(a, id) || Has(b, id)
    ensures Has(a + b, id)
  {
    if Has(a, id) {
      var i :| 0 <= i < |a| && a[i].id == id;
      assert (a + b)[i].id == id;
    } else {
      var i :| 0 <= i < |b| && b[i].id == id;
      assert (a + b)[|a| + i].id == id;
    }
  }

  /** An ID present so far is listed once this page is, or lies behind a full page. */
  lemma OnePageMissesNothing<T(!new)>(
    world: nat -> seq<Entry<T>>, limit: nat, page: nat, offset: string, all: seq<Entry<T>>, id: string)
    requires limit > 0 && Ordered(world(page)) && UpTo(world, page, offset, all)
    requires PresentThroughout(world, page + 1, id)
    ensures var p := SortedPage(world(page), offset, limit);
            || Has(all + DropRepeated(offset, p), id)
            || (|p| == limit && Less(p[|p| - 1].id, id))
  {
    var p := SortedPage(world(page), offset, limit);
    PageFacts(world(page), offset, limit);
    AddedFacts(offset, p);
    assert Has(world(page), id);
    if page > 0 && !Less(offset, id) {
      assert PresentThroughout(world, page, id);
      HasConcat(all, DropRepeated(offset, p), id);
    } else {
      if page > 0 {
        LessAsymmetric(offset, id);
      }
      PageMisses(world(page), offset, limit, id);
      if Has(p, id) {
        HasConcat(all, DropRepeated(offset, p), id);
      }
    }
  }

  /** After a full page the list is again complete up to its new end. */
  lemma FullPage<T(!new)>(world: nat -> seq<Entry<T>>, limit: nat, page: nat, offset: string, all: seq<Entry<T>>)
    requires limit >= 2 && Ordered(world(page)) && UpTo(world, page, offset, all)
    requires |SortedPage(world(page), offset, limit)| >= limit
    ensures var added := DropRepeated(offset, SortedPage(world(page), offset, limit));
            var all' := all + added;
            && added != []
            && all'[|all'| - 1].id != offset
            && UpTo(world, page + 1, all'[|all'| - 1].id, all')
  {
    var p := SortedPage(world(page), offset, limit);
    var added := DropRepeated(offset, p);
    var all' := all + added;
    PageFacts(world(page), offset, limit);
    OnePageInOrder(world, limit, page, offset, all);
    var next := all'[|all'| - 1].id;
    assert all'[|all'| - 1] == p[|p| - 1];
    assert Less(p[|p| - 2].id, next);
    forall id | PresentThroughout(world, page + 1, id) && !Less(next, id) ensures Has(all', id) {
      OnePageMissesNothing(world, limit, page, offset, all, id);
    }
  }

  /** What a sorted server guarantees of a listing: it ends with the last page or at the page cap. */
  ghost predicate Complete<T(!new)>(world: nat -> seq<Entry<T>>, maxPages: nat, r: Outcome<T>) {
    r.Listed? ==>
      && Ordered(r.items)
      && (r.truncated ==> r.why == PageCap && r.requests == maxPages)
      && (!r.truncated ==> r.why == LastPage)
      && (!r.truncated ==> forall id :: PresentThroughout(world, r.requests, id) ==> Has(r.items, id))
  }

  /** A turn either ends the listing as it should, or keeps UpTo for the next request. */
  lemma SortedTurn<T(!new)>(
    world: nat -> seq<Entry<T>>, limit: nat, maxPages: nat, page: nat, offset: string, all: seq<Entry<T>>)
    requires limit >= 2 && Ordered(world(page)) && UpTo(world, page, offset, all)
    ensures var turn := OnAnswer(Page(SortedPage(world(page), offset, limit)), limit, page, offset, all);
            && (turn.Stop? ==> turn.outcome.Listed? && Complete(world, maxPages, turn.outcome))
            && (turn.Go? ==> UpTo(world, page + 1, turn.next, turn.all))
  {
    var p := SortedPage(world(page), offset, limit);
    var all' := all + DropRepeated(offset, p);
    OnePageInOrder(world, limit, page, offset, all);
    OrderedTurn(limit, page, offset, all, p);
    if |p| < limit {
      forall id | PresentThroughout(world, page + 1, id) ensures Has(all', id) {
        OnePageMissesNothing(world, limit, page, offset, all, id);
      }
    } else {
      FullPage(world, limit, page, offset, all);
    }
  }

  /**
   The main result about paging. Whatever others insert and delete between the pages, and whichever
   request may fail, a listing that is not reported as truncated holds every entry that was there
   all along, and the only reason for reporting one is the page cap: no listing ends with a repeated
   entry or for want of progress.
   */
  lemma {:induction false} NothingLost<T(!new)>(
    server: Server<T>, limit: nat, world: nat -> seq<Entry<T>>,
    maxPages: nat, left: nat, page: nat, offset: string, all: seq<Entry<T>>, r: Outcome<T>)
    requires limit >= 2 && Serves(server, limit, world) && UpTo(world, page, offset, all) && maxPages == page + left
    requires r == Run(server, limit, left, page, offset, all)
    ensures Complete(world, maxPages, r)
    decreases left
  {
    if left > 0 && server(page, offset).Page? {
      assert AnswersFrom(server, limit, world(page), page, offset);
      SortedTurn(world, limit, maxPages, page, offset, all);
      var turn := OnAnswer(server(page, offset), limit, page, offset, all);
      RunTurn(server, limit, left, page, offset, all, turn, r);
      if turn.Go? {
        NothingLost(server, limit, world, maxPages, left - 1, page + 1, turn.next, turn.all, r);
      }
    }
  }

  /** The same for a whole call. */
  lemma ListingComplete<T(!new)>(server: Server<T>, limit: nat, maxPages: nat, world: nat -> seq<Entry<T>>)
    requires limit >= 2 && Serves(server, limit, world)
    ensures var r := ListAll(server, false, limit, maxPages);
            Complete(world, maxPages, r) && (r.Listed? || RequestFailed(server, r))
  {
    AnyServer(server, limit, maxPages, 0, "", [], ListAll(server, false, limit, maxPages));
    NothingLost(server, limit, world, maxPages, maxPages, 0, "", [], ListAll(server, false, limit, maxPages));
  }

  // ---- A sorted server nobody changes ----

  ghost predicate ServesUnchanged<T(!new)>(server: Server<T>, limit: nat, list: seq<Entry<T>>) {
    forall n, offset :: AnswersFrom(server, limit, list, n, offset)
  }

  lemma {:induction false} FromListed<T>(list: seq<Entry<T>>, k: nat)
    requires Ordered(list) && k < |list|
    ensures From(list, list[k].id) == list[k..]
  {
    if k == 0 {
      LessIrreflexive(list[0].id);
    } else {
      FromListed(list[1..], k - 1);
    }
  }

  /** How many entries fit in the pages allowed: one page, and one fewer in every further page. */
  function Reach(limit: nat, maxPages: nat): nat
    requires limit > 0
  {
    maxPages * (limit - 1) + 1
  }

  /** The first n > 0 entries are listed, and the next page starts at the last of them. */
  ghost predicate At<T>(list: seq<Entry<T>>, n: nat, offset: string, all: seq<Entry<T>>) {
    0 < n <= |list| && all == list[..n] && offset == list[n - 1].id && offset != ""
  }

  /** The page that starts at the last listed entry adds those up to entry end. */
  lemma TailPage<T>(limit: nat, list: seq<Entry<T>>, n: nat, end: nat, offset: string, all: seq<Entry<T>>)
    requires limit >= 2 && Ordered(list) && At(list, n, offset, all)
    requires end == if |list| - n < limit - 1 then |list| else n + limit - 1
    ensures var p := SortedPage(list, offset, limit);
            |p| == end - n + 1 && all + DropRepeated(offset, p) == list[..end]
  {
    FromListed(list, n - 1);
    var rest, p := list[n - 1..], SortedPage(list, offset, limit);
    assert |p| == end - n + 1 && p <= rest;
    forall i | 0 <= i < |p| ensures p[i] == list[n - 1 + i] {
      assert p[i] == rest[i];
    }
    assert p[1..] == list[n..end];
  }

  /** A request for the tail ends the listing, or lists limit - 1 more entries: the first m. */
  lemma TailTurn<T>(limit: nat, page: nat, list: seq<Entry<T>>, n: nat, m: nat, offset: string, all: seq<Entry<T>>)
    requires limit >= 2 && Ordered(list) && At(list, n, offset, all) && m == n + limit - 1
    ensures var turn := OnAnswer(Page(SortedPage(list, offset, limit)), limit, page, offset, all);
            if |list| < m then turn == Stop(Listed(list, false, page + 1, LastPage))
            else turn.Go? && At(list, m, turn.next, turn.all)
  {
    var end := if |list| < m then |list| else m;
    TailPage(limit, list, n, end, offset, all);
    OrderedTurn(limit, page, offset, all, SortedPage(list, offset, limit));
    if end == m {
      assert list[..m][m - 1] == list[m - 1];
      LessAsymmetric(offset, list[m - 1].id);
    } else {
      assert list[..end] == list;
    }
  }

  lemma FirstAbsorb<T>(none: seq<Entry<T>>, p: seq<Entry<T>>)
    requires none == [] && Ordered(p)
    ensures Absorb(none, p) == (p, false)
  {
    AbsorbOrdered(none, p);
    assert none + p == p;
  }

  lemma FirstTurn<T>(limit: nat, list: seq<Entry<T>>, offset: string, none: seq<Entry<T>>)
    requires limit >= 2 && Ordered(list) && offset == "" && none == []
    ensures var turn := OnAnswer(Page(SortedPage(list, offset, limit)), limit, 0, offset, none);
            if |list| < limit then turn == Stop(Listed(list, false, 1, LastPage))
            else turn.Go? && At(list, limit, turn.next, turn.all)
  {
    assert From(list, offset) == list;
    var p := SortedPage(list, offset, limit);
    FirstAbsorb(none, p);
    if |list| >= limit {
      assert Less(list[limit - 2].id, list[limit - 1].id);
    }
  }

  /** A listing of an unchanging list of which reach entries fit in the pages allowed. */
  ghost predicate ReachedOf<T>(list: seq<Entry<T>>, reach: nat, r: Outcome<T>) {
    r.Listed? ==>
      && r.truncated == (|list| >= reach)
      && r.items == if r.truncated then list[..reach] else list
  }

  /** The listing once the first n > 0 entries are listed. */
  lemma {:induction false} UnchangedTail<T(!new)>(
    server: Server<T>, limit: nat, step: nat, list: seq<Entry<T>>, reach: nat,
    left: nat, page: nat, n: nat, offset: string, all: seq<Entry<T>>, r: Outcome<T>)
    requires limit == step + 1 >= 2 && ServesUnchanged(server, limit, list) && At(list, n, offset, all)
    requires reach == n + Spread(left, step)
    requires r == Run(server, limit, left, page, offset, all)
    ensures ReachedOf(list, reach, r)
    decreases left
  {
    var m, later := n + step, page + 1;
    if left > 0 && server(page, offset).Page? {
      assert AnswersFrom(server, limit, list, page, offset);
      TailTurn(limit, page, list, n, m, offset, all);
      var turn := OnAnswer(server(page, offset), limit, page, offset, all);
      RunTurn(server, limit, left, page, offset, all, turn, r);
      if turn.Go? {
        UnchangedTail(server, limit, step, list, reach, left - 1, later, m, turn.next, turn.all, r);
      }
    }
  }

  /** step entries for each of the pages left. */
  function Spread(left: nat, step: nat): nat {
    if left == 0 then 0 else step + Spread(left - 1, step)
  }

  lemma {:induction false} SpreadIsProduct(left: nat, step: nat)
    ensures Spread(left, step) == left * step
  {
    if left > 0 {
      SpreadIsProduct(left - 1, step);
      assert left * step == (left - 1) * step + step;
    }
  }

  lemma UnchangedRun<T(!new)>(server: Server<T>, limit: nat, maxPages: nat, list: seq<Entry<T>>,
                              offset: string, none: seq<Entry<T>>, step: nat, reach: nat, r: Outcome<T>)
    requires limit == step + 1 >= 2 && maxPages > 0 && ServesUnchanged(server, limit, list)
    requires offset == "" && none == [] && r == Run(server, limit, maxPages, 0, offset, none)
    requires reach == limit + Spread(maxPages - 1, step)
    ensures ReachedOf(list, reach, r)
  {
    if server(0, offset).Page? {
      assert AnswersFrom(server, limit, list, 0, offset);
      FirstTurn(limit, list, offset, none);
      var turn := OnAnswer(server(0, offset), limit, 0, offset, none);
      RunTurn(server, limit, maxPages, 0, offset, none, turn, r);
      if turn.Go? {
        UnchangedTail(server, limit, step, list, reach, maxPages - 1, 1, limit, turn.next, turn.all, r);
      }
    }
  }

  /**
   On a list nobody changes the result is a prefix of it, and truncated says exactly that the
   list is longer than maxPages * (limit - 1).
   */
  lemma UnchangedList<T(!new)>(server: Server<T>, limit: nat, maxPages: nat, list: seq<Entry<T>>, r: Outcome<T>)
    requires limit >= 2 && maxPages > 0 && ServesUnchanged(server, limit, list)
    requires r == ListAll(server, false, limit, maxPages)
    ensures r.Listed? || RequestFailed(server, r)
    ensures r.Listed? ==>
              && r.items <= list
              && r.truncated == (|list| > maxPages * (limit - 1))
              && |r.items| == (if |list| < Reach(limit, maxPages) then |list| else Reach(limit, maxPages))
  {
    AnyServer(server, limit, maxPages, 0, "", [], r);
    SpreadIsProduct(maxPages, limit - 1);
    UnchangedRun(server, limit, maxPages, list, "", [], limit - 1, Reach(limit, maxPages), r);
  }

  /**
   Why the limit must be at least 2: with pages of one entry the second page is nothing but
   the repeated offset, and the listing ends there without saying that entries are missing.
   */
  lemma LimitOneLosesEntries(server: Server<int>, first: Entry<int>, second: Entry<int>)
    requires first.id != "" && Less(first.id, second.id)
    requires ServesUnchanged(server, 1, [first, second]) && forall n, offset :: GivesPage(server, n, offset)
    ensures ListAll(server, false, 1, 100) == Listed([first], false, 2, LastPage)
  {
    var list := [first, second];
    var none: seq<Entry<int>> := [];
    assert GivesPage(server, 0, "") && GivesPage(server, 1, first.id);
    assert AnswersFrom(server, 1, list, 0, "");
    assert SortedPage(list, "", 1) == [first];
    FirstAbsorb(none, [first]);
    assert AnswersFrom(server, 1, list, 1, first.id);
    FromListed(list, 0);
    assert SortedPage(list, first.id, 1) == [first];
    assert [first] + DropRepeated(first.id, [first]) == [first];
    OrderedTurn(1, 1, first.id, [first], [first]);
  }
}
