/**
 The single-use download tickets (backend/handler_objects.go): a store changed in place, and
 its meaning as a function of the history of issues and redemptions.
 */
module Tickets {
  import opened Options

  datatype Request = Request(bucket: string, name: string, keys: seq<string>)
  datatype Ticket = Ticket(request: Request, expires: int)

  function Pruned(tickets: map<string, Ticket>, now: int): map<string, Ticket> {
    map k | k in tickets && now <= tickets[k].expires :: tickets[k]
  }

  /** The answer of issue: the random source failed, the store is full, or the token is good. */
  datatype Issued = NoRandomness | TooMany | Token(token: string)

  class TicketStore {
    var tickets: map<string, Ticket>
    const ttl: int
    const max: nat

    constructor (ttl: int, max: nat)
      ensures tickets == map[] && this.ttl == ttl && this.max == max
    {
      this.ttl, this.max := ttl, max;
      tickets := map[];
    }

    /** random is the token drawn, if the random source worked. */
    method Issue(request: Request, random: Option<string>, now: int) returns (r: Issued)
      modifies this
      ensures r == if random.None? then NoRandomness
                   else if |Pruned(old(tickets), now)| >= max then TooMany else Token(random.value)
      ensures tickets == if r.NoRandomness? then old(tickets)
                         else if r.TooMany? then Pruned(old(tickets), now)
                         else Pruned(old(tickets), now)[r.token := Ticket(request, now + ttl)]
    {
      if random.None? {
        return NoRandomness;
      }
      var keys := tickets.Keys;
      while keys != {}
        invariant keys <= old(tickets).Keys
        invariant tickets == map k | k in old(tickets)
            && (k in keys || now <= old(tickets)[k].expires) :: old(tickets)[k]
        decreases |keys|
      {
        var k :| k in keys;
        keys := keys - {k};
        if now > tickets[k].expires {
          tickets := tickets - {k};
        }
      }
      assert tickets == Pruned(old(tickets), now);
      if |tickets| >= max {
        return TooMany;
      }
      tickets := tickets[random.value := Ticket(request, now + ttl)];
      return Token(random.value);
    }

    /** Any attempt with a known token consumes it. */
    method Redeem(token: string, bucket: string, now: int) returns (r: Option<Request>)
      modifies this
      ensures tickets == old(tickets) - {token}
      ensures r == Redeemed(old(tickets), token, bucket, now)
    {
      if token !in tickets {
        return None;
      }
      var t := tickets[token];
      tickets := tickets - {token};
      if now > t.expires || t.request.bucket != bucket {
        return None;
      }
      return Some(t.request);
    }
  }

  function Redeemed(tickets: map<string, Ticket>, token: string, bucket: string, now: int): Option<Request> {
    if token in tickets && now <= tickets[token].expires && tickets[token].request.bucket == bucket
    then Some(tickets[token].request) else None
  }

  // ---- The history of a store ----

  datatype Event = IssueAt(token: string, request: Request, at: int) | RedeemAt(token: string, bucket: string, at: int)

  /** The tickets after a history, as the methods leave them. */
  function Replay(history: seq<Event>, ttl: int, max: nat): map<string, Ticket> {
    if history == [] then map[]
    else
      var tickets := Replay(history[..|history| - 1], ttl, max);
      match history[|history| - 1]
      case IssueAt(token, request, at) =>
        var kept := Pruned(tickets, at);
        if |kept| >= max then kept else kept[token := Ticket(request, at + ttl)]
      case RedeemAt(token, _, _) => tickets - {token}
  }

  /** Event number i found room for its ticket. */
  predicate Accepted(history: seq<Event>, ttl: int, max: nat, i: nat) {
    i < |history| && history[i].IssueAt? && |Pruned(Replay(history[..i], ttl, max), history[i].at)| < max
  }

  ghost function AcceptedEvents(history: seq<Event>, ttl: int, max: nat): set<nat> {
    set i: nat | i < |history| && Accepted(history, ttl, max, i)
  }

  /** Event i issued this token, nobody has tried to redeem it since, and it has not expired. */
  ghost predicate Live(history: seq<Event>, accepted: set<nat>, ttl: int, i: nat, token: string, now: int) {
    && i < |history| && i in accepted && history[i].IssueAt? && history[i].token == token
    && now <= history[i].at + ttl
    && forall j :: i < j < |history| && history[j].RedeemAt? ==> history[j].token != token
  }

  /** Tokens are drawn at random: an issued token was never mentioned before. */
  ghost predicate FreshTokens(history: seq<Event>) {
    forall i, j :: 0 <= i < j < |history| && history[j].IssueAt? ==> history[i].token != history[j].token
  }

  ghost predicate Before(history: seq<Event>, now: int) {
    forall i :: 0 <= i < |history| ==> history[i].at <= now
  }

  function Find(tickets: map<string, Ticket>, token: string, now: int): Option<Ticket> {
    if token in tickets && now <= tickets[token].expires then Some(tickets[token]) else None
  }

  lemma AcceptedExtends(h: seq<Event>, e: Event, ttl: int, max: nat)
    ensures forall i: nat :: i < |h| ==> (i in AcceptedEvents(h + [e], ttl, max) <==> i in AcceptedEvents(h, ttl, max))
    ensures |h| in AcceptedEvents(h + [e], ttl, max) <==> Accepted(h + [e], ttl, max, |h|)
  {
    forall i: nat | i < |h| ensures (h + [e])[..i] == h[..i] {
    }
  }

  /** The store has a token exactly if some event makes it live, and then with that event's request. */
  ghost predicate Refined(history: seq<Event>, accepted: set<nat>, ttl: int, found: Option<Ticket>, token: string,
                          now: int) {
    && (found.Some? ==> exists i: nat :: Live(history, accepted, ttl, i, token, now))
    && (forall i: nat :: Live(history, accepted, ttl, i, token, now) ==>
          found == Some(Ticket(history[i].request, history[i].at + ttl)))
  }

  lemma RefinedAfter(h: seq<Event>, e: Event, before: set<nat>, after: set<nat>, ttl: int,
                     found: Option<Ticket>, found': Option<Ticket>, token: string, now: int)
    requires FreshTokens(h + [e]) && Refined(h, before, ttl, found, token, now)
    requires forall i: nat :: i < |h| ==> (i in after <==> i in before)
    requires !(e.IssueAt? && e.token == token) ==> found' == if e.RedeemAt? && e.token == token then None else found
    requires e.IssueAt? && e.token == token && found.None? ==>
               found' == if |h| in after && now <= e.at + ttl then Some(Ticket(e.request, e.at + ttl)) else None
    ensures Refined(h + [e], after, ttl, found', token, now)
  {
    var history, n := h + [e], |h|;
    assert history[n] == e && forall i :: 0 <= i < n ==> history[i] == h[i];
    forall i: nat
      ensures i < n ==> (Live(history, after, ttl, i, token, now) <==>
                           Live(h, before, ttl, i, token, now) && !(e.RedeemAt? && e.token == token))
    {
    }
    if e.IssueAt? && e.token == token {
      assert forall i: nat :: i < n ==> h[i].token != token;
      assert forall i: nat :: !Live(h, before, ttl, i, token, now);
      assert Live(history, after, ttl, n, token, now) <==> n in after && now <= e.at + ttl;
    } else if found'.Some? {
      var i: nat :| Live(h, before, ttl, i, token, now);
      assert Live(history, after, ttl, i, token, now);
    }
  }

  /**
   The store refines its history: at any time a token is good exactly if some event issued it,
   nobody has tried to redeem it since, and it has not expired.
   */
  lemma {:induction false} StoreRefinesHistory(history: seq<Event>, ttl: int, max: nat, token: string, now: int)
    requires FreshTokens(history) && Before(history, now)
    ensures Refined(history, AcceptedEvents(history, ttl, max), ttl, Find(Replay(history, ttl, max), token, now),
        token, now)
    decreases |history|
  {
    if history != [] {
      var n := |history| - 1;
      var h, e := history[..n], history[n];
      assert history == h + [e];
      StoreRefinesHistory(h, ttl, max, token, now);
      AcceptedExtends(h, e, ttl, max);
      RefinedAfter(h, e, AcceptedEvents(h, ttl, max), AcceptedEvents(history, ttl, max), ttl,
                   Find(Replay(h, ttl, max), token, now), Find(Replay(history, ttl, max), token, now), token, now);
    }
  }

  /**
   What redeem answers, in terms of the history: the request of a live ticket of that token
   for that bucket, and nothing otherwise.
   */
  lemma RedeemMeaning(history: seq<Event>, ttl: int, max: nat, token: string, bucket: string, now: int)
    requires FreshTokens(history) && Before(history, now)
    ensures var r := Redeemed(Replay(history, ttl, max), token, bucket, now);
            var accepted := AcceptedEvents(history, ttl, max);
            && (r.Some? ==> r.value.bucket == bucket)
            && (r.Some? ==>
                  exists i: nat :: Live(history, accepted, ttl, i, token, now) && history[i].request == r.value)
            && (forall i: nat :: Live(history, accepted, ttl, i, token, now) && history[i].request.bucket == bucket ==>
                  r == Some(history[i].request))
  {
    StoreRefinesHistory(history, ttl, max, token, now);
  }

  /** Single use: after any attempt with a token, for whatever bucket, no later attempt succeeds. */
  lemma RedeemedOnce(history: seq<Event>, ttl: int, max: nat, k: nat, token: string, bucket: string, now: int)
    requires FreshTokens(history) && Before(history, now)
    requires k < |history| && history[k].RedeemAt? && history[k].token == token
    ensures Redeemed(Replay(history, ttl, max), token, bucket, now) == None
  {
    StoreRefinesHistory(history, ttl, max, token, now);
    forall i: nat ensures !Live(history, AcceptedEvents(history, ttl, max), ttl, i, token, now) {
    }
  }

  lemma {:induction false} StoreBounded(history: seq<Event>, ttl: int, max: nat)
    ensures |Replay(history, ttl, max)| <= max
    decreases |history|
  {
    if history != [] {
      var h, e := history[..|history| - 1], history[|history| - 1];
      StoreBounded(h, ttl, max);
      var before, after := Replay(h, ttl, max), Replay(history, ttl, max);
      if e.IssueAt? {
        var kept := Pruned(before, e.at);
        Smaller(kept.Keys, before.Keys);
        if |kept| < max {
          assert after.Keys == kept.Keys + {e.token};
        }
      } else {
        Smaller(after.Keys, before.Keys);
      }
    }
  }

  lemma Smaller(a: set<string>, b: set<string>)
    requires a <= b
    ensures |a| <= |b|
  {
    assert b == a + (b - a);
  }

  /** The tokens of the tickets that are issued, not yet tried, and not expired. */
  ghost function LiveTokens(history: seq<Event>, ttl: int, max: nat, now: int): set<string> {
    var accepted := AcceptedEvents(history, ttl, max);
    set i: nat | i < |history| && Live(history, accepted, ttl, i, history[i].token, now) :: history[i].token
  }

  /** issue refuses exactly when max tickets are pending, and more are never pending. */
  lemma IssueRefusesWhenFull(history: seq<Event>, ttl: int, max: nat, token: string, request: Request, now: int)
    requires FreshTokens(history) && Before(history, now)
    ensures Accepted(history + [IssueAt(token, request, now)], ttl, max, |history|) <==>
              |LiveTokens(history, ttl, max, now)| < max
    ensures |LiveTokens(history, ttl, max, now)| <= max
  {
    var tickets, accepted := Replay(history, ttl, max), AcceptedEvents(history, ttl, max);
    var kept := Pruned(tickets, now);
    assert (history + [IssueAt(token, request, now)])[..|history|] == history;
    forall t ensures t in kept.Keys <==> t in LiveTokens(history, ttl, max, now) {
      StoreRefinesHistory(history, ttl, max, t, now);
      if t in kept.Keys {
        assert Find(tickets, t, now).Some?;
        var i: nat :| Live(history, accepted, ttl, i, t, now);
      }
    }
    assert kept.Keys == LiveTokens(history, ttl, max, now);
    StoreBounded(history, ttl, max);
    Smaller(kept.Keys, tickets.Keys);
  }
}
