/**
 The sliding session (backend/auth.go): the checks of authMiddleware, the response writer that
 re-issues the cookie at most once, and what a client can do with the cookies it ever got.
 Times are nanoseconds; the timestamps in a cookie are whole unix seconds.
 */
module Session {
  import opened Options

  const SECOND := 1_000_000_000
  /** MaxAge of the cookie, in seconds. */
  const MAX_AGE := 3600
  const REFRESH_INTERVAL := 300 * SECOND
  const ABSOLUTE_MAX := 43200 * SECOND

  function Unix(t: int): int {
    t / SECOND
  }

  /** The values a session cookie carries; "" stands for a missing user name. */
  datatype Cookie = Cookie(
    user: string, issuedAt: Option<int>, refreshedAt: Option<int>, state: Option<string>, next: Option<string>)

  /** A Set-Cookie header line. */
  datatype SetCookie = SessionCookie(values: Cookie, maxAge: int) | OtherCookie(name: string)

  // ---- The rules ----

  /** When the login was; a session from before issued_at existed counts from now. */
  function IssuedAt(c: Cookie, now: int): int {
    if c.issuedAt.Some? then c.issuedAt.value else Unix(now)
  }

  function Idle(c: Cookie, now: int): int {
    now - (if c.refreshedAt.Some? then c.refreshedAt.value else 0) * SECOND
  }

  predicate Expired(c: Cookie, now: int) {
    now - IssuedAt(c, now) * SECOND > ABSOLUTE_MAX || (c.refreshedAt.Some? && Idle(c, now) > MAX_AGE * SECOND)
  }

  predicate Accepts(c: Cookie, now: int) {
    c.user != "" && !Expired(c, now)
  }

  predicate Due(c: Cookie, now: int) {
    c.issuedAt.None? || Idle(c, now) >= REFRESH_INTERVAL
  }

  /** A cookie without refreshed_at is never too long idle, and counts as last refreshed in 1970. */
  lemma NeverRefreshed(c: Cookie, now: int)
    requires c.refreshedAt.None?
    ensures Accepts(c, now) <==> c.user != "" && (c.issuedAt.Some? ==> now - c.issuedAt.value * SECOND <= ABSOLUTE_MAX)
    ensures Due(c, now) <==> c.issuedAt.None? || now >= 300_000_000_000
  {
  }

  function Refreshed(c: Cookie, now: int): Cookie {
    c.(issuedAt := Some(IssuedAt(c, now)), refreshedAt := Some(Unix(now)))
  }

  // ---- The code ----

  /** sess.Values and sess.Options.MaxAge. */
  class SessionObject {
    var values: Cookie
    var maxAge: int

    constructor (values: Cookie)
      ensures this.values == values && maxAge == MAX_AGE
    {
      this.values, maxAge := values, MAX_AGE;
    }
  }

  /** The Set-Cookie lines of a response so far, and those that went out with the header. */
  class ResponseWriter {
    var cookies: seq<SetCookie>
    var wire: Option<seq<SetCookie>>

    constructor ()
      ensures cookies == [] && wire == None
    {
      cookies, wire := [], None;
    }

    /** The first write of any kind sends the header. */
    method Send()
      modifies this`wire
      ensures wire == if old(wire).None? then Some(cookies) else old(wire)
    {
      if wire.None? {
        wire := Some(cookies);
      }
    }
  }

  method HasSessionSetCookie(cookies: seq<SetCookie>) returns (r: bool)
    ensures r <==> exists i :: 0 <= i < |cookies| && cookies[i].SessionCookie?
  {
    for i := 0 to |cookies|
      invariant forall j :: 0 <= j < i ==> !cookies[j].SessionCookie?
    {
      if cookies[i].SessionCookie? {
        return true;
      }
    }
    return false;
  }

  /** What a handler does with its response, in order. saveOk is whether writing the cookie works. */
  datatype Call = SetOther(name: string) | ExpireSession(saveOk: bool) | WriteHeader | Write | Flush

  predicate Sends(c: Call) {
    c.WriteHeader? || c.Write? || c.Flush?
  }

  /** The Set-Cookie lines a handler adds by some calls, with the session values it then sees. */
  function HandlerCookies(calls: seq<Call>, values: Cookie): seq<SetCookie> {
    if calls == [] then []
    else
      HandlerCookies(calls[..|calls| - 1], values) +
      match calls[|calls| - 1]
      case SetOther(name) => [OtherCookie(name)]
      case ExpireSession(saveOk) => if saveOk then [SessionCookie(values, -1)] else []
      case _ => []
  }

  /** How many calls come before the first that sends the header. */
  function BeforeHeader(calls: seq<Call>): (n: nat)
    ensures n <= |calls|
    ensures forall i :: 0 <= i < n ==> !Sends(calls[i])
    ensures n < |calls| ==> Sends(calls[n])
  {
    if calls == [] || Sends(calls[0]) then 0 else 1 + BeforeHeader(calls[1..])
  }

  /** The MaxAge left in sess.Options: a handler that expires the session sets it to -1. */
  function AgeAfter(calls: seq<Call>): int {
    if exists i :: 0 <= i < |calls| && calls[i].ExpireSession? then -1 else MAX_AGE
  }

  ghost predicate HasSession(cookies: seq<SetCookie>) {
    exists i :: 0 <= i < |cookies| && cookies[i].SessionCookie?
  }

  /**
   The Set-Cookie lines of a response whose cookie is due for a refresh: those the handler set
   before the header went out, and behind them the refreshed session cookie, unless one of them
   already is a session cookie or the refresh cannot be saved.
   */
  ghost function RefreshedWire(calls: seq<Call>, values: Cookie, saveOk: bool): seq<SetCookie> {
    var p := BeforeHeader(calls);
    var before := HandlerCookies(calls[..p], values);
    if HasSession(before) || !saveOk then before else before + [SessionCookie(values, AgeAfter(calls[..p]))]
  }

  class SessionRefreshWriter {
    const w: ResponseWriter
    const sess: SessionObject
    const saveOk: bool
    var done: bool

    constructor (w: ResponseWriter, sess: SessionObject, saveOk: bool)
      ensures this.w == w && this.sess == sess && this.saveOk == saveOk && !done
    {
      this.w, this.sess, this.saveOk, done := w, sess, saveOk, false;
    }

    /** Adds the session cookie the first time it is called, unless the handler has set one. */
    method Refresh()
      modifies this, w`cookies
      ensures done
      ensures w.cookies == if old(done) || HasSession(old(w.cookies)) || !saveOk then old(w.cookies)
                           else old(w.cookies) + [SessionCookie(sess.values, sess.maxAge)]
    {
      if done {
        return;
      }
      done := true;
      var has := HasSessionSetCookie(w.cookies);
      if has {
        return;
      }
      if saveOk {
        w.cookies := w.cookies + [SessionCookie(sess.values, sess.maxAge)];
      }
    }

    /** WriteHeader, Write and Flush all refresh before they let the header go out. */
    method RefreshAndSend()
      modifies this, w
      ensures done
      ensures w.cookies == if old(done) || HasSession(old(w.cookies)) || !saveOk then old(w.cookies)
                           else old(w.cookies) + [SessionCookie(sess.values, sess.maxAge)]
      ensures w.wire == if old(w.wire).None? then Some(w.cookies) else old(w.wire)
    {
      Refresh();
      w.Send();
    }
  }

  /** next.ServeHTTP(sw, r), the refresh after it, and the header an idle handler still gets. */
  method ServeRefreshing(w: ResponseWriter, sess: SessionObject, calls: seq<Call>, saveOk: bool)
    requires w.cookies == [] && w.wire == None && sess.maxAge == MAX_AGE
    modifies w, sess`maxAge
    ensures w.wire == Some(RefreshedWire(calls, sess.values, saveOk))
  {
    var sw := new SessionRefreshWriter(w, sess, saveOk);
    ghost var p := BeforeHeader(calls);
    var i := 0;
    while i < |calls|
      invariant i <= |calls|
      invariant i <= p ==> !sw.done && w.wire == None && w.cookies == HandlerCookies(calls[..i], sess.values)
                           && sess.maxAge == AgeAfter(calls[..i])
      invariant i > p ==> sw.done && w.wire == Some(RefreshedWire(calls, sess.values, saveOk))
    {
      assert calls[..i + 1][..i] == calls[..i];
      match calls[i] {
        case SetOther(name) => w.cookies := w.cookies + [OtherCookie(name)];
        case ExpireSession(ok) =>
          sess.maxAge := -1;
          assert calls[..i + 1][i].ExpireSession?;
          if ok {
            w.cookies := w.cookies + [SessionCookie(sess.values, sess.maxAge)];
          }
        case _ =>
          assert i >= p;
          sw.RefreshAndSend();
      }
      i := i + 1;
    }
    assert calls[..i] == calls;
    sw.Refresh();
    w.Send();
  }

  /** The same handler when no refresh is due. */
  method ServePlain(w: ResponseWriter, sess: SessionObject, calls: seq<Call>)
    requires w.cookies == [] && w.wire == None
    modifies w, sess`maxAge
    ensures w.wire == Some(HandlerCookies(calls[..BeforeHeader(calls)], sess.values))
  {
    ghost var p := BeforeHeader(calls);
    var i := 0;
    while i < |calls|
      invariant i <= |calls|
      invariant i <= p ==> w.wire == None && w.cookies == HandlerCookies(calls[..i], sess.values)
      invariant i > p ==> w.wire == Some(HandlerCookies(calls[..p], sess.values))
    {
      assert calls[..i + 1][..i] == calls[..i];
      match calls[i] {
        case SetOther(name) => w.cookies := w.cookies + [OtherCookie(name)];
        case ExpireSession(ok) =>
          sess.maxAge := -1;
          if ok {
            w.cookies := w.cookies + [SessionCookie(sess.values, sess.maxAge)];
          }
        case _ =>
          assert i >= p;
          w.Send();
      }
      i := i + 1;
    }
    assert calls[..i] == calls;
    w.Send();
  }

  /**
   authMiddleware; decodes is false for a cookie the session store cannot read. Refused requests
   do not reach the handler; for the others the handler's calls decide, as above, which cookies
   go out.
   */
  method AuthMiddleware(w: ResponseWriter, sess: SessionObject, decodes: bool, now: int, calls: seq<Call>, saveOk: bool)
    returns (served: bool)
    requires w.cookies == [] && w.wire == None && sess.maxAge == MAX_AGE
    modifies w, sess
    ensures served == (decodes && Accepts(old(sess.values), now))
    ensures !decodes ==> w.wire == Some(if saveOk then [SessionCookie(old(sess.values), -1)] else [])
    ensures sess.values == old(sess.values) || sess.values == Refreshed(old(sess.values), now)
                           || sess.values == old(sess.values).(issuedAt := Some(IssuedAt(old(sess.values), now)))
    ensures decodes && !served ==>
        w.wire == Some(if old(sess.values).user != "" && saveOk then [SessionCookie(sess.values, -1)] else [])
    ensures decodes && old(sess.values).issuedAt.Some? ==>
        w.wire.Some? && SentWithin(w.wire.value, Visit(old(sess.values), now))
    ensures served ==>
              w.wire == Some(if Due(old(sess.values), now)
                             then RefreshedWire(calls, Refreshed(old(sess.values), now), saveOk)
                             else HandlerCookies(calls[..BeforeHeader(calls)], old(sess.values)))
  {
    if !decodes {
      sess.maxAge := -1;
      if saveOk {
        w.cookies := [SessionCookie(sess.values, sess.maxAge)];
      }
      w.Send();
      return false;
    }
    if sess.values.user == "" {
      w.Send();
      return false;
    }
    var hasIssued, hasRefreshed := sess.values.issuedAt.Some?, sess.values.refreshedAt.Some?;
    var issuedAt := if hasIssued then sess.values.issuedAt.value else 0;
    var refreshedAt := if hasRefreshed then sess.values.refreshedAt.value else 0;
    if !hasIssued {
      issuedAt := Unix(now);
      sess.values := sess.values.(issuedAt := Some(issuedAt));
    }
    var idle := now - refreshedAt * SECOND;
    var maxIdle := MAX_AGE * SECOND;
    if now - issuedAt * SECOND > ABSOLUTE_MAX || (hasRefreshed && maxIdle > 0 && idle > maxIdle) {
      sess.maxAge := -1;
      if saveOk {
        w.cookies := [SessionCookie(sess.values, sess.maxAge)];
      }
      w.Send();
      return false;
    }
    if !hasIssued || idle >= REFRESH_INTERVAL {
      sess.values := sess.values.(refreshedAt := Some(Unix(now)));
      HandlerCookiesSession(calls[..BeforeHeader(calls)], sess.values);
      ServeRefreshing(w, sess, calls, saveOk);
    } else {
      HandlerCookiesSession(calls[..BeforeHeader(calls)], sess.values);
      ServePlain(w, sess, calls);
    }
    return true;
  }

  lemma {:induction false} HandlerCookiesSession(calls: seq<Call>, values: Cookie)
    ensures forall i :: 0 <= i < |HandlerCookies(calls, values)| && HandlerCookies(calls, values)[i].SessionCookie? ==>
              HandlerCookies(calls, values)[i] == SessionCookie(values, -1)
    ensures HasSession(HandlerCookies(calls, values)) ==>
        exists i :: 0 <= i < |calls| && calls[i] == ExpireSession(true)
  {
    if calls != [] {
      var n := |calls| - 1;
      HandlerCookiesSession(calls[..n], values);
      var h := HandlerCookies(calls[..n], values);
      if HasSession(HandlerCookies(calls, values)) && calls[n] != ExpireSession(true) {
        var i :| 0 <= i < |HandlerCookies(calls, values)| && HandlerCookies(calls, values)[i].SessionCookie?;
        assert h[i].SessionCookie?;
        var j :| 0 <= j < |calls[..n]| && calls[..n][j] == ExpireSession(true);
        assert calls[j] == ExpireSession(true);
      }
    }
  }

  /**
   Logout has the last word: if the handler expires the session before the header goes out, no
   cookie of the response renews it; if it does not, a refresh that can be saved adds exactly
   one, and it is the last line.
   */
  lemma LogoutIsNotUndone(calls: seq<Call>, values: Cookie, saveOk: bool)
    ensures var p, wire := BeforeHeader(calls), RefreshedWire(calls, values, saveOk);
            && ((exists i :: 0 <= i < p && calls[i].ExpireSession?) ==>
                  forall k :: 0 <= k < |wire| && wire[k].SessionCookie? ==> wire[k].maxAge == -1)
            && ((forall i :: 0 <= i < p ==> !calls[i].ExpireSession?) ==>
                  (forall k :: 0 <= k < |wire| && wire[k].SessionCookie? ==>
                     saveOk && k == |wire| - 1 && wire[k] == SessionCookie(values, MAX_AGE))
                  && (saveOk ==> wire != [] && wire[|wire| - 1].SessionCookie?))
  {
    var p := BeforeHeader(calls);
    var before := HandlerCookies(calls[..p], values);
    HandlerCookiesSession(calls[..p], values);
    if exists i :: 0 <= i < p && calls[i].ExpireSession? {
      var i :| 0 <= i < p && calls[i].ExpireSession?;
      assert calls[..p][i].ExpireSession?;
    }
  }

  /**
   handleLogin: the session keeps its values and gets a new state and return path; when the
   cookie does not fit with the path it is saved without it. random is the state drawn, if the
   random source worked.
   */
  method HandleLogin(w: ResponseWriter, sess: SessionObject, random: Option<string>, next: Option<string>,
                     fits: Cookie -> bool, ghost now: int) returns (ok: bool)
    requires w.cookies == []
    modifies w`cookies, sess`values
    ensures ok <==> random.Some? && exists n :: (n == next || n == None) &&
                                                fits(old(sess.values).(state := random, next := n))
    ensures ok ==> w.cookies == [SessionCookie(sess.values, sess.maxAge)]
                   && sess.values == old(sess.values).(state := random, next := sess.values.next)
                   && (fits(old(sess.values).(state := random, next := next)) ==> sess.values.next == next)
    ensures !ok ==> w.cookies == []
    ensures random.Some? ==> SentWithin(w.cookies, SignIn(old(sess.values), now, random.value, next))
  {
    if random.None? {
      return false;
    }
    sess.values := sess.values.(state := random, next := next);
    if !fits(sess.values) {
      var hadNext := sess.values.next.Some?;
      sess.values := sess.values.(next := None);
      if !hadNext {
        return false;
      }
      if !fits(sess.values) {
        return false;
      }
    }
    w.cookies := [SessionCookie(sess.values, sess.maxAge)];
    return true;
  }

  /**
   The session part of handleCallback: user is who GitHub says signed in, if the exchange and
   the membership check went well. The old cookie is expired and the new one starts from
   nothing: neither state nor return path nor any timestamp carries over.
   */
  method HandleCallback(w: ResponseWriter, sess: SessionObject, state: string, user: Option<string>, now: int,
                        expireOk: bool, saveOk: bool)
    returns (ok: bool)
    requires w.cookies == []
    modifies w`cookies, sess`maxAge
    ensures var signedIn := state != "" && sess.values.state == Some(state) && user.Some?;
            && (ok <==> signedIn && expireOk && saveOk)
            && (w.cookies != [] <==> signedIn && expireOk)
            && (w.cookies != [] ==> w.cookies[0] == SessionCookie(sess.values, -1))
            && (ok ==> w.cookies[1..] == [SessionCookie(LoginCookie(user.value, now), MAX_AGE)])
            && (!ok ==> |w.cookies| <= 1)
  {
    var expected := if sess.values.state.Some? then sess.values.state.value else "";
    if expected == "" || state == "" || expected != state {
      return false;
    }
    if user.None? {
      return false;
    }
    sess.maxAge := -1;
    if !expireOk {
      return false;
    }
    w.cookies := w.cookies + [SessionCookie(sess.values, sess.maxAge)];
    var loginAt := Unix(now);
    var values := Cookie(user.value, Some(loginAt), Some(loginAt), None, None);
    if !saveOk {
      return false;
    }
    w.cookies := w.cookies + [SessionCookie(values, MAX_AGE)];
    return true;
  }

  /**
   handleLogout, behind authMiddleware: the handler expires the session and sends its header, so a
   served logout never renews the cookie, whether or not a refresh was due.
   */
  method HandleLogout(w: ResponseWriter, sess: SessionObject, decodes: bool, now: int, expireOk: bool, saveOk: bool)
    returns (served: bool)
    requires w.cookies == [] && w.wire == None && sess.maxAge == MAX_AGE
    modifies w, sess
    ensures served == (decodes && Accepts(old(sess.values), now)) && w.wire.Some?
    ensures served ==> forall i :: 0 <= i < |w.wire.value| && w.wire.value[i].SessionCookie? ==>
                                     w.wire.value[i].maxAge == -1
    ensures served && expireOk ==> HasSession(w.wire.value)
    ensures decodes && old(sess.values).issuedAt.Some? ==> SentWithin(w.wire.value, Logout(old(sess.values), now))
  {
    ghost var before, renewed := sess.values, Refreshed(sess.values, now);
    var calls := [ExpireSession(expireOk), WriteHeader];
    served := AuthMiddleware(w, sess, decodes, now, calls, saveOk);
    LogoutCookies(calls, expireOk, before);
    LogoutCookies(calls, expireOk, renewed);
    LogoutIsNotUndone(calls, renewed, saveOk);
    if served && expireOk {
      assert w.wire.value[0].SessionCookie?;
    }
  }

  lemma LogoutCookies(calls: seq<Call>, expireOk: bool, values: Cookie)
    requires calls == [ExpireSession(expireOk), WriteHeader]
    ensures BeforeHeader(calls) == 1 && calls[0].ExpireSession?
    ensures HandlerCookies(calls[..1], values) == if expireOk then [SessionCookie(values, -1)] else []
  {
    assert calls[1..][0] == WriteHeader;
    assert calls[..1] == [ExpireSession(expireOk)];
    assert calls[..1][..0] == [];
  }

  // ---- Every run of a client ----

  /** The cookies a login issues. */
  function LoginCookie(user: string, login: int): Cookie {
    Cookie(user, Some(Unix(login)), Some(Unix(login)), None, None)
  }

  /**
   What a client can do with a cookie it has: visit a protected page, log out, or start to sign in
   again, which saves the same session with a new state and return path.
   */
  datatype Event =
    | Visit(cookie: Cookie, at: int)
    | Logout(cookie: Cookie, at: int)
    | SignIn(cookie: Cookie, at: int, state: string, next: Option<string>)

  /** The values of every session cookie an event can bring the client, expiring ones included. */
  function Received(e: Event): set<Cookie>
    decreases e.Logout?
  {
    match e
    case Visit(c, at) => {c} + if Accepts(c, at) && Due(c, at) then {Refreshed(c, at)} else {}
    case Logout(c, at) => Received(Visit(c, at))
    case SignIn(c, _, state, next) =>
      {c.(state := Some(state), next := next), c.(state := Some(state), next := None)}
  }

  /** Every session cookie among some Set-Cookie lines is one the event can bring. */
  ghost predicate SentWithin(cookies: seq<SetCookie>, e: Event) {
    forall k :: 0 <= k < |cookies| && cookies[k].SessionCookie? ==> cookies[k].values in Received(e)
  }

  /** A run from time since on: any cookie ever received may be used, and time does not run backwards. */
  ghost predicate IsRun(jar: set<Cookie>, since: int, run: seq<Event>)
    decreases |run|
  {
    run == [] || (run[0].cookie in jar && since <= run[0].at && IsRun(jar + Received(run[0]), run[0].at, run[1..]))
  }

  function JarAfter(jar: set<Cookie>, run: seq<Event>): set<Cookie>
    decreases |run|
  {
    if run == [] then jar else JarAfter(jar + Received(run[0]), run[1..])
  }

  /** A cookie of this login, last refreshed at a time not later than now. */
  predicate OfLogin(c: Cookie, user: string, login: int, now: int) {
    && c.user == user && c.issuedAt == Some(Unix(login))
    && c.refreshedAt.Some? && Unix(login) <= c.refreshedAt.value <= Unix(now)
  }

  ghost predicate AllOfLogin(jar: set<Cookie>, user: string, login: int, now: int) {
    forall c :: c in jar ==> OfLogin(c, user, login, now)
  }

  lemma {:induction false} JarOfLogin(jar: set<Cookie>, user: string, login: int, since: int, run: seq<Event>)
    requires login <= since && IsRun(jar, since, run) && AllOfLogin(jar, user, login, since)
    ensures AllOfLogin(JarAfter(jar, run), user, login, if run == [] then since else run[|run| - 1].at)
    decreases |run|
  {
    if run != [] {
      var e := run[0];
      assert AllOfLogin(jar + Received(e), user, login, e.at);
      JarOfLogin(jar + Received(e), user, login, e.at, run[1..]);
    }
  }

  /**
   The safety of a login. In every run that may use any cookie ever received from it, all of
   them carry the login's time, and no visit is accepted more than twelve hours after the
   login or more than an hour after the cookie used was refreshed.
   */
  lemma EveryRun(user: string, login: int, run: seq<Event>, k: nat)
    requires IsRun({LoginCookie(user, login)}, login, run) && k < |run|
    ensures AllOfLogin(JarAfter({LoginCookie(user, login)}, run), user, login, run[|run| - 1].at)
    ensures OfLogin(run[k].cookie, user, login, run[k].at)
    ensures !run[k].SignIn? && Accepts(run[k].cookie, run[k].at) ==>
              && run[k].at - login <= 43_200_000_000_000
              && run[k].at - run[k].cookie.refreshedAt.value * 1_000_000_000 <= 3_600_000_000_000
  {
    JarOfLogin({LoginCookie(user, login)}, user, login, login, run);
    UsedOfLogin({LoginCookie(user, login)}, user, login, login, run, k);
  }

  lemma {:induction false} UsedOfLogin(jar: set<Cookie>, user: string, login: int, since: int, run: seq<Event>, k: nat)
    requires login <= since && IsRun(jar, since, run) && AllOfLogin(jar, user, login, since) && k < |run|
    ensures login <= run[k].at && OfLogin(run[k].cookie, user, login, run[k].at)
    decreases |run|
  {
    var e := run[0];
    if k > 0 {
      assert AllOfLogin(jar + Received(e), user, login, e.at);
      UsedOfLogin(jar + Received(e), user, login, e.at, run[1..], k - 1);
    }
  }

  lemma {:induction false} JarGrows(jar: set<Cookie>, run: seq<Event>, k: nat)
    requires k <= |run|
    ensures jar <= JarAfter(jar, run) && JarAfter(jar, run[..k]) <= JarAfter(jar, run)
    decreases |run|
  {
    if run != [] {
      JarGrows(jar + Received(run[0]), run[1..], if k == 0 then 0 else k - 1);
      if k > 0 {
        assert run[..k][1..] == run[1..][..k - 1];
      }
    }
  }

  lemma {:induction false} RunGoesOn(jar: set<Cookie>, since: int, run: seq<Event>, e: Event)
    requires IsRun(jar, since, run) && e.cookie in JarAfter(jar, run)
    requires e.at >= if run == [] then since else run[|run| - 1].at
    ensures IsRun(jar, since, run + [e])
    decreases |run|
  {
    if run == [] {
      assert [e][1..] == [];
      assert run + [e] == [e];
    } else {
      RunGoesOn(jar + Received(run[0]), run[0].at, run[1..], e);
      assert (run + [e])[1..] == run[1..] + [e];
    }
  }

  /**
   Logging out revokes nothing. A cookie the client had received from its login before some logout can
   still be used at any time after it, and is accepted exactly as long as its own age allows: until
   twelve hours after the login and 3600 s after its refresh.
   */
  lemma LogoutRevokesNothing(user: string, login: int, run: seq<Event>, k: nat, c: Cookie, at: int)
    requires user != "" && IsRun({LoginCookie(user, login)}, login, run)
    requires k < |run| && run[k].Logout? && c in JarAfter({LoginCookie(user, login)}, run[..k])
    requires at >= run[|run| - 1].at
    ensures IsRun({LoginCookie(user, login)}, login, run + [Visit(c, at)])
    ensures c.refreshedAt.Some?
    ensures Accepts(c, at) <==> at <= Unix(login) * SECOND + ABSOLUTE_MAX
                                && at <= (c.refreshedAt.value + MAX_AGE) * SECOND
  {
    var jar := {LoginCookie(user, login)};
    JarGrows(jar, run, k);
    JarOfLogin(jar, user, login, login, run);
    RunGoesOn(jar, login, run, Visit(c, at));
  }

  /** A client signs in, logs out, and a second later comes back with the cookie it kept. */
  lemma KeptCookieAfterLogout(user: string, login: int)
    requires user != ""
    ensures var c := LoginCookie(user, login);
            IsRun({c}, login, [Logout(c, login), Visit(c, login + SECOND)]) && Accepts(c, login + SECOND)
  {
    var c := LoginCookie(user, login);
    var run := [Logout(c, login), Visit(c, login + SECOND)];
    assert run[1..][1..] == [];
    assert run[1..][0] == run[1];
    assert IsRun({c} + Received(run[0]), login, run[1..]);
  }

  // ---- A client that keeps using its newest cookie ----

  /** One nanosecond more than 55 minutes: the longest gap that is always safe. */
  const LONGEST_GAP := MAX_AGE * SECOND - REFRESH_INTERVAL + 1

  /** The newest cookie after visits at the given times, when every refresh can be saved. */
  function Newest(c: Cookie, times: seq<int>): Cookie
    decreases |times|
  {
    if times == [] then c
    else Newest(if Accepts(c, times[0]) && Due(c, times[0]) then Refreshed(c, times[0]) else c, times[1..])
  }

  ghost predicate Spaced(since: int, times: seq<int>, gap: int) {
    && (times != [] ==> since <= times[0] <= since + gap)
    && (forall k :: 0 < k < |times| ==> times[k - 1] <= times[k] <= times[k - 1] + gap)
  }

  /**
   A client that lets no more than LONGEST_GAP pass between its visits, and uses its newest cookie,
   stays signed in until twelve hours after the login.
   */
  lemma {:induction false} StaysSignedIn(c: Cookie, since: int, times: seq<int>, k: nat)
    requires c.user != "" && c.issuedAt.Some? && c.refreshedAt.Some?
    requires Idle(c, since) < REFRESH_INTERVAL
    requires Spaced(since, times, LONGEST_GAP) && k < |times|
    requires times[k] <= c.issuedAt.value * SECOND + ABSOLUTE_MAX
    ensures Accepts(Newest(c, times[..k]), times[k])
    decreases |times|
  {
    if k > 0 {
      var t := times[0];
      var c' := if Accepts(c, t) && Due(c, t) then Refreshed(c, t) else c;
      SpacedOrder(since, times, k);
      assert Accepts(c, t);
      assert times[..k][0] == t && times[..k][1..] == times[1..][..k - 1];
      assert Spaced(t, times[1..], LONGEST_GAP);
      StaysSignedIn(c', t, times[1..], k - 1);
    }
  }

  lemma {:induction false} SpacedOrder(since: int, times: seq<int>, k: nat)
    requires Spaced(since, times, LONGEST_GAP) && k < |times|
    ensures times[0] <= times[k]
    decreases k
  {
    if k > 0 {
      SpacedOrder(since, times, k - 1);
    }
  }

  /** The login cookie itself satisfies what StaysSignedIn asks of a cookie. */
  lemma FreshLogin(user: string, login: int)
    ensures Idle(LoginCookie(user, login), login) < REFRESH_INTERVAL
    ensures login - SECOND < LoginCookie(user, login).issuedAt.value * SECOND <= login
  {
  }

  /**
   LONGEST_GAP is as long as a gap may be, to the nanosecond: a visit just too early for a refresh,
   followed by any longer gap, ends the session although the twelve hours are not over.
   */
  lemma LongerGapsSignOut(user: string, s: int, gap: int)
    requires user != "" && gap > LONGEST_GAP
    ensures var login := s * SECOND;
            var first := login + REFRESH_INTERVAL - 1;
            && Accepts(LoginCookie(user, login), first)
            && Newest(LoginCookie(user, login), [first]) == LoginCookie(user, login)
            && !Accepts(Newest(LoginCookie(user, login), [first]), first + gap)
  {
    var login := s * SECOND;
    assert Unix(login) == s;
    assert Newest(LoginCookie(user, login), []) == LoginCookie(user, login);
  }
}
