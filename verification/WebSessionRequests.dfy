/** What a request does to the stored sessions: load or create, run the handler, persist
    (internal/ui/web_session_middleware.go), and logging in (internal/ui/auth.go). Requests of
    one browser come one after the other. */
module WebSessionRequests {
  import opened Common
  import opened WebSessions

  // ----- Cookies -----

  /** strings.Cut(s, ".") */
  function Cut(s: string): Option<(string, string)> {
    if s == [] then None
    else if s[0] == '.' then Some(("", s[1..]))
    else match Cut(s[1..])
      case None => None
      case Some((before, after)) => Some(([s[0]] + before, after))
  }

  function CookieValue(id: string, secret: string): string { id + "." + secret }

  /** The session a cookie opens. */
  function Resolve(rows: map<string, Row>, cookie: string): Option<string> {
    match Cut(cookie)
    case None => None
    case Some((id, secret)) =>
      if id != "" && secret != "" && id in rows && rows[id].secretHash == Sha256(secret) then Some(id) else None
  }

  lemma {:induction false} CutJoin(id: string, secret: string)
    requires '.' !in id
    ensures Cut(CookieValue(id, secret)) == Some((id, secret))
  {
    var s := CookieValue(id, secret);
    if id == [] {
      assert s[1..] == secret;
    } else {
      assert s[0] == id[0] && s[1..] == CookieValue(id[1..], secret);
      CutJoin(id[1..], secret);
      assert [id[0]] + id[1..] == id;
    }
  }

  /** Cut splits at the first dot, and only then. */
  lemma {:induction false} CutFindsTheFirstDot(s: string)
    ensures Cut(s).None? <==> '.' !in s
    ensures Cut(s).Some? ==> s == Cut(s).value.0 + "." + Cut(s).value.1 && '.' !in Cut(s).value.0
  {
    if s != [] {
      assert s == [s[0]] + s[1..];
      if s[0] != '.' {
        CutFindsTheFirstDot(s[1..]);
      }
    }
  }

  /** The cookie names row id together with the secret whose digest that row stores. */
  ghost predicate Knows(rows: map<string, Row>, cookie: string, id: string) {
    && '.' !in id && id != "" && id in rows
    && exists secret :: cookie == id + "." + secret && secret != "" && rows[id].secretHash == Sha256(secret)
  }

  /** Two texts around a dot. */
  ghost predicate HasBothParts(cookie: string) {
    exists id, secret :: cookie == id + "." + secret && '.' !in id && id != "" && secret != ""
  }

  lemma {:induction false} ResolveIsKnows(rows: map<string, Row>, cookie: string)
    ensures forall id :: Resolve(rows, cookie) == Some(id) <==> Knows(rows, cookie, id)
    ensures LookedUp(cookie) <==> HasBothParts(cookie)
  {
    CutFindsTheFirstDot(cookie);
    forall id, secret | '.' !in id && cookie == id + "." + secret ensures Cut(cookie) == Some((id, secret)) {
      CutJoin(id, secret);
    }
  }

  /** A cookie opens the row it names if its secret is the one that was hashed, and nothing
      otherwise. */
  lemma {:induction false} CookieOpensExactlyWhen(rows: map<string, Row>, id: string, secret: string)
    requires '.' !in id
    ensures Resolve(rows, id + "." + secret) ==
            if id != "" && secret != "" && id in rows && rows[id].secretHash == Sha256(secret) then Some(id) else None
  {
    CutJoin(id, secret);
  }

  /** The texts that rand.Text draws: non-empty and over letters and digits. */
  predicate GoodName(s: string) { s != "" && '.' !in s }

  // ----- A handler's steps -----

  datatype Step =
    | Do(call: Call)
    | Authenticate(user: User, newID: string, newSecret: string, storeFails: bool)

  datatype Memory = Memory(id: string, secretHash: Digest, userAgent: string, content: Content, dirty: bool)

  /** A running request: the table, the session in memory, the last Set-Cookie header, and the
      messages handed out so far. */
  datatype Live = Live(rows: map<string, Row>, mem: Memory, setCookie: Option<string>, shown: seq<(string, string)>)

  function RowOfMemory(m: Memory): Row { Row(m.secretHash, m.userAgent, m.content) }

  function After(s: Live, step: Step): Live {
    match step
    case Do(call) =>
      s.(mem := s.mem.(content := Changed(s.mem.content, call), dirty := s.mem.dirty || Touches(s.mem.content, call)),
         shown := s.shown + HandedOut(s.mem.content, call))
    case Authenticate(user, newID, newSecret, storeFails) =>
      var m := s.mem.(id := newID, secretHash := Sha256(newSecret),
                        content := Changed(s.mem.content, SetUser(Some(user))), dirty := true);
      if !storeFails && CanRotate(s.rows, s.mem.id, newID)
      then Live((s.rows - {s.mem.id})[newID := RowOfMemory(m).(userAgent := s.rows[s.mem.id].userAgent)],
                m, Some(CookieValue(newID, newSecret)), s.shown)
      else s.(mem := m)
  }

  function AfterAll(s: Live, steps: seq<Step>): Live
    decreases |steps|
  {
    if steps == [] then s else AfterAll(After(s, steps[0]), steps[1..])
  }

  /** What the middleware does when the handler is done. */
  function Persisted(s: Live, updateFails: bool): map<string, Row> {
    if s.mem.dirty && !updateFails && s.mem.id != "" && s.mem.id in s.rows
    then s.rows[s.mem.id := s.rows[s.mem.id].(content := s.mem.content)]
    else s.rows
  }

  // ----- A request -----

  datatype Request = Request(
    isPublic: bool, userAgent: string, newID: string, newSecret: string, csrf: string,
    steps: seq<Step>, loadFails: bool, createFails: bool, updateFails: bool)

  /** ran says whether the handler was reached. */
  datatype Outcome = Outcome(rows: map<string, Row>, setCookie: Option<string>, shown: seq<(string, string)>, ran: bool)

  /** The table and the session in memory when the session is known, if no error stops it. */
  function Started(rows: map<string, Row>, cookie: string, req: Request): Option<Live> {
    match Resolve(rows, cookie)
    case Some(id) =>
      if req.loadFails then None
      else Some(Live(rows, Memory(id, rows[id].secretHash, rows[id].userAgent, rows[id].content, false), None, []))
    case None =>
      if LookedUp(cookie) && req.loadFails then None
      else if req.createFails || req.newID in rows then None
      else
        var m := Memory(req.newID, Sha256(req.newSecret), req.userAgent, NewContent(req.csrf), false);
        Some(Live(rows[req.newID := RowOfMemory(m)], m, Some(CookieValue(req.newID, req.newSecret)), []))
  }

  /** The cookie has the form that makes the middleware query the table. */
  predicate LookedUp(cookie: string) {
    match Cut(cookie) case None => false case Some((id, secret)) => id != "" && secret != ""
  }

  function Handled(rows: map<string, Row>, cookie: string, req: Request): Outcome {
    match Started(rows, cookie, req)
    case None => Outcome(rows, None, [], false)
    case Some(s) =>
      if s.mem.content.userID.None? && !req.isPublic then Outcome(s.rows, s.setCookie, [], false)
      else
        var t := AfterAll(s, req.steps);
        Outcome(Persisted(t, req.updateFails), t.setCookie, t.shown, true)
  }

  ghost function Seen(store: Storage, session: WebSession, setCookie: Option<string>, shown: seq<(string, string)>): Live
    reads store, session
  {
    Live(store.rows, Memory(session.id, session.secretHash, session.userAgent, session.Snapshot(), session.dirty),
         setCookie, shown)
  }

  class Middleware {
    const store: Storage

    constructor (store: Storage)
      ensures this.store == store
    {
      this.store := store;
    }

    /** ok is false for an error page. */
    method LoadWebSessionFromCookie(cookie: string, loadFails: bool) returns (ok: bool, session: WebSession?)
      ensures ok <==> !(LookedUp(cookie) && loadFails)
      ensures session != null <==> ok && Resolve(store.rows, cookie).Some?
      ensures session != null ==> fresh(session) && Resolve(store.rows, cookie) == Some(session.id)
      ensures '.' !in cookie ==> ok && session == null
      ensures forall id, secret :: cookie == id + "." + secret && '.' !in id ==>
                (ok <==> !(id != "" && secret != "" && loadFails))
      ensures forall id, secret :: cookie == id + "." + secret && '.' !in id ==>
                (session != null <==>
                   ok && id != "" && secret != "" && id in store.rows && store.rows[id].secretHash == Sha256(secret))
      ensures forall id, secret :: cookie == id + "." + secret && '.' !in id && session != null ==> session.id == id
      ensures session != null ==> session.id in store.rows
      ensures session != null ==> session.secretHash == store.rows[session.id].secretHash && !session.dirty
      ensures session != null ==> session.userAgent == store.rows[session.id].userAgent
      ensures session != null ==> Content(session.userID, session.state) == store.rows[session.id].content
    {
      CutFindsTheFirstDot(cookie);
      forall id, secret | cookie == id + "." + secret && '.' !in id ensures Cut(cookie) == Some((id, secret)) {
        CutJoin(id, secret);
      }
      session := null;
      if cookie == "" {
        return true, null;
      }
      var parts := Cut(cookie);
      if parts.None? || parts.value.0 == "" || parts.value.1 == "" {
        return true, null;
      }
      if loadFails {
        return false, null;
      }
      session := store.WebSessionByID(parts.value.0);
      if session == null || !session.VerifySecret(parts.value.1) {
        return true, null;
      }
      ok := true;
    }

    /** authenticateWebSession: the cookie is only set once the rotated session is stored. */
    method AuthenticateWebSession(session: WebSession, user: User, newID: string, newSecret: string, storeFails: bool)
      returns (setCookie: Option<string>)
      modifies store, session
      ensures var before := old(Seen(store, session, None, []));
              var after := After(before, Step.Authenticate(user, newID, newSecret, storeFails));
              Seen(store, session, None, []) == after.(setCookie := None) && setCookie == after.setCookie
      ensures session.id == newID && session.secretHash == Sha256(newSecret) && session.userID == Some(user.id)
      ensures session.state == old(session.state).(language := user.language, theme := user.theme)
      ensures setCookie.Some? <==>
                && !storeFails && old(session.id) != "" && newID != ""
                && old(session.id in store.rows) && (newID == old(session.id) || newID !in old(store.rows))
      ensures setCookie.None? ==> store.rows == old(store.rows)
      ensures setCookie.Some? ==> setCookie.value == newID + "." + newSecret
      ensures setCookie.Some? ==>
                store.rows - {newID} == old(store.rows - {session.id}) && newID in store.rows
                && store.rows[newID] == Row(Sha256(newSecret), old(store.rows[session.id].userAgent), session.Snapshot())
    {
      session.SetUser(Some(user));
      var oldID := session.Rotate(newID, newSecret);
      var ok := store.RotateWebSession(oldID, session, storeFails);
      if !ok {
        return None;
      }
      setCookie := Some(CookieValue(session.id, newSecret));
    }

    method RunHandler(session: WebSession, steps: seq<Step>, cookieSoFar: Option<string>)
      returns (setCookie: Option<string>, shown: seq<(string, string)>)
      modifies store, session
      ensures Seen(store, session, setCookie, shown) == AfterAll(old(Seen(store, session, cookieSoFar, [])), steps)
    {
      setCookie, shown := cookieSoFar, [];
      ghost var start := Seen(store, session, setCookie, shown);
      for i := 0 to |steps|
        invariant AfterAll(Seen(store, session, setCookie, shown), steps[i..]) == AfterAll(start, steps)
      {
        assert steps[i..][0] == steps[i] && steps[i..][1..] == steps[i + 1..];
        match steps[i] {
          case Do(call) =>
            var messages := session.Perform(call);
            shown := shown + messages;
          case Authenticate(user, newID, newSecret, storeFails) =>
            var c := AuthenticateWebSession(session, user, newID, newSecret, storeFails);
            if c.Some? { setCookie := c; }
        }
      }
    }

    method Handle(cookie: string, req: Request)
      returns (setCookie: Option<string>, shown: seq<(string, string)>, ran: bool)
      modifies store
      ensures Outcome(store.rows, setCookie, shown, ran) == Handled(old(store.rows), cookie, req)
    {
      setCookie, shown, ran := None, [], false;
      var ok, loaded := LoadWebSessionFromCookie(cookie, req.loadFails);
      if !ok {
        return;
      }
      var session: WebSession;
      if loaded == null {
        session := new WebSession(req.userAgent, req.newID, req.newSecret, req.csrf);
        ok := store.CreateWebSession(session, req.createFails);
        if !ok {
          return;
        }
        setCookie := Some(CookieValue(session.id, req.newSecret));
      } else {
        session := loaded;
      }
      assert Started(old(store.rows), cookie, req) == Some(Seen(store, session, setCookie, []));
      if session.userID.None? && !req.isPublic {
        return;
      }
      setCookie, shown := RunHandler(session, req.steps, setCookie);
      ran := true;
      if session.dirty {
        // a failure here is only logged
        var updated := store.UpdateWebSession(session, req.updateFails);
      }
    }
  }
}
