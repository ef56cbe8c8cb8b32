/** Serial requests simulate one session held in memory: nothing that a handler changes is lost,
    logging in moves the session to a new identity, and messages are shown once. */
module WebSessionProperties {
  import opened Common
  import opened WebSessions
  import opened WebSessionRequests

  // ----- Requests that meet no error, and names that are fresh -----

  predicate NoFaults(req: Request) {
    && !req.loadFails && !req.createFails && !req.updateFails
    && forall s :: s in req.steps && s.Authenticate? ==> !s.storeFails
  }

  /** Every identity a handler draws is well formed and not in use. */
  ghost predicate FreshSteps(s: Live, steps: seq<Step>)
    decreases |steps|
  {
    steps == [] ||
    (&& (steps[0].Authenticate? ==> GoodName(steps[0].newID) && steps[0].newSecret != "" && steps[0].newID !in s.rows)
     && FreshSteps(After(s, steps[0]), steps[1..]))
  }

  ghost predicate FreshRequest(rows: map<string, Row>, cookie: string, req: Request) {
    && (Resolve(rows, cookie).None? ==> GoodName(req.newID) && req.newSecret != "" && req.newID !in rows)
    && (Started(rows, cookie, req).Some? ==> FreshSteps(Started(rows, cookie, req).value, req.steps))
  }

  /** The cookie the browser sends next. */
  function Jar(cookie: string, setCookie: Option<string>): string {
    if setCookie.Some? then setCookie.value else cookie
  }

  // ----- The reference: one content in memory -----

  function StepContent(c: Content, step: Step): Content {
    match step
    case Do(call) => Changed(c, call)
    case Authenticate(user, _, _, _) => Changed(c, SetUser(Some(user)))
  }

  function ContentAfter(c: Content, steps: seq<Step>): Content
    decreases |steps|
  {
    if steps == [] then c else ContentAfter(StepContent(c, steps[0]), steps[1..])
  }

  /** The messages that steps on one content hand out. */
  function Shown(c: Content, steps: seq<Step>): seq<(string, string)>
    decreases |steps|
  {
    if steps == [] then [] else StepShown(c, steps[0]) + Shown(StepContent(c, steps[0]), steps[1..])
  }

  function StepShown(c: Content, step: Step): seq<(string, string)> {
    if step.Do? then HandedOut(c, step.call) else []
  }

  // ----- Simulation -----

  /** The session in memory has a row; without the dirty flag the row equals it; the browser's
      cookie opens that row. */
  ghost predicate Attached(s: Live, cookie: string) {
    && s.mem.id != "" && s.mem.id in s.rows
    && s.rows[s.mem.id].secretHash == s.mem.secretHash
    && s.rows[s.mem.id].userAgent == s.mem.userAgent
    && (!s.mem.dirty ==> s.rows[s.mem.id].content == s.mem.content)
    && Resolve(s.rows, Jar(cookie, s.setCookie)) == Some(s.mem.id)
  }

  lemma {:induction false} StepKeepsAttached(s: Live, cookie: string, step: Step)
    requires Attached(s, cookie) && FreshSteps(s, [step]) && (step.Authenticate? ==> !step.storeFails)
    ensures var t := After(s, step);
            && Attached(t, cookie)
            && t.rows - {t.mem.id} == s.rows - {s.mem.id} && |t.rows| == |s.rows|
  {
    var t := After(s, step);
    match step
    case Do(call) =>
      ChangesSetDirty(s.mem.content, call);
    case Authenticate(user, newID, newSecret, _) =>
      CutJoin(newID, newSecret);
      assert t.rows - {newID} == s.rows - {s.mem.id};
      RowCount(s.rows, s.mem.id);
      RowCount(t.rows, newID);
  }

  lemma RowCount<V>(rows: map<string, V>, id: string)
    requires id in rows
    ensures |rows - {id}| == |rows| - 1
  {
    assert (rows - {id}).Keys == rows.Keys - {id};
    assert |rows.Keys| == |rows| && |(rows - {id}).Keys| == |rows - {id}|;
  }

  lemma {:induction false} StepsKeepAttached(s: Live, cookie: string, steps: seq<Step>)
    requires Attached(s, cookie) && FreshSteps(s, steps)
    requires forall st :: st in steps && st.Authenticate? ==> !st.storeFails
    ensures var t := AfterAll(s, steps);
            Attached(t, cookie) && t.rows - {t.mem.id} == s.rows - {s.mem.id} && |t.rows| == |s.rows|
    decreases |steps|
  {
    if steps != [] {
      assert steps[0] in steps && FreshSteps(After(s, steps[0]), []) && [steps[0]][1..] == [];
      assert FreshSteps(s, [steps[0]]);
      StepKeepsAttached(s, cookie, steps[0]);
      StepsKeepAttached(After(s, steps[0]), cookie, steps[1..]);
    }
  }

  lemma StepActsInMemory(s: Live, step: Step)
    ensures After(s, step).mem.content == StepContent(s.mem.content, step)
    ensures After(s, step).shown == s.shown + StepShown(s.mem.content, step)
  {
  }

  /** In memory the steps do what they do to the one content, whatever the table does. */
  lemma {:induction false} StepsActInMemory(s: Live, steps: seq<Step>)
    ensures var t := AfterAll(s, steps);
            t.mem.content == ContentAfter(s.mem.content, steps) && t.shown == s.shown + Shown(s.mem.content, steps)
    decreases |steps|
  {
    if steps != [] {
      StepActsInMemory(s, steps[0]);
      StepsActInMemory(After(s, steps[0]), steps[1..]);
    }
  }

  /** The content a request starts from. */
  function StartContent(rows: map<string, Row>, cookie: string, req: Request): Content {
    match Resolve(rows, cookie)
    case Some(id) => rows[id].content
    case None => NewContent(req.csrf)
  }

  /** The id of the session that a request works on: found by the cookie or newly created. */
  function StartID(rows: map<string, Row>, cookie: string, req: Request): string {
    match Resolve(rows, cookie) case Some(id) => id case None => req.newID
  }

  lemma StartIsAttached(rows: map<string, Row>, cookie: string, req: Request)
    requires NoFaults(req) && FreshRequest(rows, cookie, req)
    ensures var s := Started(rows, cookie, req);
            && s.Some? && Attached(s.value, cookie) && s.value.shown == []
            && s.value.mem.content == StartContent(rows, cookie, req) && !s.value.mem.dirty
            && s.value.mem.id == StartID(rows, cookie, req)
            && s.value.rows - {s.value.mem.id} == rows - {s.value.mem.id}
            && (Resolve(rows, cookie).Some? ==> s.value.rows == rows)
            && (Resolve(rows, cookie).None? ==> s.value.mem.id !in rows && |s.value.rows| == |rows| + 1)
  {
    if Resolve(rows, cookie).None? {
      CutJoin(req.newID, req.newSecret);
      OneRowMore(rows, req.newID, Started(rows, cookie, req).value.rows);
    }
  }

  lemma OneRowMore<V>(rows: map<string, V>, id: string, more: map<string, V>)
    requires id !in rows && id in more && more == rows[id := more[id]]
    ensures more - {id} == rows - {id} == rows && |more| == |rows| + 1
  {
    RowCount(more, id);
  }

  /** The handler is reached. */
  predicate Admitted(c: Content, req: Request) { c.userID.Some? || req.isPublic }

  /** The steps that a request takes on content c. */
  function StepsTaken(c: Content, req: Request): seq<Step> { if Admitted(c, req) then req.steps else [] }

  lemma PersistKeepsIdentity(t: Live, cookie: string)
    requires Attached(t, cookie)
    ensures var rows := Persisted(t, false);
            && t.mem.id in rows && rows[t.mem.id] == RowOfMemory(t.mem)
            && Resolve(rows, Jar(cookie, t.setCookie)) == Some(t.mem.id)
            && rows - {t.mem.id} == t.rows - {t.mem.id} && |rows| == |t.rows|
  {
    var rows := Persisted(t, false);
    assert rows.Keys == t.rows.Keys;
    assert |rows.Keys| == |rows| && |t.rows.Keys| == |t.rows|;
  }

  /** The row that cookie opens, and the rows besides it. */
  ghost predicate Opens(rows: map<string, Row>, cookie: string, content: Content, others: map<string, Row>) {
    var id := Resolve(rows, cookie);
    id.Some? && rows[id.value].content == content && rows - {id.value} == others
  }

  /** What Handled does once the session is known. */
  function HandledOn(s: Live, req: Request): Outcome {
    if Admitted(s.mem.content, req) then
      var t := AfterAll(s, req.steps);
      Outcome(Persisted(t, req.updateFails), t.setCookie, t.shown, true)
    else Outcome(s.rows, s.setCookie, [], false)
  }

  lemma {:induction false} HandledFromStart(s: Live, cookie: string, req: Request)
    requires NoFaults(req) && Attached(s, cookie) && !s.mem.dirty && s.shown == [] && FreshSteps(s, req.steps)
    ensures var o := HandledOn(s, req);
            Opens(o.rows, Jar(cookie, o.setCookie),
                  ContentAfter(s.mem.content, StepsTaken(s.mem.content, req)), s.rows - {s.mem.id})
    ensures var o := HandledOn(s, req);
            |o.rows| == |s.rows| && o.shown == Shown(s.mem.content, StepsTaken(s.mem.content, req))
  {
    if Admitted(s.mem.content, req) {
      StepsKeepAttached(s, cookie, req.steps);
      StepsActInMemory(s, req.steps);
      PersistKeepsIdentity(AfterAll(s, req.steps), cookie);
    }
  }

  lemma HandledIsOn(rows: map<string, Row>, cookie: string, req: Request)
    requires Started(rows, cookie, req).Some?
    ensures Handled(rows, cookie, req) == HandledOn(Started(rows, cookie, req).value, req)
  {
  }

  /** After a request without store errors the row that the browser's cookie opens equals the
      session as the handler left it in memory, no other row has changed (one is added when the
      session is created), and the handler was handed the messages that the session held. */
  lemma RequestPersistsMemory(rows: map<string, Row>, cookie: string, req: Request)
    requires NoFaults(req) && FreshRequest(rows, cookie, req)
    ensures var o := Handled(rows, cookie, req);
            var c := StartContent(rows, cookie, req);
            var steps := StepsTaken(c, req);
            && Opens(o.rows, Jar(cookie, o.setCookie), ContentAfter(c, steps), rows - {StartID(rows, cookie, req)})
            && |o.rows| == |rows| + (if Resolve(rows, cookie).None? then 1 else 0)
            && o.shown == Shown(c, steps)
  {
    StartIsAttached(rows, cookie, req);
    HandledIsOn(rows, cookie, req);
    HandledFromStart(Started(rows, cookie, req).value, cookie, req);
  }

  // ----- Runs of requests by one browser -----

  /** What a run leaves behind: the table, the browser's cookie, and all messages handed out. */
  datatype Browsed = Browsed(rows: map<string, Row>, cookie: string, shown: seq<(string, string)>)

  function Browse(rows: map<string, Row>, cookie: string, reqs: seq<Request>): Browsed
    decreases |reqs|
  {
    if reqs == [] then Browsed(rows, cookie, [])
    else
      var o := Handled(rows, cookie, reqs[0]);
      var rest := Browse(o.rows, Jar(cookie, o.setCookie), reqs[1..]);
      rest.(shown := o.shown + rest.shown)
  }

  ghost predicate FreshRun(rows: map<string, Row>, cookie: string, reqs: seq<Request>)
    decreases |reqs|
  {
    reqs == [] ||
    (&& NoFaults(reqs[0]) && FreshRequest(rows, cookie, reqs[0])
     && var o := Handled(rows, cookie, reqs[0]);
        FreshRun(o.rows, Jar(cookie, o.setCookie), reqs[1..]))
  }

  /** All steps that a run of requests takes, one after the other. */
  function AllSteps(c: Content, reqs: seq<Request>): seq<Step>
    decreases |reqs|
  {
    if reqs == [] then []
    else
      var steps := StepsTaken(c, reqs[0]);
      steps + AllSteps(ContentAfter(c, steps), reqs[1..])
  }

  lemma {:induction false} ContentAfterConcat(c: Content, a: seq<Step>, b: seq<Step>)
    ensures ContentAfter(c, a + b) == ContentAfter(ContentAfter(c, a), b)
    decreases |a|
  {
    if a == [] {
      assert a + b == b;
    } else {
      assert (a + b)[0] == a[0] && (a + b)[1..] == a[1..] + b;
      ContentAfterConcat(StepContent(c, a[0]), a[1..], b);
    }
  }

  lemma {:induction false} ShownConcat(c: Content, a: seq<Step>, b: seq<Step>)
    ensures Shown(c, a + b) == Shown(c, a) + Shown(ContentAfter(c, a), b)
    decreases |a|
  {
    if a == [] {
      assert a + b == b;
    } else {
      assert (a + b)[0] == a[0] && (a + b)[1..] == a[1..] + b;
      ShownConcat(StepContent(c, a[0]), a[1..], b);
    }
  }

  /** A browser's requests, however many and however often it logs in and out, act on its session
      and show its messages like the calls of all its handlers on one session held in memory.
      Nobody else's session changes and no row is left behind. */
  lemma {:induction false} RunsSimulateOneSession(rows: map<string, Row>, cookie: string, reqs: seq<Request>)
    requires Resolve(rows, cookie).Some? && FreshRun(rows, cookie, reqs)
    ensures var end := Browse(rows, cookie, reqs);
            var id, id' := Resolve(rows, cookie).value, Resolve(end.rows, end.cookie);
            var steps := AllSteps(rows[id].content, reqs);
            && id'.Some?
            && end.rows[id'.value].content == ContentAfter(rows[id].content, steps)
            && end.shown == Shown(rows[id].content, steps)
            && end.rows - {id'.value} == rows - {id} && |end.rows| == |rows|
    decreases |reqs|
  {
    if reqs != [] {
      var o := Handled(rows, cookie, reqs[0]);
      RequestPersistsMemory(rows, cookie, reqs[0]);
      RunsSimulateOneSession(o.rows, Jar(cookie, o.setCookie), reqs[1..]);
      var c := rows[Resolve(rows, cookie).value].content;
      var steps := StepsTaken(c, reqs[0]);
      ContentAfterConcat(c, steps, AllSteps(ContentAfter(c, steps), reqs[1..]));
      ShownConcat(c, steps, AllSteps(ContentAfter(c, steps), reqs[1..]));
    }
  }

  // ----- Who is served -----

  /** The handler runs for a cookie with the right secret, if its session is logged in or the
      route is public, and on public routes for whoever gets a new session. */
  lemma RequestIsServedExactlyWhen(rows: map<string, Row>, cookie: string, req: Request)
    ensures Handled(rows, cookie, req).ran <==>
            || (!req.loadFails && exists id :: Knows(rows, cookie, id) && (req.isPublic || rows[id].content.userID.Some?))
            || (&& req.isPublic && !req.createFails && req.newID !in rows && !(req.loadFails && HasBothParts(cookie))
                && forall id :: !Knows(rows, cookie, id))
  {
    ResolveIsKnows(rows, cookie);
    if Resolve(rows, cookie).Some? {
      assert Knows(rows, cookie, Resolve(rows, cookie).value);
    }
  }

  /** The row of a new session: no user, no messages, no flow, no preferences. */
  ghost predicate IsAnonymous(row: Row, req: Request) {
    && row.secretHash == Sha256(req.newSecret) && row.userAgent == req.userAgent && row.content.userID == None
    && row.content.state == State(req.csrf, "", "", None, None, None, "", "")
  }

  /** A wrong secret, an unknown id or a text of another form: a private request is turned away
      with a new anonymous session, and nothing else is stored or sent. */
  lemma StrangerGetsAnonymousSession(rows: map<string, Row>, cookie: string, req: Request)
    requires forall id :: !Knows(rows, cookie, id)
    requires !req.isPublic && !req.loadFails && !req.createFails && req.newID !in rows
    ensures var o := Handled(rows, cookie, req);
            && !o.ran && o.shown == [] && o.setCookie == Some(req.newID + "." + req.newSecret)
            && req.newID in o.rows && IsAnonymous(o.rows[req.newID], req) && o.rows - {req.newID} == rows
            && (GoodName(req.newID) && req.newSecret != "" ==> Knows(o.rows, o.setCookie.value, req.newID))
  {
    ResolveIsKnows(rows, cookie);
  }

  /** A request that is stopped by the store changes no row and sends no cookie. */
  lemma StoppedRequestStoresNothing(rows: map<string, Row>, cookie: string, req: Request)
    requires || (HasBothParts(cookie) && req.loadFails)
             || ((forall id :: !Knows(rows, cookie, id)) && (req.createFails || req.newID in rows))
    ensures Handled(rows, cookie, req) == Outcome(rows, None, [], false)
  {
    ResolveIsKnows(rows, cookie);
    if Resolve(rows, cookie).Some? {
      assert Knows(rows, cookie, Resolve(rows, cookie).value);
    }
  }

  /** The session in memory is none of these rows, and they are all still stored. */
  ghost predicate Apart(rows: map<string, Row>, s: Live) {
    s.mem.id !in rows && forall id :: id in rows ==> id in s.rows && s.rows[id] == rows[id]
  }

  lemma {:induction false} StepsStayApart(rows: map<string, Row>, s: Live, steps: seq<Step>)
    requires Apart(rows, s) && FreshSteps(s, steps)
    ensures Apart(rows, AfterAll(s, steps))
    decreases |steps|
  {
    if steps != [] {
      StepsStayApart(rows, After(s, steps[0]), steps[1..]);
    }
  }

  /** Whoever sends a cookie that opens nothing changes no stored session, whatever the handler
      does and whatever fails. */
  lemma StrangerTouchesNoRow(rows: map<string, Row>, cookie: string, req: Request)
    requires (forall id :: !Knows(rows, cookie, id)) && FreshRequest(rows, cookie, req)
    ensures forall id :: id in rows ==> id in Handled(rows, cookie, req).rows && Handled(rows, cookie, req).rows[id] == rows[id]
  {
    ResolveIsKnows(rows, cookie);
    if Started(rows, cookie, req).Some? {
      StepsStayApart(rows, Started(rows, cookie, req).value, req.steps);
    }
  }

  // ----- Logging in -----

  predicate OnlyCalls(steps: seq<Step>) {
    forall s :: s in steps ==> s.Do?
  }

  /** No call that binds another user or unbinds the session. */
  predicate KeepsUser(steps: seq<Step>) {
    forall s :: s in steps ==> s.Do? && !s.call.SetUser? && !s.call.ClearUser?
  }

  lemma {:induction false} UserIsKept(c: Content, steps: seq<Step>)
    requires KeepsUser(steps)
    ensures ContentAfter(c, steps).userID == c.userID
    decreases |steps|
  {
    if steps != [] {
      assert steps[0] in steps;
      UserIsKept(StepContent(c, steps[0]), steps[1..]);
    }
  }

  lemma {:induction false} CallsKeepIdentity(s: Live, steps: seq<Step>)
    requires OnlyCalls(steps)
    ensures var t := AfterAll(s, steps);
            t.rows == s.rows && t.mem.id == s.mem.id && t.mem.secretHash == s.mem.secretHash && t.setCookie == s.setCookie
    decreases |steps|
  {
    if steps != [] {
      assert steps[0] in steps;
      CallsKeepIdentity(After(s, steps[0]), steps[1..]);
    }
  }

  lemma {:induction false} AfterAllConcat(s: Live, a: seq<Step>, b: seq<Step>)
    ensures AfterAll(s, a + b) == AfterAll(AfterAll(s, a), b)
    decreases |a|
  {
    if a == [] {
      assert a + b == b;
    } else {
      assert (a + b)[0] == a[0] && (a + b)[1..] == a[1..] + b;
      AfterAllConcat(After(s, a[0]), a[1..], b);
    }
  }

  lemma GoneOpensNothing(before: map<string, Row>, after: map<string, Row>, id: string)
    requires id !in after
    ensures forall c :: Resolve(before, c) == Some(id) ==> Resolve(after, c) == None
  {
  }

  lemma CookieOpensItsId(rows: map<string, Row>, id: string, secret: string)
    requires GoodName(id) && Resolve(rows, CookieValue(id, secret)).Some?
    ensures Resolve(rows, CookieValue(id, secret)) == Some(id)
  {
    CutJoin(id, secret);
  }

  /** A successful login, also in the request that creates the session: one row remains, under
      the new id; no cookie that opened the session before opens anything now; the cookie sent
      opens the new row, which has the user. */
  lemma LoginMovesTheSession(rows: map<string, Row>, cookie: string, req: Request, pre: seq<Step>, login: Step,
                             post: seq<Step>)
    requires NoFaults(req) && FreshRequest(rows, cookie, req) && Admitted(StartContent(rows, cookie, req), req)
    requires req.steps == pre + ([login] + post) && OnlyCalls(pre) && login.Authenticate? && KeepsUser(post)
    ensures var o := Handled(rows, cookie, req);
            var id := StartID(rows, cookie, req);
            && id !in o.rows
            && (forall c :: Resolve(Started(rows, cookie, req).value.rows, c) == Some(id) ==> Resolve(o.rows, c) == None)
            && o.setCookie == Some(CookieValue(login.newID, login.newSecret))
            && Resolve(o.rows, CookieValue(login.newID, login.newSecret)) == Some(login.newID)
            && o.rows[login.newID].content.userID == Some(login.user.id)
            && o.rows - {login.newID} == rows - {id}
            && |o.rows| == |rows| + if Resolve(rows, cookie).None? then 1 else 0
  {
    var o := Handled(rows, cookie, req);
    RequestPersistsMemory(rows, cookie, req);
    LoginSteps(rows, cookie, req, pre, login, post);
    GoneOpensNothing(Started(rows, cookie, req).value.rows, o.rows, StartID(rows, cookie, req));
    CookieOpensItsId(o.rows, login.newID, login.newSecret);
    LoginBindsUser(StartContent(rows, cookie, req), pre, login, post);
  }

  lemma {:induction false} LoginBindsUser(c: Content, pre: seq<Step>, login: Step, post: seq<Step>)
    requires login.Authenticate? && KeepsUser(post)
    ensures ContentAfter(c, pre + ([login] + post)).userID == Some(login.user.id)
  {
    ContentAfterConcat(c, pre, [login] + post);
    assert ([login] + post)[1..] == post;
    UserIsKept(StepContent(ContentAfter(c, pre), login), post);
  }

  /** The table and the cookie after the steps of such a request. */
  lemma LoginSteps(rows: map<string, Row>, cookie: string, req: Request, pre: seq<Step>, login: Step, post: seq<Step>)
    requires NoFaults(req) && FreshRequest(rows, cookie, req) && Admitted(StartContent(rows, cookie, req), req)
    requires req.steps == pre + ([login] + post) && OnlyCalls(pre) && login.Authenticate? && KeepsUser(post)
    ensures Started(rows, cookie, req).Some?
    ensures var o := Handled(rows, cookie, req);
            && GoodName(login.newID) && login.newSecret != ""
            && o.setCookie == Some(CookieValue(login.newID, login.newSecret))
            && StartID(rows, cookie, req) !in o.rows
  {
    StartIsAttached(rows, cookie, req);
    var s := Started(rows, cookie, req).value;
    AfterAllConcat(s, pre, [login] + post);
    CallsKeepIdentity(s, pre);
    FreshAfter(s, pre, [login] + post);
    var atLogin := AfterAll(s, pre);
    assert ([login] + post)[0] == login && ([login] + post)[1..] == post;
    var loggedIn := After(atLogin, login);
    assert login in req.steps && CanRotate(atLogin.rows, s.mem.id, login.newID);
    CallsKeepIdentity(loggedIn, post);
  }

  /** Once a rotation has failed the session in memory has no row, and nothing that the handler
      does afterwards reaches the table. */
  lemma {:induction false} OrphanStepsChangeNothing(s: Live, steps: seq<Step>)
    requires s.mem.id !in s.rows && FreshSteps(s, steps)
    ensures var t := AfterAll(s, steps); t.rows == s.rows && t.mem.id !in t.rows && t.setCookie == s.setCookie
    decreases |steps|
  {
    if steps != [] {
      OrphanStepsChangeNothing(After(s, steps[0]), steps[1..]);
    }
  }

  /** A login whose rotation is not stored leaves every row as the request found it, whatever the
      handler does before and after: no stored session gains a user, no cookie is replaced, and
      the old cookie still opens what it opened. */
  lemma FailedLoginStoresNothing(rows: map<string, Row>, cookie: string, req: Request, pre: seq<Step>, login: Step,
                                 post: seq<Step>)
    requires FreshRequest(rows, cookie, req) && Started(rows, cookie, req).Some?
    requires Admitted(StartContent(rows, cookie, req), req)
    requires req.steps == pre + ([login] + post) && OnlyCalls(pre) && login.Authenticate? && login.storeFails
    ensures var o := Handled(rows, cookie, req);
            var s := Started(rows, cookie, req).value;
            && o.rows == s.rows && o.setCookie == s.setCookie
            && (forall id :: id in o.rows && o.rows[id].content.userID.Some? ==> id in rows && o.rows[id] == rows[id])
  {
    var s := Started(rows, cookie, req).value;
    AfterAllConcat(s, pre, [login] + post);
    CallsKeepIdentity(s, pre);
    FreshAfter(s, pre, [login] + post);
    var atLogin := AfterAll(s, pre);
    assert ([login] + post)[0] == login && ([login] + post)[1..] == post;
    OrphanStepsChangeNothing(After(atLogin, login), post);
  }

  lemma {:induction false} FreshAfter(s: Live, a: seq<Step>, b: seq<Step>)
    requires FreshSteps(s, a + b)
    ensures FreshSteps(AfterAll(s, a), b)
    decreases |a|
  {
    if a == [] {
      assert a + b == b;
    } else {
      assert (a + b)[0] == a[0] && (a + b)[1..] == a[1..] + b;
      FreshAfter(After(s, a[0]), a[1..], b);
    }
  }

  // ----- Messages -----

  function SetMessage(isError: bool, message: string): Call {
    if isError then SetErrorMessage(message) else SetSuccessMessage(message)
  }

  /** What ConsumeMessages hands out. */
  function MessageOf(c: Content, isError: bool): string {
    if isError then c.state.errorMessage else c.state.successMessage
  }

  /** No step consumes messages or sets one of this kind. */
  predicate Quiet(steps: seq<Step>, isError: bool) {
    forall s :: s in steps && s.Do? ==>
      !s.call.ConsumeMessages? && !(if isError then s.call.SetErrorMessage? else s.call.SetSuccessMessage?)
  }

  lemma {:induction false} QuietKeepsMessage(c: Content, steps: seq<Step>, isError: bool)
    requires Quiet(steps, isError)
    ensures MessageOf(ContentAfter(c, steps), isError) == MessageOf(c, isError)
    decreases |steps|
  {
    if steps != [] {
      assert steps[0] in steps;
      QuietKeepsMessage(StepContent(c, steps[0]), steps[1..], isError);
    }
  }

  lemma {:induction false} OneStep(c: Content, step: Step)
    ensures ContentAfter(c, [step]) == StepContent(c, step)
  {
    assert [step][1..] == [];
  }

  /** How many times steps consume messages. */
  function Consumed(steps: seq<Step>): nat {
    if steps == [] then 0 else (if steps[0] == Do(ConsumeMessages) then 1 else 0) + Consumed(steps[1..])
  }

  lemma {:induction false} ShownSize(c: Content, steps: seq<Step>)
    ensures |Shown(c, steps)| == Consumed(steps)
    decreases |steps|
  {
    if steps != [] {
      ShownSize(StepContent(c, steps[0]), steps[1..]);
    }
  }

  /** No step sets a message of this kind. */
  predicate SetsNone(steps: seq<Step>, isError: bool) {
    forall s :: s in steps && s.Do? ==> !(if isError then s.call.SetErrorMessage? else s.call.SetSuccessMessage?)
  }

  function TextOf(messages: (string, string), isError: bool): string { if isError then messages.1 else messages.0 }

  lemma {:induction false} NothingLeftToShow(c: Content, steps: seq<Step>, isError: bool)
    requires SetsNone(steps, isError) && MessageOf(c, isError) == ""
    ensures forall m :: m in Shown(c, steps) ==> TextOf(m, isError) == ""
    decreases |steps|
  {
    if steps != [] {
      assert steps[0] in steps;
      NothingLeftToShow(StepContent(c, steps[0]), steps[1..], isError);
    }
  }

  lemma {:induction false} QuietShowsNothing(c: Content, steps: seq<Step>, isError: bool)
    requires Quiet(steps, isError)
    ensures Shown(c, steps) == []
    decreases |steps|
  {
    if steps != [] {
      assert steps[0] in steps;
      QuietShowsNothing(StepContent(c, steps[0]), steps[1..], isError);
    }
  }

  /** The session holds the message from when it is set to the next ConsumeMessages. */
  lemma {:induction false} MessageIsHeld(c: Content, before: seq<Step>, message: string, isError: bool,
                                         between: seq<Step>)
    requires Quiet(between, isError)
    ensures var steps := before + [Do(SetMessage(isError, message))] + between;
            MessageOf(ContentAfter(c, steps), isError) == message && |Shown(c, steps)| == Consumed(before)
  {
    var set1 := Do(SetMessage(isError, message));
    ContentAfterConcat(c, before + [set1], between);
    ContentAfterConcat(c, before, [set1]);
    OneStep(ContentAfter(c, before), set1);
    QuietKeepsMessage(ContentAfter(c, before + [set1]), between, isError);
    ShownConcat(c, before + [set1], between);
    ShownConcat(c, before, [set1]);
    ShownSize(c, before);
    QuietShowsNothing(ContentAfter(c, before + [set1]), between, isError);
  }

  /** The next ConsumeMessages hands it out, and no later one does. */
  lemma {:induction false} MessageIsShownOnce(c: Content, before: seq<Step>, message: string, isError: bool,
                                              between: seq<Step>,
                           after: seq<Step>)
    requires Quiet(between, isError) && SetsNone(after, isError)
    ensures var shown := Shown(c, before + [Do(SetMessage(isError, message))] + between + [Do(ConsumeMessages)] + after);
            && Consumed(before) < |shown| && TextOf(shown[Consumed(before)], isError) == message
            && forall k :: Consumed(before) < k < |shown| ==> TextOf(shown[k], isError) == ""
  {
    var steps := before + [Do(SetMessage(isError, message))] + between;
    MessageIsHeld(c, before, message, isError, between);
    var held := ContentAfter(c, steps);
    ShownConcat(c, steps + [Do(ConsumeMessages)], after);
    ShownConcat(c, steps, [Do(ConsumeMessages)]);
    ContentAfterConcat(c, steps, [Do(ConsumeMessages)]);
    OneStep(held, Do(ConsumeMessages));
    assert [Do(ConsumeMessages)][1..] == [];
    NothingLeftToShow(ContentAfter(c, steps + [Do(ConsumeMessages)]), after, isError);
  }

  /** In a run of requests, take the steps of all handlers one after the other: a message set at
      one of them is handed out by the next ConsumeMessages, in whatever later request and under
      whatever new identity that is, and by none after it. */
  lemma {:induction false} MessageIsDeliveredOnce(rows: map<string, Row>, cookie: string, reqs: seq<Request>,
                               before: seq<Step>, message: string, isError: bool, between: seq<Step>, after: seq<Step>)
    requires Resolve(rows, cookie).Some? && FreshRun(rows, cookie, reqs)
    requires AllSteps(rows[Resolve(rows, cookie).value].content, reqs) ==
             before + [Do(SetMessage(isError, message))] + between + [Do(ConsumeMessages)] + after
    requires Quiet(between, isError) && SetsNone(after, isError)
    ensures var shown := Browse(rows, cookie, reqs).shown;
            && Consumed(before) < |shown| && TextOf(shown[Consumed(before)], isError) == message
            && forall k :: Consumed(before) < k < |shown| ==> TextOf(shown[k], isError) == ""
  {
    RunsSimulateOneSession(rows, cookie, reqs);
    MessageIsShownOnce(rows[Resolve(rows, cookie).value].content, before, message, isError, between, after);
  }
}
