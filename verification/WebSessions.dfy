/** Browser sessions in memory and in the web_sessions table (internal/model/web_session.go,
    internal/storage/web_session.go). The state blob is taken to survive its trip through JSON. */
module WebSessions {
  import opened Common

  /** The SHA-256 digest of a secret, or an empty column. Distinct secrets are taken to have
      distinct digests. */
  datatype Digest = Empty | Sha256(secret: string)

  datatype OAuth2Flow = OAuth2Flow(state: string, codeVerifier: string)

  datatype State = State(
    csrf: string, successMessage: string, errorMessage: string, oauth2: Option<OAuth2Flow>,
    webAuthn: Option<int>, lastForceRefreshAt: Option<int>, language: string, theme: string)

  /** What the table stores besides the identity of a session. */
  datatype Content = Content(userID: Option<int>, state: State)

  datatype User = User(id: int, language: string, theme: string)

  datatype Row = Row(secretHash: Digest, userAgent: string, content: Content)

  function NewContent(csrf: string): Content {
    Content(None, State(csrf, "", "", None, None, None, "", ""))
  }

  /** The calls a handler makes on the session of its request. */
  datatype Call =
    | SetLanguage(language: string)
    | SetTheme(theme: string)
    | SetSuccessMessage(message: string)
    | SetErrorMessage(message: string)
    | StartOAuth2Flow(state: string, codeVerifier: string)
    | ClearOAuth2Flow
    | SetUser(user: Option<User>)
    | ClearUser
    | MarkForceRefreshed(now: int)
    | SetWebAuthn(data: Option<int>)
    | ConsumeWebAuthnSession
    | ConsumeMessages

  /** The content after a call. */
  function Changed(c: Content, call: Call): Content {
    match call
    case SetLanguage(l) => c.(state := c.state.(language := l))
    case SetTheme(t) => c.(state := c.state.(theme := t))
    case SetSuccessMessage(m) => c.(state := c.state.(successMessage := m))
    case SetErrorMessage(m) => c.(state := c.state.(errorMessage := m))
    case StartOAuth2Flow(s, v) => c.(state := c.state.(oauth2 := Some(OAuth2Flow(s, v))))
    case ClearOAuth2Flow => c.(state := c.state.(oauth2 := None))
    case SetUser(None) => c
    case SetUser(Some(u)) => Content(Some(u.id), c.state.(language := u.language, theme := u.theme))
    case ClearUser => c.(userID := None)
    case MarkForceRefreshed(now) => c.(state := c.state.(lastForceRefreshAt := Some(now)))
    case SetWebAuthn(data) => c.(state := c.state.(webAuthn := data))
    case ConsumeWebAuthnSession => c.(state := c.state.(webAuthn := None))
    case ConsumeMessages => c.(state := c.state.(successMessage := "", errorMessage := ""))
  }

  /** The success and error messages that a call hands out to be shown. */
  function HandedOut(c: Content, call: Call): seq<(string, string)> {
    if call.ConsumeMessages? then [(c.state.successMessage, c.state.errorMessage)] else []
  }

  /** The call sets the dirty flag. */
  predicate Touches(c: Content, call: Call) {
    match call
    case SetUser(None) => false
    case ConsumeWebAuthnSession => c.state.webAuthn.Some?
    case ConsumeMessages => c.state.successMessage != "" || c.state.errorMessage != ""
    case _ => true
  }

  /** No change goes unnoticed. */
  lemma ChangesSetDirty(c: Content, call: Call)
    ensures Changed(c, call) != c ==> Touches(c, call)
  {
  }

  class WebSession {
    var id: string
    var secretHash: Digest
    var userAgent: string
    var userID: Option<int>
    var state: State
    var dirty: bool

    ghost function Snapshot(): Content
      reads this
    {
      Content(userID, state)
    }

    /** NewWebSession with the random texts it draws. */
    constructor (userAgent: string, id: string, secret: string, csrf: string)
      ensures this.id == id && secretHash == Sha256(secret) && this.userAgent == userAgent
      ensures Snapshot() == NewContent(csrf) && !dirty
      ensures userID == None && state == State(csrf, "", "", None, None, None, "", "")
    {
      this.id, this.secretHash, this.userAgent := id, Sha256(secret), userAgent;
      userID, dirty := None, false;
      state := State(csrf, "", "", None, None, None, "", "");
    }

    /** scanWebSession */
    constructor FromRow(id: string, row: Row)
      ensures this.id == id && secretHash == row.secretHash && userAgent == row.userAgent
      ensures Snapshot() == row.content && !dirty
    {
      this.id, secretHash, userAgent := id, row.secretHash, row.userAgent;
      userID, state, dirty := row.content.userID, row.content.state, false;
    }

    /** A new identity in place; the content and the dirty flag stay. */
    method Rotate(newID: string, newSecret: string) returns (oldID: string)
      modifies `id, `secretHash
      ensures oldID == old(id) && id == newID && secretHash == Sha256(newSecret)
    {
      oldID := id;
      id := newID;
      secretHash := Sha256(newSecret);
    }

    /** Only the secret that was hashed passes, and never the empty text. */
    predicate VerifySecret(secret: string)
      reads `secretHash
      ensures VerifySecret(secret) <==> secret != "" && secretHash == Sha256(secret)
    {
      if secret == "" || secretHash.Empty? then false else Sha256(secret) == secretHash
    }

    method SetLanguage(language: string)
      modifies `state, `dirty
      ensures dirty && state == old(state).(language := language)
    {
      dirty := true;
      state := state.(language := language);
    }

    method SetTheme(theme: string)
      modifies `state, `dirty
      ensures dirty && state == old(state).(theme := theme)
    {
      dirty := true;
      state := state.(theme := theme);
    }

    method SetSuccessMessage(message: string)
      modifies `state, `dirty
      ensures dirty && state == old(state).(successMessage := message)
    {
      dirty := true;
      state := state.(successMessage := message);
    }

    method SetErrorMessage(message: string)
      modifies `state, `dirty
      ensures dirty && state == old(state).(errorMessage := message)
    {
      dirty := true;
      state := state.(errorMessage := message);
    }

    method StartOAuth2Flow(flowState: string, codeVerifier: string)
      modifies `state, `dirty
      ensures dirty && state == old(state).(oauth2 := Some(OAuth2Flow(flowState, codeVerifier)))
    {
      dirty := true;
      state := state.(oauth2 := Some(OAuth2Flow(flowState, codeVerifier)));
    }

    method ClearOAuth2Flow()
      modifies `state, `dirty
      ensures dirty && state == old(state).(oauth2 := None)
    {
      dirty := true;
      state := state.(oauth2 := None);
    }

    method MarkForceRefreshed(now: int)
      modifies `state, `dirty
      ensures dirty && state == old(state).(lastForceRefreshAt := Some(now))
    {
      dirty := true;
      state := state.(lastForceRefreshAt := Some(now));
    }

    method SetWebAuthn(data: Option<int>)
      modifies `state, `dirty
      ensures dirty && state == old(state).(webAuthn := data)
    {
      dirty := true;
      state := state.(webAuthn := data);
    }

    /** None is a nil user: nothing happens. */
    method SetUser(user: Option<User>)
      modifies `userID, `state, `dirty
      ensures user.None? ==> userID == old(userID) && state == old(state) && dirty == old(dirty)
      ensures user.Some? ==> dirty && userID == Some(user.value.id)
      ensures user.Some? ==> state == old(state).(language := user.value.language, theme := user.value.theme)
    {
      if user.None? {
        return;
      }
      dirty := true;
      userID := Some(user.value.id);
      state := state.(language := user.value.language, theme := user.value.theme);
    }

    method ClearUser()
      modifies `userID, `dirty
      ensures dirty && userID == None
    {
      dirty := true;
      userID := None;
    }

    method ConsumeWebAuthnSession() returns (data: Option<int>)
      modifies `state, `dirty
      ensures data == old(state.webAuthn) && state == old(state).(webAuthn := None)
      ensures dirty == (old(dirty) || data.Some?)
    {
      data := state.webAuthn;
      if data.None? {
        return;
      }
      dirty := true;
      state := state.(webAuthn := None);
    }

    method ConsumeMessages() returns (success: string, error: string)
      modifies `state, `dirty
      ensures success == old(state.successMessage) && error == old(state.errorMessage)
      ensures state == old(state).(successMessage := "", errorMessage := "")
      ensures dirty == (old(dirty) || success != "" || error != "")
    {
      success, error := state.successMessage, state.errorMessage;
      if success != "" || error != "" {
        dirty := true;
        state := state.(successMessage := "", errorMessage := "");
      }
    }

    /** The call that a handler's step names. */
    method Perform(call: Call) returns (shown: seq<(string, string)>)
      modifies `userID, `state, `dirty
      ensures Snapshot() == Changed(old(Snapshot()), call)
      ensures shown == HandedOut(old(Snapshot()), call)
      ensures dirty == (old(dirty) || Touches(old(Snapshot()), call))
      ensures var logsIn := call.SetUser? && call.user.Some?;
              && userID == (if logsIn then Some(call.user.value.id) else if call.ClearUser? then None else old(userID))
              && state.csrf == old(state.csrf)
              && state.language == (if logsIn then call.user.value.language
                                    else if call.SetLanguage? then call.language else old(state.language))
              && state.theme == (if logsIn then call.user.value.theme
                                 else if call.SetTheme? then call.theme else old(state.theme))
      ensures state.successMessage == (if call.SetSuccessMessage? then call.message
                                       else if call.ConsumeMessages? then "" else old(state.successMessage))
      ensures state.errorMessage == (if call.SetErrorMessage? then call.message
                                     else if call.ConsumeMessages? then "" else old(state.errorMessage))
      ensures state.oauth2 == (if call.StartOAuth2Flow? then Some(OAuth2Flow(call.state, call.codeVerifier))
                               else if call.ClearOAuth2Flow? then None else old(state.oauth2))
      ensures state.webAuthn == (if call.SetWebAuthn? then call.data
                                 else if call.ConsumeWebAuthnSession? then None else old(state.webAuthn))
      ensures state.lastForceRefreshAt ==
              if call.MarkForceRefreshed? then Some(call.now) else old(state.lastForceRefreshAt)
      ensures shown == if call.ConsumeMessages? then [(old(state.successMessage), old(state.errorMessage))] else []
    {
      shown := [];
      match call {
        case SetLanguage(language) => SetLanguage(language);
        case SetTheme(theme) => SetTheme(theme);
        case SetSuccessMessage(message) => SetSuccessMessage(message);
        case SetErrorMessage(message) => SetErrorMessage(message);
        case StartOAuth2Flow(flowState, verifier) => StartOAuth2Flow(flowState, verifier);
        case ClearOAuth2Flow => ClearOAuth2Flow();
        case SetUser(user) => SetUser(user);
        case ClearUser => ClearUser();
        case MarkForceRefreshed(now) => MarkForceRefreshed(now);
        case SetWebAuthn(data) => SetWebAuthn(data);
        case ConsumeWebAuthnSession => var _ := ConsumeWebAuthnSession();
        case ConsumeMessages =>
          var success, error := ConsumeMessages();
          shown := [(success, error)];
      }
    }
  }

  /** The row a session would be stored as. */
  ghost function RowOf(s: WebSession): Row
    reads s
  {
    Row(s.secretHash, s.userAgent, s.Snapshot())
  }

  /** UPDATE ... SET id=$2 ... WHERE id=$1; the primary key refuses an id that is taken. */
  predicate CanRotate(rows: map<string, Row>, oldID: string, newID: string) {
    oldID != "" && newID != "" && oldID in rows && (newID == oldID || newID !in rows)
  }

  class Storage {
    var rows: map<string, Row>

    constructor ()
      ensures rows == map[]
    {
      rows := map[];
    }

    method CreateWebSession(session: WebSession, fails: bool) returns (ok: bool)
      modifies `rows
      ensures ok <==> !fails && session.id !in old(rows)
      ensures rows == if ok
              then old(rows)[session.id := Row(session.secretHash, session.userAgent, Content(None, session.state))]
              else old(rows)
    {
      if fails || session.id in rows {
        return false;
      }
      rows := rows[session.id := Row(session.secretHash, session.userAgent, Content(None, session.state))];
      ok := true;
    }

    method WebSessionByID(sessionID: string) returns (session: WebSession?)
      ensures session == null <==> sessionID == "" || sessionID !in rows
      ensures session != null ==> fresh(session) && session.id == sessionID && RowOf(session) == rows[sessionID] && !session.dirty
    {
      if sessionID == "" || sessionID !in rows {
        return null;
      }
      session := new WebSession.FromRow(sessionID, rows[sessionID]);
    }

    method RotateWebSession(oldID: string, session: WebSession, fails: bool) returns (ok: bool)
      modifies `rows
      ensures ok <==> !fails && CanRotate(old(rows), oldID, session.id)
      ensures ok <==> && !fails && oldID != "" && session.id != ""
                      && oldID in old(rows) && (session.id == oldID || session.id !in old(rows))
      ensures rows == if ok
              then (old(rows) - {oldID})[session.id := Row(session.secretHash, old(rows)[oldID].userAgent,
                                                           Content(session.userID, session.state))]
              else old(rows)
    {
      if oldID == "" || session.id == "" {
        return false;
      }
      if fails || !CanRotate(rows, oldID, session.id) {
        return false;
      }
      var row := rows[oldID].(secretHash := session.secretHash, content := Content(session.userID, session.state));
      rows := (rows - {oldID})[session.id := row];
      ok := true;
    }

    method UpdateWebSession(session: WebSession, fails: bool) returns (ok: bool)
      modifies `rows
      ensures ok <==> !fails && session.id != "" && session.id in old(rows)
      ensures rows == if ok
              then old(rows)[session.id := old(rows)[session.id].(content := Content(session.userID, session.state))]
              else old(rows)
    {
      if session.id == "" || fails || session.id !in rows {
        return false;
      }
      rows := rows[session.id := rows[session.id].(content := Content(session.userID, session.state))];
      ok := true;
    }
  }
}
