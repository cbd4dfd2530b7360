/**
 * The PKCE login state machine of `OauthLoginManager` as values: a session
 * (the two in-memory fields, the persistent store, and the logs of what the
 * manager emitted, navigated and sent) and one step function per public
 * operation. The network, the URL, randomness and SHA-256 are inputs of the
 * steps. The class in OauthManager is proved to perform exactly these steps;
 * the lemmas below state what the steps promise.
 */
module LoginFlow {
  import opened Options
  import opened Base64
  import opened Pkce

  /** Events dispatched by the manager; `authorization` carries the token. */
  datatype Event = Login | Logout | Authorization(token: string)

  /** One query parameter of a URL, in the order it was appended. */
  datatype Param = Param(name: string, value: string)

  /** What the manager does to the browser's location. */
  datatype Navigation =
    | ReplaceState(url: string)                // history.replaceState: the query is stripped, no page load
    | Redirect(url: string, query: seq<Param>) // window.location = url: the page unloads

  /** HTTP requests the manager issues. */
  datatype Request =
    | TokenRequest(url: string, grantType: string, code: string, redirectUri: string, clientId: string, codeVerifier: string)
    | Revocation(url: string)

  /** The static identity of the client application; `clientUrl` is its own URL without query. */
  datatype Client = Client(oauthEndpoint: string, apiEndpoint: string, clientId: string, clientUrl: string)

  /**
   * The manager's state: `token` and `code` are the private fields `#token`
   * and `#code` (None for null), `store` is localStorage, and the three logs
   * record, oldest first, the events dispatched, the navigations made and the
   * requests sent.
   */
  datatype Session = Session(
    token: Option<string>,
    code: Option<string>,
    store: map<string, string>,
    events: seq<Event>,
    history: seq<Navigation>,
    sent: seq<Request>)

  /** How the token request ends: an `ok` response with its `access_token`, or another status. */
  datatype TokenResponse = Granted(accessToken: string) | Refused(status: int)

  /** How the revocation request ends: it resolves (with any status) or it throws. */
  datatype RevocationOutcome = Resolved(status: int) | Threw

  /** The errors the operations raise. */
  datatype Failure = VerifierLost | TokenRequestFailed(status: int) | RevocationThrew

  datatype Outcome = Done | Failed(failure: Failure)

  const CodeKey: string := "code"
  const VerifierKey: string := "codeVerifier"
  const TokenKey: string := "accessToken"

  /** Length of the code verifier and of the `state` value. */
  const VerifierLength: nat := 129
  const StateLength: nat := 33

  /** `localStorage.getItem`: null for a missing key. */
  function Lookup(store: map<string, string>, key: string): (v: Option<string>) {
    if key in store then Some(store[key]) else None
  }

  /** JavaScript truthiness of a string or null: null and "" are false. */
  predicate Truthy(v: Option<string>) {
    v.Some? && v.value != ""
  }

  /** `isLoggedIn()`: the in-memory token is not null. */
  predicate IsLoggedIn(s: Session) {
    s.token.Some?
  }

  /**
   * The invariant every operation keeps: a token or code in the store is the
   * one the in-memory fields hold.
   */
  predicate InSync(s: Session) {
    && (TokenKey in s.store ==> s.token == Some(s.store[TokenKey]))
    && (CodeKey in s.store ==> s.code == Some(s.store[CodeKey]))
  }

  /** The constructor: both fields are loaded from the store; nothing has happened yet. */
  function Construct(storage: map<string, string>): (s: Session) {
    Session(Lookup(storage, TokenKey), Lookup(storage, CodeKey), storage, [], [], [])
  }

  /** `this.#code ??= urlCode`: a code already held wins over the one in the URL. */
  function HeldCode(held: Option<string>, urlCode: Option<string>): (code: Option<string>) {
    if held.Some? then held else urlCode
  }

  /** The token request of `#fetchAuthToken`: POST to `apiEndpoint + 'token'`. */
  function ExchangeRequest(c: Client, code: string, codeVerifier: string): (req: Request) {
    TokenRequest(c.apiEndpoint + "token", "authorization_code", code, c.clientUrl, c.clientId, codeVerifier)
  }

  /** `#finishLoginProcedure`, with the URL's `code` parameter and the token response as inputs. */
  function FinishLoginStep(c: Client, s: Session, urlCode: Option<string>, response: TokenResponse): (next: (Session, Outcome)) {
    var code := HeldCode(s.code, urlCode);
    if !Truthy(code) then
      (s.(code := code), Done)
    else
      var store := s.store[CodeKey := code.value];
      var history := s.history + [ReplaceState(c.clientUrl)];
      var codeVerifier := Lookup(store, VerifierKey);
      if !Truthy(codeVerifier) then
        (s.(code := code, store := store, history := history), Failed(VerifierLost))
      else
        var sent := s.sent + [ExchangeRequest(c, code.value, codeVerifier.value)];
        match response
        case Refused(status) =>
          (s.(code := code, store := store, history := history, sent := sent), Failed(TokenRequestFailed(status)))
        case Granted(t) =>
          (Session(Some(t), code, store[TokenKey := t], s.events + [Login], history, sent), Done)
  }

  /**
   * `initialize()`: finish a pending login unless a token is held, then, if a
   * token is held, dispatch `authorization` with it. A failure of the pending
   * login propagates and nothing is dispatched.
   */
  function InitializeStep(c: Client, s: Session, urlCode: Option<string>, response: TokenResponse): (next: (Session, Outcome)) {
    var (s1, r) := if IsLoggedIn(s) then (s, Done) else FinishLoginStep(c, s, urlCode, response);
    if r.Failed? then (s1, r)
    else if IsLoggedIn(s1) then (s1.(events := s1.events + [Authorization(s1.token.value)]), Done)
    else (s1, Done)
  }

  /** The query of the authorization redirect, in the order `requestLogin` appends it. */
  function AuthorizationQuery(c: Client, state: string, challenge: string): (query: seq<Param>) {
    [ Param("response_type", "code"),
      Param("redirect_uri", c.clientUrl),
      Param("client_id", c.clientId),
      Param("scope", ""),
      Param("state", state),
      Param("code_challenge", challenge),
      Param("code_challenge_method", "S256") ]
  }

  /**
   * `requestLogin()`: a fresh verifier from `verifierBytes` is stored, then the
   * browser is sent to the authorization endpoint with its S256 challenge and a
   * `state` drawn from `stateBytes`.
   */
  function RequestLoginStep(c: Client, s: Session, verifierBytes: seq<byte>, stateBytes: seq<byte>, sha256: string -> Digest): (next: Session)
    requires |verifierBytes| == VerifierLength && |stateBytes| == StateLength
  {
    var codeVerifier := MaskString(verifierBytes);
    var query := AuthorizationQuery(c, MaskString(stateBytes), GenerateChallenge(codeVerifier, sha256));
    s.(store := s.store[VerifierKey := codeVerifier], history := s.history + [Redirect(c.oauthEndpoint, query)])
  }

  /**
   * `requestLogout()`: once the DELETE to the token endpoint resolves, the
   * whole store is cleared, the query stripped and `logout` dispatched. If
   * the call throws, nothing after it runs.
   */
  function RequestLogoutStep(c: Client, s: Session, revocation: RevocationOutcome): (next: (Session, Outcome)) {
    match revocation
    case Threw => (s, Failed(RevocationThrew))
    case Resolved(_) =>
      (s.(store := map[],
          history := s.history + [ReplaceState(c.clientUrl)],
          events := s.events + [Logout],
          sent := s.sent + [Revocation(c.apiEndpoint + "token")]),
       Done)
  }

  // ---------------------------------------------------------------------------
  // The invariant

  /** A freshly constructed manager holds exactly what the store holds. */
  lemma ConstructInSync(storage: map<string, string>)
    ensures InSync(Construct(storage))
    ensures IsLoggedIn(Construct(storage)) <==> TokenKey in storage
  {
  }

  /** Every step keeps the in-memory fields in agreement with the store. */
  lemma StepsKeepInSync(c: Client, s: Session, urlCode: Option<string>, response: TokenResponse,
                        revocation: RevocationOutcome, verifierBytes: seq<byte>, stateBytes: seq<byte>, sha256: string -> Digest)
    requires InSync(s)
    requires |verifierBytes| == VerifierLength && |stateBytes| == StateLength
    ensures InSync(FinishLoginStep(c, s, urlCode, response).0)
    ensures InSync(InitializeStep(c, s, urlCode, response).0)
    ensures InSync(RequestLoginStep(c, s, verifierBytes, stateBytes, sha256))
    ensures InSync(RequestLogoutStep(c, s, revocation).0)
  {
  }

  /** With the invariant, a token in the store means the manager reports being logged in. */
  lemma StoredTokenIsLoggedIn(s: Session)
    requires InSync(s)
    ensures TokenKey in s.store ==> IsLoggedIn(s) && s.token.value == s.store[TokenKey]
  {
  }

  // ---------------------------------------------------------------------------
  // initialize

  /**
   * When a token is held, `initialize` does not finish a login: neither the
   * URL code nor the token response matters, nothing but the event log
   * changes, and exactly one `authorization` with that token is appended.
   */
  lemma InitializeWhenLoggedIn(c: Client, s: Session, urlCode: Option<string>, response: TokenResponse,
                               otherCode: Option<string>, otherResponse: TokenResponse)
    requires IsLoggedIn(s)
    ensures InitializeStep(c, s, urlCode, response) == (s.(events := s.events + [Authorization(s.token.value)]), Done)
    ensures InitializeStep(c, s, urlCode, response) == InitializeStep(c, s, otherCode, otherResponse)
  {
  }

  /** Calling `initialize` twice when logged in dispatches the same `authorization` twice. */
  lemma InitializeTwice(c: Client, s: Session, urlCode: Option<string>, response: TokenResponse)
    requires IsLoggedIn(s)
    ensures var (s1, r1) := InitializeStep(c, s, urlCode, response);
            var (s2, r2) := InitializeStep(c, s1, urlCode, response);
            r1 == r2 == Done && s2 == s.(events := s.events + [Authorization(s.token.value), Authorization(s.token.value)])
  {
    InitializeWhenLoggedIn(c, s, urlCode, response, urlCode, response);
    var s1 := s.(events := s.events + [Authorization(s.token.value)]);
    InitializeWhenLoggedIn(c, s1, urlCode, response, urlCode, response);
    assert s1.events + [Authorization(s.token.value)] == s.events + [Authorization(s.token.value), Authorization(s.token.value)];
  }

  /** With no token and no code anywhere, `initialize` changes nothing and dispatches nothing. */
  lemma InitializeIdle(c: Client, s: Session, response: TokenResponse)
    requires !IsLoggedIn(s) && s.code.None?
    ensures InitializeStep(c, s, None, response) == (s, Done)
  {
  }

  /**
   * A successful exchange during `initialize` dispatches `login` and then
   * `authorization` with the new token, which is stored and held.
   */
  lemma InitializeAfterExchange(c: Client, s: Session, urlCode: Option<string>, t: string)
    requires !IsLoggedIn(s)
    requires Truthy(HeldCode(s.code, urlCode)) && Truthy(Lookup(s.store, VerifierKey))
    ensures var (s1, r) := InitializeStep(c, s, urlCode, Granted(t));
            r == Done && s1.token == Some(t) && s1.store[TokenKey] == t
            && s1.events == s.events + [Login, Authorization(t)]
  {
    var (s1, r) := FinishLoginStep(c, s, urlCode, Granted(t));
    assert s1.events == s.events + [Login];
    assert s1.events + [Authorization(t)] == s.events + [Login, Authorization(t)];
  }

  // ---------------------------------------------------------------------------
  // #finishLoginProcedure

  /** With no code held and none in the URL, the step returns with everything unchanged. */
  lemma FinishLoginIdle(c: Client, s: Session, urlCode: Option<string>, response: TokenResponse)
    requires !Truthy(HeldCode(s.code, urlCode))
    ensures var (s1, r) := FinishLoginStep(c, s, urlCode, response);
            r == Done && s1.store == s.store && s1.token == s.token && s1.events == s.events
            && s1.history == s.history && s1.sent == s.sent
    ensures s.code.None? && urlCode.None? ==> FinishLoginStep(c, s, urlCode, response) == (s, Done)
  {
  }

  /** A code already held is used, whatever code the URL carries. */
  lemma FinishLoginHeldCodeWins(c: Client, s: Session, urlCode: Option<string>, otherCode: Option<string>, response: TokenResponse)
    requires s.code.Some?
    ensures FinishLoginStep(c, s, urlCode, response) == FinishLoginStep(c, s, otherCode, response)
    ensures FinishLoginStep(c, s, urlCode, response).0.code == s.code
  {
  }

  /**
   * A code without a stored verifier fails with "codeVerifier was lost": the
   * code has been stored, no token is stored or held, nothing is dispatched
   * and no request is sent.
   */
  lemma FinishLoginVerifierLost(c: Client, s: Session, urlCode: Option<string>, response: TokenResponse)
    requires Truthy(HeldCode(s.code, urlCode)) && !Truthy(Lookup(s.store, VerifierKey))
    ensures var (s1, r) := FinishLoginStep(c, s, urlCode, response);
            var code := HeldCode(s.code, urlCode).value;
            r == Failed(VerifierLost) && s1.store == s.store[CodeKey := code]
            && Lookup(s1.store, TokenKey) == Lookup(s.store, TokenKey)
            && s1.token == s.token && s1.events == s.events && s1.sent == s.sent
  {
  }

  /**
   * A granted exchange stores and holds the returned token and dispatches
   * `login`; the one request sent pairs the code with the stored verifier.
   */
  lemma FinishLoginGranted(c: Client, s: Session, urlCode: Option<string>, t: string)
    requires Truthy(HeldCode(s.code, urlCode)) && Truthy(Lookup(s.store, VerifierKey))
    ensures var (s1, r) := FinishLoginStep(c, s, urlCode, Granted(t));
            var code := HeldCode(s.code, urlCode).value;
            r == Done && s1.token == Some(t)
            && s1.store == s.store[CodeKey := code][TokenKey := t]
            && s1.events == s.events + [Login]
            && s1.sent == s.sent + [ExchangeRequest(c, code, s.store[VerifierKey])]
  {
  }

  /**
   * A refused exchange fails with its status: no token is stored or held,
   * nothing is dispatched, and the code and verifier stay in the store.
   */
  lemma FinishLoginRefused(c: Client, s: Session, urlCode: Option<string>, status: int)
    requires Truthy(HeldCode(s.code, urlCode)) && Truthy(Lookup(s.store, VerifierKey))
    ensures var (s1, r) := FinishLoginStep(c, s, urlCode, Refused(status));
            var code := HeldCode(s.code, urlCode).value;
            r == Failed(TokenRequestFailed(status))
            && s1.store == s.store[CodeKey := code]
            && s1.store[VerifierKey] == s.store[VerifierKey]
            && Lookup(s1.store, TokenKey) == Lookup(s.store, TokenKey)
            && s1.token == s.token && s1.events == s.events
  {
  }

  // ---------------------------------------------------------------------------
  // requestLogin

  /**
   * `requestLogin` stores a 129-character verifier of unreserved characters
   * and redirects with the S256 challenge of that same verifier, with
   * `redirect_uri` the client URL and nothing else changed.
   */
  lemma RequestLoginRedirect(c: Client, s: Session, verifierBytes: seq<byte>, stateBytes: seq<byte>, sha256: string -> Digest)
    requires |verifierBytes| == VerifierLength && |stateBytes| == StateLength
    ensures var s1 := RequestLoginStep(c, s, verifierBytes, stateBytes, sha256);
            var v := s1.store[VerifierKey];
            && |v| == 129
            && (forall i :: 0 <= i < |v| ==> IsUnreserved(v[i]))
            && s1.history == s.history + [Redirect(c.oauthEndpoint, AuthorizationQuery(c, MaskString(stateBytes), GenerateChallenge(v, sha256)))]
            && s1.token == s.token && s1.code == s.code && s1.events == s.events && s1.sent == s.sent
            && s1.store == s.store[VerifierKey := v]
  {
  }

  /**
   * The verifier itself never leaves in the redirect: no parameter is named
   * `code_verifier`, the challenge decodes to the verifier's digest, and no
   * parameter carries the verifier unless the client URL or id happens to
   * equal it.
   */
  lemma RequestLoginKeepsVerifierSecret(c: Client, s: Session, verifierBytes: seq<byte>, stateBytes: seq<byte>, sha256: string -> Digest)
    requires |verifierBytes| == VerifierLength && |stateBytes| == StateLength
    requires c.clientUrl != MaskString(verifierBytes) && c.clientId != MaskString(verifierBytes)
    ensures var s1 := RequestLoginStep(c, s, verifierBytes, stateBytes, sha256);
            var v := s1.store[VerifierKey];
            var q := AuthorizationQuery(c, MaskString(stateBytes), GenerateChallenge(v, sha256));
            && (forall i :: 0 <= i < |q| ==> q[i].name != "code_verifier" && q[i].value != v)
            && q[5] == Param("code_challenge", GenerateChallenge(v, sha256))
            && q[6] == Param("code_challenge_method", "S256")
            && DecodeChallenge(q[5].value) == Some(sha256(v))
  {
    var v := MaskString(verifierBytes);
    var challenge := GenerateChallenge(v, sha256);
    GenerateChallengeRoundTrip(v, sha256);
    QueryOmitsVerifier(c, MaskString(stateBytes), challenge, v);
  }

  /** No parameter of the authorization query is named or valued as a 129-character verifier. */
  lemma QueryOmitsVerifier(c: Client, state: string, challenge: string, v: string)
    requires |v| == 129 && |state| == 33 && |challenge| == 43
    requires c.clientUrl != v && c.clientId != v
    ensures var q := AuthorizationQuery(c, state, challenge);
            forall i :: 0 <= i < |q| ==> q[i].name != "code_verifier" && q[i].value != v
  {
    var q := AuthorizationQuery(c, state, challenge);
    forall i | 0 <= i < |q| ensures q[i].name != "code_verifier" && q[i].value != v {
      assert q[i].name != "code_verifier" by {
        assert |q[i].name| != 13 || q[i].name[5] != 'v';
      }
    }
  }

  /**
   * PKCE binding across the page reload: after `requestLogin`, a new manager on
   * the same store that returns with a code sends the token endpoint exactly
   * the verifier whose challenge went to the authorization endpoint.
   */
  lemma LoginRoundTrip(c: Client, s: Session, verifierBytes: seq<byte>, stateBytes: seq<byte>, sha256: string -> Digest,
                       urlCode: string, t: string)
    requires |verifierBytes| == VerifierLength && |stateBytes| == StateLength
    requires TokenKey !in s.store && CodeKey !in s.store && urlCode != ""
    ensures var s1 := RequestLoginStep(c, s, verifierBytes, stateBytes, sha256);
            var v := s1.store[VerifierKey];
            var (s2, r) := InitializeStep(c, Construct(s1.store), Some(urlCode), Granted(t));
            && s1.history[|s1.history| - 1].query[5].value == GenerateChallenge(v, sha256)
            && r == Done
            && s2.sent == [ExchangeRequest(c, urlCode, v)]
            && s2.events == [Login, Authorization(t)]
            && s2.store[TokenKey] == t
  {
    var s1 := RequestLoginStep(c, s, verifierBytes, stateBytes, sha256);
    var v := s1.store[VerifierKey];
    assert Truthy(Lookup(s1.store, VerifierKey));
    InitializeAfterExchange(c, Construct(s1.store), Some(urlCode), t);
  }

  /**
   * A `code` left in the store wins over the one the authorization server
   * returns: a new manager loads it into `#code`, `??=` keeps it, and the
   * token request pairs that old code with the new verifier. The URL's code
   * is never sent.
   */
  lemma StaleCodeWins(c: Client, s: Session, verifierBytes: seq<byte>, stateBytes: seq<byte>, sha256: string -> Digest,
                      stale: string, urlCode: Option<string>, response: TokenResponse)
    requires |verifierBytes| == VerifierLength && |stateBytes| == StateLength
    requires TokenKey !in s.store && CodeKey in s.store && s.store[CodeKey] == stale && stale != ""
    ensures var s1 := RequestLoginStep(c, s, verifierBytes, stateBytes, sha256);
            var v := s1.store[VerifierKey];
            var (s2, r) := InitializeStep(c, Construct(s1.store), urlCode, response);
            && s2.sent == [ExchangeRequest(c, stale, v)]
            && (forall u :: urlCode == Some(u) && u != stale ==> ExchangeRequest(c, u, v) !in s2.sent)
  {
    var s1 := RequestLoginStep(c, s, verifierBytes, stateBytes, sha256);
    var s0 := Construct(s1.store);
    assert s1.store[CodeKey] == stale;
    assert s0.code == Some(stale) && s0.token == None;
    assert Truthy(Lookup(s1.store, VerifierKey));
  }

  /**
   * Why a stale code is reachable: a login whose exchange is refused leaves
   * its code in the store. The next `requestLogin` and reload then exchange
   * that first code with the second verifier, whatever code the second
   * redirect returns.
   */
  lemma RetryAfterRefusal(c: Client, s: Session, firstCode: string, status: int,
                          verifierBytes: seq<byte>, stateBytes: seq<byte>, sha256: string -> Digest,
                          secondCode: string, response: TokenResponse)
    requires |verifierBytes| == VerifierLength && |stateBytes| == StateLength
    requires !IsLoggedIn(s) && TokenKey !in s.store && s.code.None?
    requires firstCode != "" && Truthy(Lookup(s.store, VerifierKey))
    ensures var (s1, r1) := InitializeStep(c, s, Some(firstCode), Refused(status));
            var s2 := RequestLoginStep(c, Construct(s1.store), verifierBytes, stateBytes, sha256);
            var (s3, r3) := InitializeStep(c, Construct(s2.store), Some(secondCode), response);
            && r1 == Failed(TokenRequestFailed(status))
            && s3.sent == [ExchangeRequest(c, firstCode, s2.store[VerifierKey])]
  {
    var (s1, r1) := InitializeStep(c, s, Some(firstCode), Refused(status));
    FinishLoginRefused(c, s, Some(firstCode), status);
    assert s1.store == s.store[CodeKey := firstCode];
    StaleCodeWins(c, Construct(s1.store), verifierBytes, stateBytes, sha256, firstCode, Some(secondCode), response);
  }

  // ---------------------------------------------------------------------------
  // requestLogout

  /**
   * Once the revocation resolves, whatever its status, the store is empty and
   * exactly one `logout` is dispatched; the in-memory token is not reset.
   */
  lemma RequestLogoutResolved(c: Client, s: Session, status: int)
    ensures var (s1, r) := RequestLogoutStep(c, s, Resolved(status));
            r == Done && s1.store == map[] && s1.events == s.events + [Logout]
            && s1.token == s.token && s1.code == s.code
            && (IsLoggedIn(s) ==> IsLoggedIn(s1))
  {
  }

  /** If the revocation call throws, nothing is cleared and nothing is dispatched. */
  lemma RequestLogoutThrew(c: Client, s: Session)
    ensures RequestLogoutStep(c, s, Threw) == (s, Failed(RevocationThrew))
  {
  }
}
