/**
 * `OauthLoginManager` as a class: the private fields `#token` and `#code`, the
 * browser's localStorage as a map field, and logs of the dispatched events,
 * the navigations and the HTTP requests. Each method performs the source's
 * statements in order and is proved to take exactly the step LoginFlow
 * specifies for it.
 */
module OauthManager {
  import opened Options
  import opened Base64
  import opened Pkce
  import opened LoginFlow

  class OauthLoginManager {
    var token: Option<string>
    var code: Option<string>
    var store: map<string, string>
    var events: seq<Event>
    var history: seq<Navigation>
    var sent: seq<Request>

    const oauthEndpoint: string
    const apiEndpoint: string
    const clientId: string
    const clientUrl: string

    /** The client's static identity. */
    function Identity(): (c: Client) {
      Client(oauthEndpoint, apiEndpoint, clientId, clientUrl)
    }

    /** The manager's state as a value. */
    function View(): (s: Session)
      reads this
    {
      Session(token, code, store, events, history, sent)
    }

    /** The object invariant: the in-memory fields agree with the store. */
    ghost predicate Valid()
      reads this
    {
      InSync(View())
    }

    /** `isLoggedIn()`; a token in the store means true. */
    function IsLoggedIn(): (b: bool)
      reads this
      requires Valid()
      ensures b == LoginFlow.IsLoggedIn(View())
      ensures TokenKey in store ==> b
    {
      token != None
    }

    /** Loads `#token` and `#code` from the store; `clientUrl` is the page URL without its query. */
    constructor (oauthEndpoint: string, apiEndpoint: string, clientId: string, clientUrl: string, storage: map<string, string>)
      ensures Valid()
      ensures View() == Construct(storage)
      ensures Identity() == Client(oauthEndpoint, apiEndpoint, clientId, clientUrl)
    {
      this.token := Lookup(storage, TokenKey);
      this.code := Lookup(storage, CodeKey);
      this.store := storage;
      this.events := [];
      this.history := [];
      this.sent := [];
      this.oauthEndpoint := oauthEndpoint;
      this.clientId := clientId;
      this.apiEndpoint := apiEndpoint;
      this.clientUrl := clientUrl;
    }

    /** `initialize()`. */
    method Initialize(urlCode: Option<string>, response: TokenResponse) returns (r: Outcome)
      requires Valid()
      modifies this
      ensures Valid()
      ensures (View(), r) == InitializeStep(Identity(), old(View()), urlCode, response)
    {
      r := Done;
      if !IsLoggedIn() {
        r := FinishLoginProcedure(urlCode, response);
        if r.Failed? {
          return;
        }
      }
      if IsLoggedIn() {
        events := events + [Authorization(token.value)];
      }
    }

    /** `#finishLoginProcedure()`; `urlCode` is what `#retrieveCodeFromUrlParams` returns. */
    method FinishLoginProcedure(urlCode: Option<string>, response: TokenResponse) returns (r: Outcome)
      requires Valid()
      modifies this
      ensures Valid()
      ensures (View(), r) == FinishLoginStep(Identity(), old(View()), urlCode, response)
    {
      if code == None {
        code := urlCode;
      }
      if !Truthy(code) {
        return Done;
      }
      store := store[CodeKey := code.value];
      history := history + [ReplaceState(clientUrl)];
      var codeVerifier := Lookup(store, VerifierKey);
      if !Truthy(codeVerifier) {
        return Failed(VerifierLost);
      }
      var fetched := FetchAuthToken(code.value, codeVerifier.value, response);
      match fetched
      case Refused(status) =>
        r := Failed(TokenRequestFailed(status));
      case Granted(t) =>
        token := Some(t);
        store := store[TokenKey := t];
        events := events + [Login];
        r := Done;
    }

    /** `#fetchAuthToken(code, codeVerifier)`: sends the token request; its response is the input `response`. */
    method FetchAuthToken(code: string, codeVerifier: string, response: TokenResponse) returns (result: TokenResponse)
      modifies this`sent
      ensures sent == old(sent) + [ExchangeRequest(Identity(), code, codeVerifier)]
      ensures result == response
    {
      sent := sent + [ExchangeRequest(Identity(), code, codeVerifier)];
      result := response;
    }

    /** `requestLogout()`; `revocation` is how the DELETE call ends. */
    method RequestLogout(revocation: RevocationOutcome) returns (r: Outcome)
      requires Valid()
      modifies this
      ensures Valid()
      ensures (View(), r) == RequestLogoutStep(Identity(), old(View()), revocation)
    {
      if revocation == Threw {
        return Failed(RevocationThrew);
      }
      sent := sent + [Revocation(apiEndpoint + "token")];
      store := map[];
      history := history + [ReplaceState(clientUrl)];
      events := events + [Logout];
      r := Done;
    }

    /**
     * `requestLogin()`; `verifierBytes` and `stateBytes` are what
     * `crypto.getRandomValues` fills in, `sha256` the digest of a string's UTF-8 bytes.
     */
    method RequestLogin(verifierBytes: seq<byte>, stateBytes: seq<byte>, sha256: string -> Digest)
      requires Valid()
      requires |verifierBytes| == VerifierLength && |stateBytes| == StateLength
      modifies this
      ensures Valid()
      ensures View() == RequestLoginStep(Identity(), old(View()), verifierBytes, stateBytes, sha256)
    {
      var codeVerifier := RandomString(129, verifierBytes);
      store := store[VerifierKey := codeVerifier];
      var challenge := GenerateChallenge(codeVerifier, sha256);
      var state := RandomString(33, stateBytes);
      var query := AuthorizationQuery(Identity(), state, challenge);
      history := history + [Redirect(oauthEndpoint, query)];
    }
  }

  /**
   * A caller's view of `initialize` on a logged-in manager: two calls dispatch
   * the same `authorization` twice and change nothing else.
   */
  method ReinitializeLoggedIn(m: OauthLoginManager, urlCode: Option<string>, response: TokenResponse)
    requires m.Valid() && m.token.Some?
    modifies m
    ensures m.Valid()
    ensures m.events == old(m.events) + [Authorization(old(m.token).value), Authorization(old(m.token).value)]
    ensures m.token == old(m.token) && m.code == old(m.code) && m.store == old(m.store)
    ensures m.history == old(m.history) && m.sent == old(m.sent)
  {
    var r1 := m.Initialize(urlCode, response);
    var r2 := m.Initialize(urlCode, response);
    LoginFlow.InitializeTwice(m.Identity(), old(m.View()), urlCode, response);
  }
}
