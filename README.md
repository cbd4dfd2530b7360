# PKCE login manager, modelled in Dafny

This project models `OauthLoginManager`, the browser-side login manager of the
application. It implements the authorization-code grant of OAuth 2.0 (section
4.1 of RFC 6749) with Proof Key for Code Exchange (RFC 7636). The manager keeps:

- two private fields, `#token` and `#code`;
- three keys in localStorage: `code`, `codeVerifier` and `accessToken`.

It dispatches `login`, `logout` and `authorization` events. Its operations are:

- the constructor, which loads both fields from storage;
- `initialize`, which finishes a pending login on page load and then announces
  a held token;
- `requestLogin`, which stores a fresh code verifier and redirects the browser to
  the authorization endpoint with the S256 challenge of that verifier;
- `requestLogout`, which sends a DELETE to the token endpoint and then clears
  storage.

The model has five modules:

- `Options` (options.dfy): `Option`, with `None` for JavaScript's `null`.
- `Base64` (base64.dfy): standard base 64 with padding (section 4 of RFC 4648),
  which is what `btoa` produces for a string of bytes. It has a decoder and the
  proof `Decode(Encode(b)) == Some(b)`.
- `Pkce` (pkce.dfy): the two PKCE helpers.
  - `RandomString` is the source's loop. It takes the random bytes as input.
  - `GenerateChallenge` is the source's chain: base 64 of the digest, then
    `/`→`_`, `+`→`-`, and every `=` removed. The SHA-256 digest is a
    function-typed input that returns 32 bytes.
  - The lemmas cover three things: the mask is exactly the unreserved set of
    section 4.1 of RFC 7636; the challenge is unpadded base64url (section 5 of
    RFC 4648); undoing the substitution and the padding gives back the digest.
- `LoginFlow` (login_flow.dfy): the state machine as values.
  - A `Session` holds the two fields, the store as a `map<string, string>`, and
    three logs: the events dispatched, the navigations made, and the HTTP
    requests sent.
  - There is one step function per operation: `Construct`, `FinishLoginStep`,
    `InitializeStep`, `RequestLoginStep` and `RequestLogoutStep`.
  - Lemmas state what each step promises, that each keeps the invariant
    `InSync`, and that the verifier whose challenge was sent in the redirect is
    the one sent to the token endpoint after the page reloads.
- `OauthManager` (oauth_manager.dfy): the class `OauthLoginManager`. Its fields
  are the Session's fields. Each method runs the source's statements in order
  and is proved to take exactly the matching step.

How the source's inputs appear in the model:

- The URL's `code` parameter is an `Option<string>` input (None stands for
  null).
- The outcome of the token exchange is an input: `Granted(token)` or
  `Refused(status)`.
- The outcome of the revocation call is an input: `Resolved(status)` or
  `Threw`.
- The client URL is an opaque string.

Behaviour the model keeps from the source, including where a reader might
expect something else:

- A code already held in `#code` takes priority over the code in the URL
  (`??=`, OauthManager.js:48). One might expect the fresh code in the URL to
  win; the code keeps the held one (`FinishLoginHeldCodeWins`).
- A `code` left in the store is therefore never replaced by a later one.
  - A failed exchange leaves its code stored (OauthManager.js:50), and so does
    a missing verifier, and so does a logout whose revocation throws.
  - The next manager loads that code into `#code` (OauthManager.js:34), and
    `??=` keeps it over the new URL code.
  - The next login's token request then pairs the old code with the new
    verifier (`StaleCodeWins`, `RetryAfterRefusal`). The authorization
    server issued that code for an earlier challenge, so as long as it stays
    stored, every later attempt sends the same mismatched pair.
- `requestLogout` clears storage only when the DELETE call resolves. The call
  names `headers` (OauthManager.js:86), which this file does not declare, so
  the call can throw before `localStorage.clear()` runs. One might expect
  logout to clear local state in every case; the code does not
  (`RequestLogoutThrew`).
- `requestLogout` never resets `#token` or `#code`. After a resolved logout,
  `isLoggedIn()` on the same page stays true (`RequestLogoutResolved`).
- The verifier is 129 characters long (OauthManager.js:93). Section 4.1 of
  RFC 7636 allows 43 to 128. The model keeps 129 and claims no bound from the
  standard.
- JavaScript truthiness is kept. An empty-string code returns as idle. An
  empty-string verifier fails as "codeVerifier was lost" (`Truthy`).

## Model

| member | source | states |
|---|---|---|
| `Base64.EncodeUnpaddedShape` | OauthManager.js:132 | the unpadded base 64 of n bytes uses only the 64-character alphabet and has 4·⌊n/3⌋ characters, plus 2 or 3 more for a final partial group |
| `Base64.DecodeEncode` | OauthManager.js:132 | decoding the padded base 64 that `btoa` yields for a byte string gives back exactly those bytes |
| `Pkce.MaskIsSourceLiteral` | OauthManager.js:111 | the mask is the source's 66-character literal |
| `Pkce.MaskIsUnreservedSet` | OauthManager.js:111 | the mask has 66 characters, each unreserved in the sense of RFC 7636 and each at a distinct place; every unreserved character is in it |
| `Pkce.MaskString` | OauthManager.js:110-119 | the string built from n bytes has n characters, all unreserved |
| `Pkce.RandomString` | OauthManager.js:110-120 | the loop returns exactly `length` characters; character i is `mask[bytes[i] % 66]` and is unreserved |
| `Pkce.Base64UrlIsUnpadded` | OauthManager.js:132-135 | the replace chain equals the unpadded base 64 with `/`→`_` and `+`→`-`: removing `=` drops exactly the padding |
| `Pkce.ChallengeIsUrlSafe` | OauthManager.js:132-135 | the challenge uses only the base64url alphabet and contains no `+`, `/` or `=`; a 32-byte digest gives 43 characters |
| `Pkce.ChallengeRoundTrip` | OauthManager.js:126-135 | mapping `-` back to `+` and `_` back to `/`, re-padding and decoding the challenge gives back the digest |
| `Pkce.GenerateChallengeRoundTrip` | OauthManager.js:126-136 | the S256 challenge of a verifier has 43 characters and decodes to SHA-256 of that verifier |
| `LoginFlow.ConstructInSync` | OauthManager.js:31-38 | a new manager holds the stored token and code; it is logged in exactly when the store has `accessToken` |
| `LoginFlow.StepsKeepInSync` | OauthManager.js:40-105 | every operation keeps the invariant: a stored token or code is the one held in `#token` or `#code` |
| `LoginFlow.StoredTokenIsLoggedIn` | OauthManager.js:28 | under the invariant, a stored `accessToken` means `isLoggedIn()` is true and `#token` is that token |
| `LoginFlow.InitializeWhenLoggedIn` | OauthManager.js:40-45 | with a token held, `initialize` ignores the URL code and the token response and appends exactly one `authorization` with that token; nothing else changes |
| `LoginFlow.InitializeTwice` | OauthManager.js:40-45 | two `initialize` calls while logged in give two identical `authorization` events and no other change |
| `LoginFlow.InitializeIdle` | OauthManager.js:41-49 | no token, no held code and no URL code: `initialize` changes nothing and dispatches nothing |
| `LoginFlow.InitializeAfterExchange` | OauthManager.js:41-61 | a granted exchange during `initialize` dispatches `login`, then `authorization` with the new token, which is stored and held |
| `LoginFlow.FinishLoginIdle` | OauthManager.js:48-49 | without a truthy code, store, token, events, navigations and requests are unchanged; with neither a held nor a URL code, the whole state is unchanged |
| `LoginFlow.FinishLoginHeldCodeWins` | OauthManager.js:48 | a held code is used whatever the URL carries |
| `LoginFlow.FinishLoginVerifierLost` | OauthManager.js:51-55 | code present and verifier missing: fails with VerifierLost; the code is stored; no token is stored or held; no event and no request |
| `LoginFlow.FinishLoginGranted` | OauthManager.js:58-61 | a granted exchange holds and stores the token and appends `login`; the single request pairs the code with the stored verifier |
| `LoginFlow.FinishLoginRefused` | OauthManager.js:58-79 | a non-ok response fails with its status; no token is stored or held; no event; `code` and `codeVerifier` stay stored |
| `LoginFlow.RequestLoginRedirect` | OauthManager.js:92-105 | `requestLogin` stores a 129-character unreserved verifier and redirects with the challenge of that same stored verifier; nothing else changes |
| `LoginFlow.RequestLoginKeepsVerifierSecret` | OauthManager.js:96-104 | the redirect carries `code_challenge` and `code_challenge_method=S256`; the challenge decodes to the verifier's digest; no parameter is `code_verifier` or carries the verifier |
| `LoginFlow.QueryOmitsVerifier` | OauthManager.js:96-103 | no parameter of the authorization query is named `code_verifier`; when the client URL and client id differ from a 129-character verifier, no parameter has it as its value |
| `LoginFlow.LoginRoundTrip` | OauthManager.js:47-105 | starting from a store that holds neither `code` nor `accessToken`: after `requestLogin` and a reload that returns a code, the one token request pairs that code with the verifier whose challenge went out in the redirect; `login`, then `authorization`, are dispatched |
| `LoginFlow.StaleCodeWins` | OauthManager.js:34-58 | with a `code` still stored and no token: after `requestLogin` and a reload, the one token request pairs the stored code with the new verifier, and a different URL code is never sent |
| `LoginFlow.RetryAfterRefusal` | OauthManager.js:40-105 | a refused first exchange leaves its code stored; after the next `requestLogin` and reload, the token request pairs the first code with the second verifier, whatever the second redirect returned |
| `LoginFlow.RequestLogoutResolved` | OauthManager.js:84-90 | once the revocation resolves, the store is empty and exactly one `logout` is appended; `#token` is not reset |
| `LoginFlow.RequestLogoutThrew` | OauthManager.js:86 | if the revocation throws, nothing is cleared, navigated or dispatched |
| `OauthManager.OauthLoginManager.IsLoggedIn` | OauthManager.js:28 | true exactly when a token is held; true whenever the store has `accessToken` |
| `OauthManager.OauthLoginManager.constructor` | OauthManager.js:31-38 | loads `#token` and `#code` from the store; establishes the invariant |
| `OauthManager.OauthLoginManager.Initialize` | OauthManager.js:40-45 | takes exactly `InitializeStep` and keeps the invariant |
| `OauthManager.OauthLoginManager.FinishLoginProcedure` | OauthManager.js:47-62 | takes exactly `FinishLoginStep` and keeps the invariant |
| `OauthManager.OauthLoginManager.FetchAuthToken` | OauthManager.js:69-82 | logs one POST to `apiEndpoint + 'token'` with grant type, code, redirect URI, client id and verifier, and returns the given response |
| `OauthManager.OauthLoginManager.RequestLogout` | OauthManager.js:84-90 | takes exactly `RequestLogoutStep` and keeps the invariant |
| `OauthManager.OauthLoginManager.RequestLogin` | OauthManager.js:92-105 | takes exactly `RequestLoginStep` and keeps the invariant |
| `OauthManager.ReinitializeLoggedIn` | OauthManager.js:40-45 | on a logged-in manager, two `initialize` calls append the same `authorization` twice and change nothing else |

## Left out

- Network: `fetch` is not modelled.
  - The token exchange is the input `Granted`/`Refused`.
  - A `fetch` that rejects during the exchange is not a separate case. It would
    leave the same state as `Refused`, with a different error.
  - The JSON parsing of the response (OauthManager.js:80-81) is not modelled.
    The granted token is the input string.
- Revocation: it is the input `Resolved`/`Threw`. When it throws, the model
  does not log whether a request left; a ReferenceError on `headers` throws
  before `fetch` is called.
- `crypto.getRandomValues` and `crypto.subtle.digest` are foreign calls. The
  random bytes are parameters. SHA-256 is a function parameter that returns 32
  bytes. `TextEncoder` is folded into that function's input.
- Browser APIs:
  - The derivation of `#clientUrl` from `location.href` (OauthManager.js:22-26)
    is not modelled; the client URL is an opaque string.
  - `URL` and `URLSearchParams` parsing are not modelled. A query already
    present in `oauthEndpoint` is not modelled.
  - `document.title` in `replaceState` is not modelled.
- `EventTarget` dispatch becomes an append to the event log, and listeners are
  not modelled. `console.log` is dropped.
- `async`/`await`: each operation runs to completion, in order.
- The statistical quality of the randomness (the bias of `% 66`, entropy)
  cannot be stated here.
- `LoginFlow.QueryOmitsVerifier`: states that no value equals the verifier
  only when the client URL and the client id differ from it; a caller could
  configure either to equal it.
- `LoginFlow.RequestLoginKeepsVerifierSecret`: states "no parameter carries the
  verifier" only when the client URL and the client id differ from the
  verifier. Both come from the caller, and the source does not guarantee they
  differ.
