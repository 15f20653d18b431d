# fayda-auth-sdk, modelled in Dafny

The SDK wraps five HTTP endpoints of a national digital-identity platform:

- OIDC login (`FaydaOIDC`): authorization code with PKCE, token exchange, user info and ID-token decoding.
- Client-credential authentication (`ClientAuthService`).
- OTP issuance (`OTPService`).
- Resident authentication (`ResidentAuthService`).
- e-KYC retrieval (`EKYCService`).

Each adapter method does three things:
1. It builds one request from its stored configuration and the caller's arguments.
2. It makes exactly one `axios` call.
3. It either passes the response data back or rejects with an error message built from a fixed context phrase.

The model follows that structure.

- Every adapter call is a function of the configuration and the call arguments.
- The HTTP client is a function parameter `axios: Request<B> -> Outcome<D>`. The request an adapter builds is a value (`Request`), so its URL, headers, body and `withCredentials` flag are stated, and the model feeds exactly that request to `axios`.
- The four service adapters hold configuration that is only set once, so they are datatypes.
- `FaydaOidc` is a class. Its fields are `const`: they are assigned in the constructor, including the one PKCE code verifier, and never again.

Two building blocks of JavaScript are modelled because the adapters' results depend on them.

- **The `URLSearchParams` serializer** (module `FormUrlEncoded`): the application/x-www-form-urlencoded serializer of the WHATWG URL Standard (section 5.2), over UTF-8.
  - Code points are encoded to bytes.
  - ASCII alphanumerics and `*-._` are copied, a space becomes `+`, and every other byte becomes `%XX` in upper-case hex.
  - Its partner is the form parser of the same standard (section 5.1). The lemma proved about them is `Parse(Serialize(ps)) == Some(ps)`.
  - Every OIDC query and form body is stated twice: its `&`-separated pieces are the serialized tuples, one per parameter in order, and it parses back to the parameters. Lemmas then give each piece as text, such as `response_type=code` or `client_id=` followed by the serialized client id.
- **The string operations the client-auth adapter uses** (module `Strings`): `includes`, `toLowerCase`, `split` on one character, and the lookup of a header by name.

Modules: `Wrappers` (Option, Result), `Strings`, `FormUrlEncoded`, `Http` (request, outcome, failure and the shared service error normaliser, partner URL and header map), `Otp`, `ResidentAuth`, `Ekyc`, `ClientAuth`, `Oidc`.

Three points of the code's behaviour are easy to misread:

- **Which cookie is selected.** The client-auth adapter selects by substring, not by cookie name: it picks the first `Set-Cookie` entry whose lower-cased text *contains* `authorization=` (`x-authorization=abc` qualifies).
  - The token is the piece after the first `=` of the text before the first `;`, up to the next `=`.
  - When that piece does not exist, the call resolves with `undefined` (`Ok(None)` here) instead of failing.
- **How the error normalisers render response data.** The OIDC client and the four services render response data differently. The OIDC client uses a template literal, so its default detail is `No additional details`. The services use `JSON.stringify`, so theirs is `"No additional details"` with the quotes.
- **The 43-character challenge.** It is a property of the PKCE helper in `src/utils.ts`, which is not part of this model. It is proved under `FaydaOidc.Valid()`, which records the shape of the helper's output.

## Model

| member | source | states |
|---|---|---|
| Strings.Includes | src/services/ClientAuthService.ts:71 | JavaScript `String.prototype.includes`; characterised by Strings.IncludesIff |
| Strings.IncludesIff | src/services/ClientAuthService.ts:71 | `includes` holds exactly when the needle occurs at some position of the text |
| Strings.LowerChar | src/services/ClientAuthService.ts:71 | an upper-case ASCII letter maps to its lower-case letter, any other character to itself |
| Strings.ToLower | src/services/ClientAuthService.ts:71 | the lower-cased text has the same length and each character lowered |
| Strings.IndexOf | src/services/ClientAuthService.ts:77 | the result is the first position of the character, or the length when it is absent |
| Strings.Split | src/services/ClientAuthService.ts:77 | `split` on one character yields at least one piece |
| Strings.SplitJoin | src/services/ClientAuthService.ts:77 | joining the pieces with the separator gives back the text, and no piece holds the separator |
| Strings.JoinSplit | src/services/ClientAuthService.ts:77 | splitting a join of separator-free pieces gives back those pieces |
| Strings.SplitAppend | src/services/ClientAuthService.ts:77 | splitting around one separator is splitting each side and concatenating the pieces |
| Strings.SplitSecond | src/services/ClientAuthService.ts:77 | the second piece runs from after the first separator to the next one or the end |
| Strings.JoinIncludes | src/oidc.ts:52 | text ending in a join includes every piece of it and every start of a piece |
| Strings.SplitIncludes | src/oidc.ts:52 | text starting with a prefix includes every piece, and every start of a piece, of what follows the prefix |
| Strings.Lookup | src/services/OTPService.ts:47-51 | a header is absent exactly when no entry has the name, and otherwise has the value of the first entry with it |
| FormUrlEncoded.EncodeChar | src/oidc.ts:43-52 | an ASCII character encodes to its own single byte, any other to 2-4 bytes, all of them 0x80 or above |
| FormUrlEncoded.DecodeEncodeChar | src/oidc.ts:43-52 | decoding the UTF-8 bytes of a character, whatever follows them, gives back the character and how many bytes it took |
| FormUrlEncoded.Utf8RoundTrip | src/oidc.ts:43-52 | UTF-8 decoding inverts UTF-8 encoding |
| FormUrlEncoded.SerializedAlphabet | src/oidc.ts:43-52 | serialized bytes consist only of unreserved ASCII characters, `+` and `%` |
| FormUrlEncoded.SerializeComponent | src/oidc.ts:43-52 | a serialized name or value contains neither `&` nor `=` |
| FormUrlEncoded.SerializePair | src/oidc.ts:43-52 | a serialized tuple is non-empty and contains no `&` |
| FormUrlEncoded.SerializePairs | src/oidc.ts:43-52 | one serialized tuple per tuple, in order |
| FormUrlEncoded.DecodeSerializeBytes | src/oidc.ts:43-52 | percent-decoding inverts byte serialization |
| FormUrlEncoded.ComponentRoundTrip | src/oidc.ts:43-52 | a serialized name or value decodes back to the original text |
| FormUrlEncoded.PairRoundTrip | src/oidc.ts:43-52 | a serialized tuple parses back to the tuple |
| FormUrlEncoded.PiecesRoundTrip | src/oidc.ts:43-52 | the list of serialized tuples parses back to the tuples in order |
| FormUrlEncoded.Serialize | src/oidc.ts:52 | `URLSearchParams.toString()`, also used for the token body at src/oidc.ts:72; characterised by FormUrlEncoded.SerializeSplit and FormUrlEncoded.SerializeRoundTrip |
| FormUrlEncoded.SerializeRoundTrip | src/oidc.ts:43-52 | the form parser reads a serialization back as exactly the tuples, in order |
| FormUrlEncoded.SerializeSplit | src/oidc.ts:43-52 | the `&`-separated pieces of a serialized non-empty list are its serialized tuples, in order |
| FormUrlEncoded.PairText | src/oidc.ts:43-52 | a tuple whose name needs no escaping is sent as the name, `=` and the serialized value |
| FormUrlEncoded.SerializeUnreserved | src/oidc.ts:43-52 | a text of unreserved ASCII characters serializes to itself |
| FormUrlEncoded.SerializeComponentAppend | src/oidc.ts:43-52 | the serialization of a concatenation is the concatenation of the serializations |
| FormUrlEncoded.SerializeReservedChar | src/oidc.ts:43-52 | a reserved ASCII character serializes to `%` and its two upper-case hex digits |
| FormUrlEncoded.SerializeHttpUri | src/oidc.ts:46 | with unreserved scheme, host, port and path, `scheme://host:port/path` serializes to `scheme%3A%2F%2Fhost%3Aport%2Fpath` |
| FormUrlEncoded.SerializeSpaces | src/oidc.ts:47 | with unreserved words, the spaces between them serialize to `+` |
| Http.ServiceErrorMessage | src/services/OTPService.ts:59-71 | the message is the context and `: ` followed by either the axios message, ` - ` and the JSON rendering of the response data (or of the default text), or the `Error` message, or `String(e)` |
| Http.PartnerUrl | src/services/OTPService.ts:43 | the URL template `${baseUrl}/idauthentication/v1/<service>/<licenceKey>/<partnerId>/<apiKey>`, shared with src/services/ResidentAuthService.ts:53 and src/services/EKYCService.ts:53; characterised by Http.PartnerUrlSegments and Http.PartnerUrlInjective |
| Http.PartnerUrlSegments | src/services/OTPService.ts:43 | with slash-free parts, the partner URL splits on `/` into the base URL's segments followed by `idauthentication`, `v1`, the service, the licence key, the partner id and the API key |
| Http.PartnerUrlInjective | src/services/OTPService.ts:43 | with slash-free parts, different service, key or partner values give different URLs |
| Http.PartnerHeaders | src/services/OTPService.ts:47-51 | exactly three headers: `Authorization` is the stored token, `Signature` is the JWS and `Content-Type` is `application/json` |
| Otp.OtpRequest | src/services/OTPService.ts:43-52 | a POST to `baseUrl/idauthentication/v1/otp/licenceKey/partnerId/apiKey` with the three partner headers and the caller's body unchanged |
| Otp.RequestOtp | src/services/OTPService.ts:39-57 | success returns the response data unchanged; failure yields the service message with context "Failed to request OTP" |
| ResidentAuth.AuthRequest | src/services/ResidentAuthService.ts:53-62 | a POST to `baseUrl/idauthentication/v1/auth/licenceKey/authPartnerId/apiKey` with the three partner headers and the caller's body unchanged |
| ResidentAuth.AuthenticateResident | src/services/ResidentAuthService.ts:49-67 | success returns the response data unchanged; failure yields the service message with context "Failed to authenticate resident" |
| Ekyc.KycRequest | src/services/EKYCService.ts:53-62 | a POST to `baseUrl/idauthentication/v1/kyc/licenceKey/ekycPartnerId/apiKey` with the three partner headers and the caller's body unchanged, including the optional `secondaryLangCode` |
| Ekyc.RequestEkyc | src/services/EKYCService.ts:49-67 | success returns the response data unchanged; failure yields the service message with context "Failed to request e-KYC" |
| ClientAuth.AuthenticateRequest | src/services/ClientAuthService.ts:40-61 | a POST with credentials to `baseUrl/v1/authmanager/authenticate/clientidsecretkey`, sending `fayda.client.authenticate`, version `1.0`, null metadata and the three credentials unchanged |
| ClientAuth.IsAuthCookie | src/services/ClientAuthService.ts:71 | `cookie.toLowerCase().includes("authorization=")`; characterised by ClientAuth.IsAuthCookieIff |
| ClientAuth.IsAuthCookieIff | src/services/ClientAuthService.ts:71 | a cookie is selected exactly when `authorization=` matches at some position, after lower-casing |
| ClientAuth.FindAuthCookie | src/services/ClientAuthService.ts:70-72 | none is found exactly when no entry is selected; otherwise the result is an entry that is selected and has no selected entry before it |
| ClientAuth.FindAuthCookieFirst | src/services/ClientAuthService.ts:70-72 | the first selected entry is the one found |
| ClientAuth.FindAuthCookieIgnoresLater | src/services/ClientAuthService.ts:70-72 | cookies after a selected one do not change the result |
| ClientAuth.TokenValue | src/services/ClientAuthService.ts:77 | `authCookie.split(";")[0].split("=")[1]`, with `undefined` as none; characterised by ClientAuth.TokenValueIff and ClientAuth.TokenValueUndefined |
| ClientAuth.TokenValueOfBounds | src/services/ClientAuthService.ts:77 | the token is the text after the first `=` (which precedes any `;`) up to the next `=`, `;` or the end |
| ClientAuth.TokenValueIff | src/services/ClientAuthService.ts:77 | the token is `t` exactly when such bounds exist and enclose `t` |
| ClientAuth.TokenValueUndefined | src/services/ClientAuthService.ts:77 | the token is undefined exactly when every `=` of the cookie comes after a `;` |
| ClientAuth.ContainsNeedleSelected | src/services/ClientAuthService.ts:71 | any cookie containing `authorization=` is selected, whatever its name |
| ClientAuth.NamedCookieToken | src/services/ClientAuthService.ts:77 | `name=token;attributes` yields `token` when name and token hold no `=` or `;` |
| ClientAuth.AuthorizationCookieToken | src/services/ClientAuthService.ts:70-77 | `authorization=token;attributes` is selected and yields `token` |
| ClientAuth.TokenUndefinedAfterAttribute | src/services/ClientAuthService.ts:77-78 | `attribute; authorization=token` is selected but yields an undefined token |
| ClientAuth.AuthenticateClient | src/services/ClientAuthService.ts:54-81 | a transport failure, a missing header and a missing cookie each give their normalised message under "Failed to authenticate client"; otherwise the result is the token of the first selected cookie |
| ClientAuth.AuthenticateClientFirstCookie | src/services/ClientAuthService.ts:63-78 | when the first cookie is `authorization=token;attributes`, the call resolves with `token` whatever follows |
| ClientAuth.AuthenticateClientExample | src/services/ClientAuthService.ts:63-78 | `authorization=fake-auth-token; Path=/; HttpOnly` followed by another cookie gives `fake-auth-token` |
| Oidc.ThrownText | src/oidc.ts:110 | an `Error` contributes its message and anything else its `String` rendering |
| Oidc.FaydaOidc.constructor | src/oidc.ts:29-36 | the five configuration values are copied and the one verifier is kept |
| Oidc.FaydaOidc.AuthorizationUrl | src/oidc.ts:41-53 | the URL is the authorization endpoint, `?`, and a query whose `&`-separated pieces are the serialized `client_id`, `response_type=code`, `redirect_uri`, `scope=openid profile email`, `state`, the challenge of the stored verifier and `code_challenge_method=S256`, in that order; the query parses back to those seven parameters |
| Oidc.FaydaOidc.TokenRequest | src/oidc.ts:61-78 | a POST to the token endpoint whose only header is the form content type, and whose body's `&`-separated pieces are the serialized `grant_type=authorization_code`, `code`, `redirect_uri`, `client_id` and `code_verifier`, in that order; the body parses back to those five fields |
| Oidc.FaydaOidc.ErrorMessage | src/oidc.ts:119-131 | the message is the context and `: ` followed by either the axios message, ` - ` and the template rendering of the response data (or of the default text), or the `Error` message, or `String(e)` |
| Oidc.FaydaOidc.ExchangeCodeForTokens | src/oidc.ts:58-83 | success returns whatever data the token endpoint answered with, unchanged; failure yields the OIDC message with context "Failed to exchange code for tokens" |
| Oidc.FaydaOidc.UserInfoRequest | src/oidc.ts:90-94 | a GET to the user-info endpoint whose one header is `Authorization: Bearer <accessToken>` |
| Oidc.FaydaOidc.GetUserInfo | src/oidc.ts:88-99 | success returns the response data unchanged; failure yields the OIDC message with context "Failed to fetch user information" |
| Oidc.FaydaOidc.DecodeIdToken | src/oidc.ts:104-114 | returns the decoder's claims, or an error starting "Failed to decode ID token: " followed by what the decoder threw |
| Oidc.FaydaOidc.PkceBinding | src/oidc.ts:35-67 | for any state and code, the URL's `code_challenge` is the challenge of exactly the `code_verifier` the token form sends, which is the stored verifier |
| Oidc.FaydaOidc.AuthorizationQueryText | src/oidc.ts:43-52 | the seven query pieces are the texts `client_id=` plus the serialized client id, `response_type=code`, `redirect_uri=` plus the serialized redirect URI, `scope=openid+profile+email`, `state=` plus the serialized state, `code_challenge=` plus the serialized challenge of the stored verifier, and `code_challenge_method=S256` |
| Oidc.FaydaOidc.ChallengeInQuery | src/oidc.ts:42-50 | under the PKCE helper's guarantees, the challenge is 43 characters and the sixth query piece is the text `code_challenge=` followed by the challenge as it is; the parsed query's `code_challenge` is that challenge |
| Oidc.FaydaOidc.AuthorizationUrlIncludes | src/oidc.ts:43-52 | for any configuration, verifier and state, the URL contains `client_id=`, `redirect_uri=` and `state=` each followed by its serialized value, as well as `code_challenge=` and `code_challenge_method=S256` |
| Oidc.FaydaOidc.AuthorizationUrlExample | test/oidc.test.ts:14-29 | with the test's client id `test-client-id`, redirect URI `http://localhost:4000/callback` and state `test-state`, the query pieces are `client_id=test-client-id`, `redirect_uri=http%3A%2F%2Flocalhost%3A4000%2Fcallback`, `state=test-state`, a piece starting `code_challenge=` and `code_challenge_method=S256` |
| Oidc.FaydaOidc.AuthorizationUrlExampleIncludes | test/oidc.test.ts:23-29 | that test's URL contains each of the five texts the test looks for |
| Oidc.FaydaOidc.TokenFormText | src/oidc.ts:61-67 | the form pieces are the texts `grant_type=authorization_code`, and `code=`, `redirect_uri=` and `client_id=` each followed by its serialized value |
| Oidc.FaydaOidc.VerifierInForm | src/oidc.ts:61-67 | under the PKCE helper's guarantees, the verifier is 64 characters and the fifth form piece is the text `code_verifier=` followed by the verifier as it is; the parsed form's `code_verifier` is that verifier |
| Oidc.AuthorizationParams | src/oidc.ts:43-51 | the seven `URLSearchParams` entries of `getAuthorizationUrl`, in order; characterised as text by Oidc.QueryPieces and Oidc.FaydaOidc.AuthorizationQueryText |
| Oidc.TokenForm | src/oidc.ts:61-67 | the five `URLSearchParams` entries of `exchangeCodeForTokens`, in order; characterised as text by Oidc.FormPieces and Oidc.FaydaOidc.TokenFormText |
| Oidc.QueryPieces | src/oidc.ts:43-52 | the serialized authorization parameters read, as text, `client_id=…`, `response_type=code`, `redirect_uri=…`, `scope=openid+profile+email`, `state=…`, `code_challenge=…` and `code_challenge_method=S256` |
| Oidc.FormPieces | src/oidc.ts:61-67 | the serialized token-request fields read, as text, `grant_type=authorization_code`, `code=…`, `redirect_uri=…` and `client_id=…` |
| Oidc.ScopeEncoded | src/oidc.ts:47 | the scope `openid profile email` is sent as `openid+profile+email` |
| Oidc.ChallengePiece | src/oidc.ts:49 | a code challenge is sent as `code_challenge=` followed by the challenge unchanged |
| Oidc.VerifierPiece | src/oidc.ts:66 | a code verifier is sent as `code_verifier=` followed by the verifier unchanged |
| Oidc.TestRedirectUriEncoded | test/oidc.test.ts:16-26 | the test's redirect URI `http://localhost:4000/callback` is sent as `http%3A%2F%2Flocalhost%3A4000%2Fcallback` |
| Oidc.ErrorMessagesCompared | src/oidc.ts:119-131 | the OIDC and service normalisers agree except on response detail; with no response data, the services quote the default text and the OIDC client does not |

## Left out

- Network I/O, promises and `await`: each `axios` call is the function parameter `axios`, and an adapter's `await` is applying it once.
- `src/utils.ts` (the PKCE helper) is not part of this model. The random code verifier and the SHA-256/base64url challenge derivation are constructor parameters of `FaydaOidc`. `Valid()` records the shape of their output: 64 lower-case hex digits and 43 base64url characters. SHA-256 itself is not modelled.
- `jwt-decode` is the parameter `jwtDecode`, so the claims it extracts are not modelled.
- The clock: the `requesttime` of the client-auth envelope (`new Date().toISOString()`) is a parameter.
- `JSON.stringify` and template-literal rendering of arbitrary response data: `ResponseBody` carries both renderings, pre-computed. A missing or falsy `response.data` is `None`.
- Strings.ToLower: lowers ASCII letters only, not the full Unicode case mapping of `toLowerCase`. Matching against the lower-case ASCII needle `authorization=` is exact for ASCII cookie text.
- FormUrlEncoded.Parse: returns `None` on bytes that are not UTF-8, where the standard substitutes U+FFFD. It serves only as the partner of the serializer, whose output is always valid UTF-8.
- JavaScript strings are UTF-16 and may hold lone surrogates, which `URLSearchParams` replaces with U+FFFD. A Dafny `char` cannot be a surrogate, so that case is not modelled.
- The `Tokens` interface: `axios.post<Tokens>` is a compile-time annotation that nothing checks at run time, so the token exchange passes through whatever data the endpoint answers with. Its type is a parameter `D`, as for user info.
- The client-auth response body (`ClientAuthResponse`) and its other headers are ignored by the code and are not modelled.
- The token-exchange test checks the body only as `expect.any(String)`, so there is no literal instance of the form body. Its pieces are given for any code and configuration by `TokenFormText` and `VerifierInForm`.
- The challenge piece is stated for a challenge of the PKCE helper's shape. The test's own challenge, SHA-256 of a random verifier, is not computed.
- Repeated `getAuthorizationUrl(state)` calls return the same URL because the model is functional and the verifier is a `const`. There is no separate lemma for it.
- The four copies of the services' `handleAxiosError` are one function, `Http.ServiceErrorMessage`.
