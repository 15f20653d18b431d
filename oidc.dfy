/** The OIDC client: authorization-code flow with PKCE against the
    identity provider's authorization, token and user-info endpoints. */
module Oidc {
  import opened Wrappers
  import opened Strings
  import opened FormUrlEncoded
  import opened Http

  /** The configuration the client is constructed from. */
  datatype OidcConfig = OidcConfig(
    clientId: string,
    redirectUri: string,
    authorizationEndpoint: string,
    tokenEndpoint: string,
    userInfoEndpoint: string)

  /** What the JWT decoder can throw: an `Error`, whose message is used, or
      any other value, rendered by `String(error)`. */
  datatype Thrown = ThrownError(message: string) | ThrownValue(rendered: string)

  /** How the JWT payload decoder returns: with the claims, or by throwing. */
  datatype Decoding<C> = Decoded(claims: C) | DecodeFailed(thrown: Thrown)

  const Scope: string := "openid profile email"
  const ChallengeMethod: string := "S256"
  const FormContentType: string := "application/x-www-form-urlencoded"
  const ExchangeContext: string := "Failed to exchange code for tokens"
  const UserInfoContext: string := "Failed to fetch user information"
  const DecodeContext: string := "Failed to decode ID token"

  /** A code verifier as the PKCE helper makes it: 32 random bytes written
      as 64 lower-case hexadecimal digits. */
  predicate IsCodeVerifier(v: string)
  {
    |v| == 64 && forall k :: 0 <= k < |v| ==> ('0' <= v[k] <= '9' || 'a' <= v[k] <= 'f')
  }

  predicate IsBase64UrlChar(c: char)
  {
    'A' <= c <= 'Z' || 'a' <= c <= 'z' || '0' <= c <= '9' || c == '-' || c == '_'
  }

  /** A code challenge as the PKCE helper makes it: a SHA-256 digest in
      unpadded base64url, 43 characters. */
  predicate IsCodeChallenge(c: string)
  {
    |c| == 43 && forall k :: 0 <= k < |c| ==> IsBase64UrlChar(c[k])
  }

  /** The message text of what the decoder threw: `error.message` for an
      `Error`, `String(error)` for anything else. */
  function ThrownText(t: Thrown): (text: string)
    ensures t.ThrownError? ==> text == t.message
    ensures t.ThrownValue? ==> text == t.rendered
  {
    match t
    case ThrownError(message) => message
    case ThrownValue(rendered) => rendered
  }

  /** The seven query parameters of the authorization request, in the
      order `getAuthorizationUrl` lists them. */
  function AuthorizationParams(clientId: string, redirectUri: string, state: string, challenge: string): seq<Pair>
  {
    [("client_id", clientId),
     ("response_type", "code"),
     ("redirect_uri", redirectUri),
     ("scope", Scope),
     ("state", state),
     ("code_challenge", challenge),
     ("code_challenge_method", ChallengeMethod)]
  }

  /** The five fields of the token request, in the order
      `exchangeCodeForTokens` lists them. */
  function TokenForm(code: string, redirectUri: string, clientId: string, verifier: string): seq<Pair>
  {
    [("grant_type", "authorization_code"),
     ("code", code),
     ("redirect_uri", redirectUri),
     ("client_id", clientId),
     ("code_verifier", verifier)]
  }

  class FaydaOidc {
    const clientId: string
    const redirectUri: string
    const authorizationEndpoint: string
    const tokenEndpoint: string
    const userInfoEndpoint: string
    /** Generated once, at construction, and never replaced. */
    const codeVerifier: string
    /** The challenge derivation: SHA-256, then unpadded base64url. */
    const s256: string -> string

    /** The verifier and the challenge derivation are what the PKCE helper
        guarantees of them. */
    ghost predicate Valid()
    {
      IsCodeVerifier(codeVerifier) && forall v :: IsCodeChallenge(s256(v))
    }

    /** `new FaydaOIDC(config)`: copies the configuration and keeps the
        verifier the PKCE helper generated. */
    constructor(config: OidcConfig, verifier: string, s256: string -> string)
      ensures clientId == config.clientId && redirectUri == config.redirectUri
      ensures authorizationEndpoint == config.authorizationEndpoint
      ensures tokenEndpoint == config.tokenEndpoint && userInfoEndpoint == config.userInfoEndpoint
      ensures codeVerifier == verifier && this.s256 == s256
      ensures IsCodeVerifier(verifier) && (forall v :: IsCodeChallenge(s256(v))) ==> Valid()
    {
      clientId := config.clientId;
      redirectUri := config.redirectUri;
      authorizationEndpoint := config.authorizationEndpoint;
      tokenEndpoint := config.tokenEndpoint;
      userInfoEndpoint := config.userInfoEndpoint;
      codeVerifier := verifier;
      this.s256 := s256;
    }

    /** `getAuthorizationUrl(state)`: the authorization endpoint, `?`, and
        the seven parameters with the challenge of the stored verifier,
        serialized one tuple per `&`-separated piece, in order. */
    function AuthorizationUrl(state: string): (url: string)
      ensures StartsWith(url, authorizationEndpoint + "?")
      ensures var query := url[|authorizationEndpoint| + 1..];
        var params := AuthorizationParams(clientId, redirectUri, state, s256(codeVerifier));
        Split(query, '&') == SerializePairs(params) && Parse(query) == Some(params)
    {
      var params := AuthorizationParams(clientId, redirectUri, state, s256(codeVerifier));
      var url := authorizationEndpoint + "?" + Serialize(params);
      SerializeSplit(params);
      SerializeRoundTrip(params);
      assert url[|authorizationEndpoint| + 1..] == Serialize(params);
      url
    }

    /** The POST `exchangeCodeForTokens(code)` makes: to the token
        endpoint, with the form content type as its only header, and a
        form body holding the five token-request fields, serialized one
        tuple per `&`-separated piece, in order. */
    function TokenRequest(code: string): (r: Request<string>)
      ensures r.verb == Post && r.url == tokenEndpoint && !r.withCredentials
      ensures r.headers == [("Content-Type", FormContentType)]
      ensures r.body.Some?
      ensures var form := TokenForm(code, redirectUri, clientId, codeVerifier);
        Split(r.body.value, '&') == SerializePairs(form) && Parse(r.body.value) == Some(form)
    {
      var form := TokenForm(code, redirectUri, clientId, codeVerifier);
      SerializeSplit(form);
      SerializeRoundTrip(form);
      Request(Post, tokenEndpoint, [("Content-Type", FormContentType)], Some(Serialize(form)), false)
    }

    /** `handleAxiosError` of the OIDC client. Every message starts with the
        context and `: `; the response data (or the default text) is
        rendered by a template literal, not by `JSON.stringify`. */
    static function ErrorMessage(context: string, f: Failure): (m: string)
      ensures StartsWith(m, context + ": ")
      ensures f.AxiosFailure? ==>
        m[|context| + 2..] == f.message + " - " + (if f.body.Some? then f.body.value.text else NoDetails)
      ensures f.ErrorFailure? ==> m[|context| + 2..] == f.message
      ensures f.OtherFailure? ==> m[|context| + 2..] == f.rendered
    {
      var prefix := context + ": ";
      var m := match f
        case AxiosFailure(message, body) =>
          prefix + message + " - " + (if body.Some? then body.value.text else NoDetails)
        case ErrorFailure(message) => prefix + message
        case OtherFailure(rendered) => prefix + rendered;
      assert m[..|prefix|] == prefix;
      m
    }

    /** `exchangeCodeForTokens(code)`: one POST through `axios`; whatever
        data the token endpoint answers with on success, the normalised
        error otherwise. */
    function ExchangeCodeForTokens<D>(code: string, axios: Request<string> -> Outcome<D>): (r: Result<D>)
      ensures var o := axios(TokenRequest(code)); o.Response? ==> r == Ok(o.data)
      ensures var o := axios(TokenRequest(code)); o.Failed? ==> r == Err(ErrorMessage(ExchangeContext, o.failure))
      ensures r.Err? ==> StartsWith(r.message, ExchangeContext + ": ")
    {
      match axios(TokenRequest(code))
      case Response(data, _) => Ok(data)
      case Failed(f) => Err(ErrorMessage(ExchangeContext, f))
    }

    /** The GET `getUserInfo(accessToken)` makes: to the user-info endpoint
        with the access token as a bearer credential and nothing else. */
    function UserInfoRequest(accessToken: string): (r: Request<string>)
      ensures r.verb == Get && r.url == userInfoEndpoint && r.body.None? && !r.withCredentials
      ensures |r.headers| == 1 && Lookup(r.headers, "Authorization") == Some("Bearer " + accessToken)
    {
      Request(Get, userInfoEndpoint, [("Authorization", "Bearer " + accessToken)], None, false)
    }

    /** `getUserInfo(accessToken)`: one GET through `axios`; the response
        data on success, the normalised error otherwise. */
    function GetUserInfo<D>(accessToken: string, axios: Request<string> -> Outcome<D>): (r: Result<D>)
      ensures var o := axios(UserInfoRequest(accessToken)); o.Response? ==> r == Ok(o.data)
      ensures var o := axios(UserInfoRequest(accessToken)); o.Failed? ==> r == Err(ErrorMessage(UserInfoContext, o.failure))
      ensures r.Err? ==> StartsWith(r.message, UserInfoContext + ": ")
    {
      match axios(UserInfoRequest(accessToken))
      case Response(data, _) => Ok(data)
      case Failed(f) => Err(ErrorMessage(UserInfoContext, f))
    }

    /** `decodeIdToken(idToken)`: the decoder's claims, or an error whose
        message starts with "Failed to decode ID token: " followed by what
        the decoder threw. No signature is checked. */
    function DecodeIdToken<C>(idToken: string, jwtDecode: string -> Decoding<C>): (r: Result<C>)
      ensures jwtDecode(idToken).Decoded? ==> r == Ok(jwtDecode(idToken).claims)
      ensures jwtDecode(idToken).DecodeFailed? ==>
        r.Err? && StartsWith(r.message, DecodeContext + ": ")
        && r.message[|DecodeContext| + 2..] == ThrownText(jwtDecode(idToken).thrown)
    {
      match jwtDecode(idToken)
      case Decoded(claims) => Ok(claims)
      case DecodeFailed(t) =>
        var m := DecodeContext + ": " + ThrownText(t);
        assert m[..|DecodeContext| + 2] == DecodeContext + ": ";
        Err(m)
    }

    /** PKCE binding: for any state and any code, the challenge sent with
        the authorization request is the derivation of exactly the verifier
        the token request later proves possession of. */
    lemma PkceBinding(state: string, code: string)
      ensures var query := Parse(AuthorizationUrl(state)[|authorizationEndpoint| + 1..]);
              var form := Parse(TokenRequest(code).body.value);
              query.Some? && form.Some?
              && Lookup(form.value, "code_verifier") == Some(codeVerifier)
              && Lookup(query.value, "code_challenge") == Some(s256(Lookup(form.value, "code_verifier").value))
    {
      var url := AuthorizationUrl(state);
      var r := TokenRequest(code);
      ChallengeLookup(clientId, redirectUri, state, s256(codeVerifier));
      VerifierLookup(code, redirectUri, clientId, codeVerifier);
    }

    /** The query pieces as text: the names and the fixed values are
        copied, the scope's spaces become `+`, and the client id, redirect
        URI, state and challenge are serialized. */
    lemma AuthorizationQueryText(state: string)
      ensures var pieces := Split(AuthorizationUrl(state)[|authorizationEndpoint| + 1..], '&');
        |pieces| == 7
        && pieces[0] == "client_id=" + SerializeComponent(clientId)
        && pieces[1] == "response_type=code"
        && pieces[2] == "redirect_uri=" + SerializeComponent(redirectUri)
        && pieces[3] == "scope=openid+profile+email"
        && pieces[4] == "state=" + SerializeComponent(state)
        && pieces[5] == "code_challenge=" + SerializeComponent(s256(codeVerifier))
        && pieces[6] == "code_challenge_method=S256"
    {
      var params := AuthorizationParams(clientId, redirectUri, state, s256(codeVerifier));
      assert Split(AuthorizationUrl(state)[|authorizationEndpoint| + 1..], '&') == SerializePairs(params);
      QueryPieces(clientId, redirectUri, state, s256(codeVerifier));
    }

    /** The challenge an authorization URL carries is 43 base64url
        characters, all of which the serializer copies unchanged: its
        query piece is `code_challenge=` and the challenge as it is, and
        the query reads back with that challenge. */
    lemma ChallengeInQuery(state: string)
      requires Valid()
      ensures var query := AuthorizationUrl(state)[|authorizationEndpoint| + 1..];
        var pieces := Split(query, '&');
        |s256(codeVerifier)| == 43 && |pieces| == 7
        && pieces[5] == "code_challenge=" + s256(codeVerifier)
        && Parse(query).Some? && Lookup(Parse(query).value, "code_challenge") == Some(s256(codeVerifier))
    {
      var challenge := s256(codeVerifier);
      var url := AuthorizationUrl(state);
      assert IsCodeChallenge(challenge);
      ChallengeLookup(clientId, redirectUri, state, challenge);
      ChallengePiece(challenge);
    }

    /** The URL of the authorization-URL test in test/oidc.test.ts: with
        the test's client id and redirect URI and the state "test-state",
        the query pieces carry exactly the texts that test looks for, and so
        the URL contains each of them. */
    lemma AuthorizationUrlExample()
      requires Valid()
      requires clientId == "test-client-id" && redirectUri == "http://localhost:4000/callback"
      ensures var url := AuthorizationUrl("test-state");
        var pieces := Split(url[|authorizationEndpoint| + 1..], '&');
        |pieces| == 7
        && pieces[0] == "client_id=test-client-id"
        && pieces[2] == "redirect_uri=http%3A%2F%2Flocalhost%3A4000%2Fcallback"
        && pieces[4] == "state=test-state"
        && StartsWith(pieces[5], "code_challenge=")
        && pieces[6] == "code_challenge_method=S256"
    {
      AuthorizationQueryText("test-state");
      ChallengeInQuery("test-state");
      TestConfigurationTexts();
    }

    /** Every query piece the authorization-URL test looks for occurs in
        the URL: the client id, redirect URI and state pieces, the start of
        the challenge piece, and the method piece. */
    lemma AuthorizationUrlIncludes(state: string)
      ensures var url := AuthorizationUrl(state);
        Includes(url, "client_id=" + SerializeComponent(clientId))
        && Includes(url, "redirect_uri=" + SerializeComponent(redirectUri))
        && Includes(url, "state=" + SerializeComponent(state))
        && Includes(url, "code_challenge=")
        && Includes(url, "code_challenge_method=S256")
    {
      var url, prefix := AuthorizationUrl(state), authorizationEndpoint + "?";
      var params := AuthorizationParams(clientId, redirectUri, state, s256(codeVerifier));
      assert Split(url[|prefix|..], '&') == SerializePairs(params);
      QueryPieces(clientId, redirectUri, state, s256(codeVerifier));
      QueryTextsIncluded(url, prefix, SerializePairs(params),
        SerializeComponent(clientId), SerializeComponent(redirectUri), SerializeComponent(state),
        SerializeComponent(s256(codeVerifier)));
    }

    /** The five `toContain` checks of that test hold of its URL. */
    lemma AuthorizationUrlExampleIncludes()
      requires Valid()
      requires clientId == "test-client-id" && redirectUri == "http://localhost:4000/callback"
      ensures var url := AuthorizationUrl("test-state");
        Includes(url, "client_id=test-client-id")
        && Includes(url, "redirect_uri=http%3A%2F%2Flocalhost%3A4000%2Fcallback")
        && Includes(url, "state=test-state")
        && Includes(url, "code_challenge=")
        && Includes(url, "code_challenge_method=S256")
    {
      AuthorizationUrlIncludes("test-state");
      TestConfigurationTexts();
    }

    /** The token-request pieces other than the verifier, as text. */
    lemma TokenFormText(code: string)
      ensures var pieces := Split(TokenRequest(code).body.value, '&');
        |pieces| == 5
        && pieces[0] == "grant_type=authorization_code"
        && pieces[1] == "code=" + SerializeComponent(code)
        && pieces[2] == "redirect_uri=" + SerializeComponent(redirectUri)
        && pieces[3] == "client_id=" + SerializeComponent(clientId)
    {
      var form := TokenForm(code, redirectUri, clientId, codeVerifier);
      assert Split(TokenRequest(code).body.value, '&') == SerializePairs(form);
      FormPieces(code, redirectUri, clientId, codeVerifier);
    }

    /** The verifier the token request proves possession of is 64
        hexadecimal digits, which the serializer copies unchanged: its form
        piece is `code_verifier=` and the verifier as it is, and the form
        reads back with that verifier. */
    lemma VerifierInForm(code: string)
      requires Valid()
      ensures var body := TokenRequest(code).body.value;
        var pieces := Split(body, '&');
        |codeVerifier| == 64 && |pieces| == 5
        && pieces[4] == "code_verifier=" + codeVerifier
        && Parse(body).Some? && Lookup(Parse(body).value, "code_verifier") == Some(codeVerifier)
    {
      var r := TokenRequest(code);
      VerifierLookup(code, redirectUri, clientId, codeVerifier);
      VerifierPiece(codeVerifier);
    }
  }

  /** Hexadecimal digits are unreserved: a verifier is sent as it is. */
  lemma VerifierCopied(v: string)
    requires IsCodeVerifier(v)
    ensures SerializeComponent(v) == v
  {
    SerializeUnreserved(v);
  }

  /** Base64url characters are unreserved: a challenge is sent as it is. */
  lemma ChallengeCopied(c: string)
    requires IsCodeChallenge(c)
    ensures SerializeComponent(c) == c
  {
    SerializeUnreserved(c);
  }

  lemma ChallengeLookup(clientId: string, redirectUri: string, state: string, challenge: string)
    ensures Lookup(AuthorizationParams(clientId, redirectUri, state, challenge), "code_challenge") == Some(challenge)
  {
    LookupAt(AuthorizationParams(clientId, redirectUri, state, challenge), "code_challenge", 5);
  }

  lemma VerifierLookup(code: string, redirectUri: string, clientId: string, verifier: string)
    ensures Lookup(TokenForm(code, redirectUri, clientId, verifier), "code_verifier") == Some(verifier)
  {
    LookupAt(TokenForm(code, redirectUri, clientId, verifier), "code_verifier", 4);
  }

  /** The authorization query's pieces as text. */
  lemma QueryPieces(clientId: string, redirectUri: string, state: string, challenge: string)
    ensures var pieces := SerializePairs(AuthorizationParams(clientId, redirectUri, state, challenge));
      pieces[0] == "client_id=" + SerializeComponent(clientId)
      && pieces[1] == "response_type=code"
      && pieces[2] == "redirect_uri=" + SerializeComponent(redirectUri)
      && pieces[3] == "scope=openid+profile+email"
      && pieces[4] == "state=" + SerializeComponent(state)
      && pieces[5] == "code_challenge=" + SerializeComponent(challenge)
      && pieces[6] == "code_challenge_method=S256"
  {
    QueryClientId(clientId, redirectUri, state, challenge);
    QueryResponseType(clientId, redirectUri, state, challenge);
    QueryRedirectUri(clientId, redirectUri, state, challenge);
    QueryScope(clientId, redirectUri, state, challenge);
    QueryState(clientId, redirectUri, state, challenge);
    QueryChallengeText(clientId, redirectUri, state, challenge);
    QueryChallengeMethod(clientId, redirectUri, state, challenge);
  }

  // One lemma per index of the query (here) and of the token form (after
  // FormPieces). Each reads a single serialized piece; they are apart only
  // because several indices of a literal list in one proof obligation are
  // costly for the solver.

  lemma QueryClientId(clientId: string, redirectUri: string, state: string, challenge: string)
    ensures SerializePairs(AuthorizationParams(clientId, redirectUri, state, challenge))[0]
         == "client_id=" + SerializeComponent(clientId)
  {
    ClientIdPiece(clientId);
  }

  lemma QueryResponseType(clientId: string, redirectUri: string, state: string, challenge: string)
    ensures SerializePairs(AuthorizationParams(clientId, redirectUri, state, challenge))[1] == "response_type=code"
  {
    ResponseTypePiece();
  }

  lemma QueryRedirectUri(clientId: string, redirectUri: string, state: string, challenge: string)
    ensures SerializePairs(AuthorizationParams(clientId, redirectUri, state, challenge))[2]
         == "redirect_uri=" + SerializeComponent(redirectUri)
  {
    RedirectUriPiece(redirectUri);
  }

  lemma QueryScope(clientId: string, redirectUri: string, state: string, challenge: string)
    ensures SerializePairs(AuthorizationParams(clientId, redirectUri, state, challenge))[3] == "scope=openid+profile+email"
  {
    ScopePiece();
  }

  lemma QueryState(clientId: string, redirectUri: string, state: string, challenge: string)
    ensures SerializePairs(AuthorizationParams(clientId, redirectUri, state, challenge))[4]
         == "state=" + SerializeComponent(state)
  {
    StatePiece(state);
  }

  lemma QueryChallengeText(clientId: string, redirectUri: string, state: string, challenge: string)
    ensures SerializePairs(AuthorizationParams(clientId, redirectUri, state, challenge))[5]
         == "code_challenge=" + SerializeComponent(challenge)
  {
    ChallengeText(challenge);
  }

  lemma QueryChallengeMethod(clientId: string, redirectUri: string, state: string, challenge: string)
    ensures SerializePairs(AuthorizationParams(clientId, redirectUri, state, challenge))[6]
         == "code_challenge_method=S256"
  {
    ChallengeMethodPiece();
  }

  /** The token request's pieces as text. */
  lemma FormPieces(code: string, redirectUri: string, clientId: string, verifier: string)
    ensures var pieces := SerializePairs(TokenForm(code, redirectUri, clientId, verifier));
      pieces[0] == "grant_type=authorization_code"
      && pieces[1] == "code=" + SerializeComponent(code)
      && pieces[2] == "redirect_uri=" + SerializeComponent(redirectUri)
      && pieces[3] == "client_id=" + SerializeComponent(clientId)
  {
    FormGrantType(code, redirectUri, clientId, verifier);
    FormCode(code, redirectUri, clientId, verifier);
    FormRedirectUri(code, redirectUri, clientId, verifier);
    FormClientId(code, redirectUri, clientId, verifier);
  }

  lemma FormGrantType(code: string, redirectUri: string, clientId: string, verifier: string)
    ensures SerializePairs(TokenForm(code, redirectUri, clientId, verifier))[0] == "grant_type=authorization_code"
  {
    GrantTypePiece();
  }

  lemma FormCode(code: string, redirectUri: string, clientId: string, verifier: string)
    ensures SerializePairs(TokenForm(code, redirectUri, clientId, verifier))[1] == "code=" + SerializeComponent(code)
  {
    CodePiece(code);
  }

  lemma FormRedirectUri(code: string, redirectUri: string, clientId: string, verifier: string)
    ensures SerializePairs(TokenForm(code, redirectUri, clientId, verifier))[2]
         == "redirect_uri=" + SerializeComponent(redirectUri)
  {
    RedirectUriPiece(redirectUri);
  }

  lemma FormClientId(code: string, redirectUri: string, clientId: string, verifier: string)
    ensures SerializePairs(TokenForm(code, redirectUri, clientId, verifier))[3]
         == "client_id=" + SerializeComponent(clientId)
  {
    ClientIdPiece(clientId);
  }

  // One lemma per parameter: its name (and fixed value) is unreserved, and
  // the piece is the name, `=`, and the serialized value.

  lemma ClientIdPiece(v: string)
    ensures SerializePair(("client_id", v)) == "client_id=" + SerializeComponent(v)
  {
    assert AllUnreserved("client_id") && "client_id=" + SerializeComponent(v) == "client_id" + "=" + SerializeComponent(v);
    PairText("client_id", v, SerializeComponent(v), "client_id=" + SerializeComponent(v));
  }

  lemma ResponseTypePiece()
    ensures SerializePair(("response_type", "code")) == "response_type=code"
  {
    assert AllUnreserved("response_type") && "response_type=code" == "response_type" + "=" + "code";
    assert AllUnreserved("code");
    SerializeUnreserved("code");
    PairText("response_type", "code", "code", "response_type=code");
  }

  lemma RedirectUriPiece(v: string)
    ensures SerializePair(("redirect_uri", v)) == "redirect_uri=" + SerializeComponent(v)
  {
    assert AllUnreserved("redirect_uri") && "redirect_uri=" + SerializeComponent(v) == "redirect_uri" + "=" + SerializeComponent(v);
    PairText("redirect_uri", v, SerializeComponent(v), "redirect_uri=" + SerializeComponent(v));
  }

  lemma ScopePiece()
    ensures SerializePair(("scope", Scope)) == "scope=openid+profile+email"
  {
    assert AllUnreserved("scope") && "scope=openid+profile+email" == "scope" + "=" + "openid+profile+email";
    ScopeEncoded();
    PairText("scope", Scope, "openid+profile+email", "scope=openid+profile+email");
  }

  /** The scope's two spaces are sent as `+`. */
  lemma ScopeEncoded()
    ensures SerializeComponent(Scope) == "openid+profile+email"
  {
    assert Scope == "openid" + " " + "profile" + " " + "email";
    assert "openid+profile+email" == "openid" + "+" + "profile" + "+" + "email";
    assert AllUnreserved("openid") && AllUnreserved("profile") && AllUnreserved("email");
    SerializeSpaces("openid", "profile", "email");
  }

  lemma StatePiece(v: string)
    ensures SerializePair(("state", v)) == "state=" + SerializeComponent(v)
  {
    assert AllUnreserved("state") && "state=" + SerializeComponent(v) == "state" + "=" + SerializeComponent(v);
    PairText("state", v, SerializeComponent(v), "state=" + SerializeComponent(v));
  }

  /** A challenge is sent as it is after `code_challenge=`. */
  lemma ChallengePiece(c: string)
    requires IsCodeChallenge(c)
    ensures SerializePair(("code_challenge", c)) == "code_challenge=" + c
  {
    ChallengeText(c);
    ChallengeCopied(c);
  }

  lemma ChallengeText(c: string)
    ensures SerializePair(("code_challenge", c)) == "code_challenge=" + SerializeComponent(c)
  {
    assert AllUnreserved("code_challenge") && "code_challenge=" + SerializeComponent(c) == "code_challenge" + "=" + SerializeComponent(c);
    PairText("code_challenge", c, SerializeComponent(c), "code_challenge=" + SerializeComponent(c));
  }

  lemma ChallengeMethodPiece()
    ensures SerializePair(("code_challenge_method", ChallengeMethod)) == "code_challenge_method=S256"
  {
    assert AllUnreserved("code_challenge_method");
    assert "code_challenge_method=S256" == "code_challenge_method" + "=" + ChallengeMethod;
    assert AllUnreserved(ChallengeMethod);
    SerializeUnreserved(ChallengeMethod);
    PairText("code_challenge_method", ChallengeMethod, ChallengeMethod, "code_challenge_method=S256");
  }

  lemma GrantTypePiece()
    ensures SerializePair(("grant_type", "authorization_code")) == "grant_type=authorization_code"
  {
    assert AllUnreserved("grant_type");
    assert "grant_type=authorization_code" == "grant_type" + "=" + "authorization_code";
    assert AllUnreserved("authorization_code");
    SerializeUnreserved("authorization_code");
    PairText("grant_type", "authorization_code", "authorization_code", "grant_type=authorization_code");
  }

  lemma CodePiece(v: string)
    ensures SerializePair(("code", v)) == "code=" + SerializeComponent(v)
  {
    assert AllUnreserved("code") && "code=" + SerializeComponent(v) == "code" + "=" + SerializeComponent(v);
    PairText("code", v, SerializeComponent(v), "code=" + SerializeComponent(v));
  }

  /** A verifier is sent as it is after `code_verifier=`. */
  lemma VerifierPiece(v: string)
    requires IsCodeVerifier(v)
    ensures SerializePair(("code_verifier", v)) == "code_verifier=" + v
  {
    VerifierCopied(v);
    assert AllUnreserved("code_verifier") && "code_verifier=" + v == "code_verifier" + "=" + v;
    PairText("code_verifier", v, v, "code_verifier=" + v);
  }

  /** A URL whose query pieces are those texts includes each of them. */
  lemma QueryTextsIncluded(url: string, prefix: string, pieces: seq<string>,
                           clientId: string, redirectUri: string, state: string, challenge: string)
    requires StartsWith(url, prefix) && Split(url[|prefix|..], '&') == pieces
    requires |pieces| == 7
      && pieces[0] == "client_id=" + clientId
      && pieces[2] == "redirect_uri=" + redirectUri
      && pieces[4] == "state=" + state
      && pieces[5] == "code_challenge=" + challenge
      && pieces[6] == "code_challenge_method=S256"
    ensures Includes(url, "client_id=" + clientId)
    ensures Includes(url, "redirect_uri=" + redirectUri)
    ensures Includes(url, "state=" + state)
    ensures Includes(url, "code_challenge=")
    ensures Includes(url, "code_challenge_method=S256")
  {
    SplitIncludes(url, prefix, '&', 0, "client_id=" + clientId);
    SplitIncludes(url, prefix, '&', 2, "redirect_uri=" + redirectUri);
    SplitIncludes(url, prefix, '&', 4, "state=" + state);
    assert pieces[5][..|"code_challenge="|] == "code_challenge=";
    SplitIncludes(url, prefix, '&', 5, "code_challenge=");
    SplitIncludes(url, prefix, '&', 6, "code_challenge_method=S256");
  }

  /** The texts of the test configuration: the client id and the state
      are sent as they are, the redirect URI's `:` and `/` are escaped. */
  lemma TestConfigurationTexts()
    ensures "client_id=" + SerializeComponent("test-client-id") == "client_id=test-client-id"
    ensures "redirect_uri=" + SerializeComponent("http://localhost:4000/callback")
         == "redirect_uri=http%3A%2F%2Flocalhost%3A4000%2Fcallback"
    ensures "state=" + SerializeComponent("test-state") == "state=test-state"
  {
    TestClientIdCopied();
    TestStateCopied();
    TestRedirectUriEncoded();
    TestClientIdPiece();
    TestRedirectUriPiece();
    TestStatePiece();
  }

  /** The test's redirect URI has its `:` and `/` escaped. */
  lemma TestRedirectUriEncoded()
    ensures SerializeComponent("http://localhost:4000/callback") == "http%3A%2F%2Flocalhost%3A4000%2Fcallback"
  {
    TestRedirectUriText();
    TestRedirectUriEscaped();
    TestRedirectUriSerialized("http://localhost:4000/callback", "http%3A%2F%2Flocalhost%3A4000%2Fcallback");
  }

  lemma TestRedirectUriSerialized(uri: string, encoded: string)
    requires uri == "http" + "://" + "localhost" + ":" + "4000" + "/" + "callback"
    requires encoded == "http" + "%3A%2F%2F" + "localhost" + "%3A" + "4000" + "%2F" + "callback"
    ensures SerializeComponent(uri) == encoded
  {
    assert AllUnreserved("http") && AllUnreserved("localhost");
    assert AllUnreserved("4000") && AllUnreserved("callback");
    SerializeHttpUri("http", "localhost", "4000", "callback");
  }

  // The seven lemmas that follow each state one fact about literal text:
  // that a test value is sent as it is, or what a concatenation of
  // literals spells. They are separate lemmas only to keep each proof
  // obligation small for the solver; they say no more than the lemmas
  // above that use them.

  lemma TestClientIdCopied()
    ensures SerializeComponent("test-client-id") == "test-client-id"
  {
    assert AllUnreserved("test-client-id");
    SerializeUnreserved("test-client-id");
  }

  lemma TestStateCopied()
    ensures SerializeComponent("test-state") == "test-state"
  {
    assert AllUnreserved("test-state");
    SerializeUnreserved("test-state");
  }

  lemma TestClientIdPiece()
    ensures "client_id=" + "test-client-id" == "client_id=test-client-id"
  {
  }

  lemma TestRedirectUriPiece()
    ensures "redirect_uri=" + "http%3A%2F%2Flocalhost%3A4000%2Fcallback"
         == "redirect_uri=http%3A%2F%2Flocalhost%3A4000%2Fcallback"
  {
  }

  lemma TestStatePiece()
    ensures "state=" + "test-state" == "state=test-state"
  {
  }

  lemma TestRedirectUriText()
    ensures "http" + "://" + "localhost" + ":" + "4000" + "/" + "callback" == "http://localhost:4000/callback"
  {
  }

  lemma TestRedirectUriEscaped()
    ensures "http" + "%3A%2F%2F" + "localhost" + "%3A" + "4000" + "%2F" + "callback"
         == "http%3A%2F%2Flocalhost%3A4000%2Fcallback"
  {
  }

  /** The OIDC client and the service adapters word their errors alike,
      except for the response detail: the services quote it as JSON, so
      with no response data they say `"No additional details"` with the
      quotes, where the OIDC client says it without. */
  lemma ErrorMessagesCompared(context: string, f: Failure)
    ensures !f.AxiosFailure? ==> FaydaOidc.ErrorMessage(context, f) == ServiceErrorMessage(context, f)
    ensures f.AxiosFailure? && f.body.None? ==>
      FaydaOidc.ErrorMessage(context, f) == context + ": " + f.message + " - " + NoDetails
      && ServiceErrorMessage(context, f) == context + ": " + f.message + " - \"" + NoDetails + "\""
  {
    var m, n := FaydaOidc.ErrorMessage(context, f), ServiceErrorMessage(context, f);
    assert m == m[..|context| + 2] + m[|context| + 2..];
    assert n == n[..|context| + 2] + n[|context| + 2..];
    assert NoDetailsJson == "\"" + NoDetails + "\"";
  }
}
