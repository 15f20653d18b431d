/** The client-credential adapter: exchanges a client id, secret key and
    app id for an auth token that the platform returns in a cookie. */
module ClientAuth {
  import opened Wrappers
  import opened Strings
  import opened Http

  /** The adapter's configuration: only the base URL, copied by the
      constructor. */
  datatype ClientAuthService = ClientAuthService(baseUrl: string)

  datatype Credentials = Credentials(clientId: string, secretKey: string, appId: string)

  /** The request envelope; `metadata` is JSON `null` (None). */
  datatype ClientAuthRequestBody = ClientAuthRequestBody(
    id: string,
    version: string,
    requesttime: string,
    metadata: Option<map<string, string>>,
    request: Credentials)

  const Context: string := "Failed to authenticate client"
  const NoSetCookie: string := "No 'Set-Cookie' header found. Unable to retrieve auth token."
  const NoAuthCookie: string := "Authorization cookie not found in Set-Cookie header."

  /** The text a cookie must contain, after lower-casing, to be selected. */
  const Needle: string := "authorization="

  /** The POST that `authenticateClient` hands to axios; `requestTime` is
      the ISO-8601 time of the call. */
  function AuthenticateRequest(svc: ClientAuthService, clientId: string, secretKey: string, appId: string,
                               requestTime: string): (r: Request<ClientAuthRequestBody>)
    ensures r.verb == Post && r.withCredentials && r.headers == []
    ensures r.url == svc.baseUrl + "/v1/authmanager/authenticate/clientidsecretkey"
    ensures r.body.Some?
    ensures r.body.value.id == "fayda.client.authenticate" && r.body.value.version == "1.0"
    ensures r.body.value.requesttime == requestTime && r.body.value.metadata == None
    ensures r.body.value.request == Credentials(clientId, secretKey, appId)
  {
    var body := ClientAuthRequestBody("fayda.client.authenticate", "1.0", requestTime, None,
                                      Credentials(clientId, secretKey, appId));
    Request(Post, svc.baseUrl + "/v1/authmanager/authenticate/clientidsecretkey", [], Some(body), true)
  }

  /** `cookie.toLowerCase().includes("authorization=")`. */
  predicate IsAuthCookie(cookie: string)
  {
    Includes(ToLower(cookie), Needle)
  }

  /** The cookie text from index `i` on lower-cases to the needle. */
  ghost predicate MatchesAt(cookie: string, i: int)
  {
    0 <= i && i + |Needle| <= |cookie|
    && forall k :: 0 <= k < |Needle| ==> LowerChar(cookie[i + k]) == Needle[k]
  }

  /** The match is a case-insensitive substring search, anywhere in the
      cookie text. */
  lemma IsAuthCookieIff(cookie: string)
    ensures IsAuthCookie(cookie) <==> exists i :: MatchesAt(cookie, i)
  {
    var low := ToLower(cookie);
    IncludesIff(low, Needle);
    if IsAuthCookie(cookie) {
      var i :| OccursAt(low, Needle, i);
      forall k | 0 <= k < |Needle| ensures LowerChar(cookie[i + k]) == Needle[k] {
        assert low[i..i + |Needle|][k] == low[i + k];
      }
      assert MatchesAt(cookie, i);
    }
    if exists i :: MatchesAt(cookie, i) {
      var i :| MatchesAt(cookie, i);
      assert low[i..i + |Needle|] == Needle;
      assert OccursAt(low, Needle, i);
    }
  }

  /** `setCookie.find(isAuthCookie)`: the first selected entry. */
  function FindAuthCookie(cookies: seq<string>): (r: Option<string>)
    ensures r.None? <==> forall k :: 0 <= k < |cookies| ==> !IsAuthCookie(cookies[k])
    ensures r.Some? ==>
      exists k :: 0 <= k < |cookies| && cookies[k] == r.value && IsAuthCookie(cookies[k])
               && forall j :: 0 <= j < k ==> !IsAuthCookie(cookies[j])
    decreases |cookies|
  {
    if cookies == [] then None
    else if IsAuthCookie(cookies[0]) then Some(cookies[0])
    else
      var r := FindAuthCookie(cookies[1..]);
      assert forall k :: 0 < k < |cookies| ==> cookies[k] == cookies[1..][k - 1];
      r
  }

  /** The entry found is exactly the first one that matches. */
  lemma {:induction false} FindAuthCookieFirst(cookies: seq<string>, k: nat)
    requires k < |cookies| && IsAuthCookie(cookies[k])
    requires forall j :: 0 <= j < k ==> !IsAuthCookie(cookies[j])
    ensures FindAuthCookie(cookies) == Some(cookies[k])
    decreases k
  {
    if k > 0 {
      assert forall j :: 0 <= j < k - 1 ==> cookies[1..][j] == cookies[j + 1];
      FindAuthCookieFirst(cookies[1..], k - 1);
    }
  }

  /** Cookies after the first match do not affect the result. */
  lemma FindAuthCookieIgnoresLater(cookies: seq<string>, later: seq<string>)
    requires FindAuthCookie(cookies).Some?
    ensures FindAuthCookie(cookies + later) == FindAuthCookie(cookies)
  {
    var k :| 0 <= k < |cookies| && cookies[k] == FindAuthCookie(cookies).value && IsAuthCookie(cookies[k])
             && forall j :: 0 <= j < k ==> !IsAuthCookie(cookies[j]);
    assert (cookies + later)[k] == cookies[k];
    FindAuthCookieFirst(cookies + later, k);
  }

  /** `cookie.split(";")[0].split("=")[1]`; None is JavaScript's
      `undefined`, when the text before the first `;` holds no `=`. */
  function TokenValue(cookie: string): (r: Option<string>)
  {
    var parts := Split(Split(cookie, ';')[0], '=');
    if |parts| > 1 then Some(parts[1]) else None
  }

  /** `cookie[i]` is the first `=` and comes before any `;`, and `j` ends
      the text after it at the next `=`, `;` or the end of the cookie. */
  ghost predicate TokenBounds(cookie: string, i: int, j: int)
  {
    0 <= i < j <= |cookie| && cookie[i] == '='
    && (forall k :: 0 <= k < i ==> cookie[k] != '=' && cookie[k] != ';')
    && (forall k :: i < k < j ==> cookie[k] != '=' && cookie[k] != ';')
    && (j < |cookie| ==> cookie[j] == '=' || cookie[j] == ';')
  }

  /** Where the first `;` lies relative to the token bounds. */
  lemma SemicolonAfterBounds(cookie: string, i: int, j: int)
    requires TokenBounds(cookie, i, j)
    ensures j <= IndexOf(cookie, ';')
    ensures j < IndexOf(cookie, ';') ==> cookie[j] == '='
  {
  }

  lemma TokenValueOfBounds(cookie: string, i: int, j: int)
    requires TokenBounds(cookie, i, j)
    ensures TokenValue(cookie) == Some(cookie[i + 1..j])
  {
    var semi := IndexOf(cookie, ';');
    SemicolonAfterBounds(cookie, i, j);
    SplitHead(cookie, ';');
    var head := cookie[..semi];
    assert forall k :: 0 <= k < j ==> head[k] == cookie[k];
    SplitSecond(head, '=', i, j);
    assert head[i + 1..j] == cookie[i + 1..j];
  }

  /** The token is the text after the first `=` up to the next `=` or
      `;`, provided that `=` comes before the first `;`. */
  lemma TokenValueIff(cookie: string, t: string)
    ensures TokenValue(cookie) == Some(t) <==>
      exists i, j :: TokenBounds(cookie, i, j) && t == cookie[i + 1..j]
  {
    var semi := IndexOf(cookie, ';');
    var head := cookie[..semi];
    var i := IndexOf(head, '=');
    if i < |head| {
      var rest := head[i + 1..];
      var e := IndexOf(rest, '=');
      var j := i + 1 + e;
      assert forall k :: i < k < j ==> cookie[k] == rest[k - i - 1];
      assert TokenBounds(cookie, i, j);
      TokenValueOfBounds(cookie, i, j);
    } else {
      SplitHead(cookie, ';');
      SplitNoSep(head, '=');
      assert TokenValue(cookie) == None;
      forall i', j' | TokenBounds(cookie, i', j') ensures false {
        TokenValueOfBounds(cookie, i', j');
      }
    }
    if exists i', j' :: TokenBounds(cookie, i', j') && t == cookie[i' + 1..j'] {
      var i', j' :| TokenBounds(cookie, i', j') && t == cookie[i' + 1..j'];
      TokenValueOfBounds(cookie, i', j');
    }
  }

  /** The token is undefined exactly when every `=` of the cookie comes
      after a `;`. */
  lemma TokenValueUndefined(cookie: string)
    ensures TokenValue(cookie).None? <==>
      forall k :: 0 <= k < |cookie| && cookie[k] == '=' ==> ';' in cookie[..k]
  {
    var semi := IndexOf(cookie, ';');
    var head := cookie[..semi];
    SplitHead(cookie, ';');
    var i := IndexOf(head, '=');
    if i < |head| {
      assert cookie[i] == '=' && ';' !in cookie[..i];
      assert TokenValue(cookie).Some? by {
        var rest := head[i + 1..];
        var j := i + 1 + IndexOf(rest, '=');
        assert forall k :: i < k < j ==> cookie[k] == rest[k - i - 1];
        TokenValueOfBounds(cookie, i, j);
      }
    } else {
      SplitNoSep(head, '=');
      forall k | 0 <= k < |cookie| && cookie[k] == '=' ensures ';' in cookie[..k] {
        assert k >= semi;
        assert cookie[..k][semi] == ';';
      }
    }
  }

  /** `authenticateClient(clientId, secretKey, appId)`: one POST through
      `axios`. Every error, including the two thrown when the token cannot
      be found, passes through the normaliser with the context "Failed to
      authenticate client". On success the token is taken from the first
      `Set-Cookie` entry containing `authorization=` in any case. */
  function AuthenticateClient<D>(svc: ClientAuthService, clientId: string, secretKey: string, appId: string,
                                 requestTime: string,
                                 axios: Request<ClientAuthRequestBody> -> Outcome<D>): (r: Result<Option<string>>)
    ensures var o := axios(AuthenticateRequest(svc, clientId, secretKey, appId, requestTime));
      o.Failed? ==> r == Err(ServiceErrorMessage(Context, o.failure))
    ensures var o := axios(AuthenticateRequest(svc, clientId, secretKey, appId, requestTime));
      o.Response? && o.setCookie.None? ==> r == Err(Context + ": " + NoSetCookie)
    ensures var o := axios(AuthenticateRequest(svc, clientId, secretKey, appId, requestTime));
      o.Response? && o.setCookie.Some? && (forall k :: 0 <= k < |o.setCookie.value| ==> !IsAuthCookie(o.setCookie.value[k]))
      ==> r == Err(Context + ": " + NoAuthCookie)
    ensures var o := axios(AuthenticateRequest(svc, clientId, secretKey, appId, requestTime));
      forall k :: o.Response? && o.setCookie.Some? && 0 <= k < |o.setCookie.value|
                  && IsAuthCookie(o.setCookie.value[k])
                  && (forall j :: 0 <= j < k ==> !IsAuthCookie(o.setCookie.value[j]))
                  ==> r == Ok(TokenValue(o.setCookie.value[k]))
    ensures r.Err? ==> StartsWith(r.message, "Failed to authenticate client: ")
  {
    match axios(AuthenticateRequest(svc, clientId, secretKey, appId, requestTime))
    case Failed(f) => Err(ServiceErrorMessage(Context, f))
    case Response(_, None) => Err(ServiceErrorMessage(Context, ErrorFailure(NoSetCookie)))
    case Response(_, Some(cookies)) =>
      match FindAuthCookie(cookies)
      case None => Err(ServiceErrorMessage(Context, ErrorFailure(NoAuthCookie)))
      case Some(cookie) =>
        assert forall k :: (0 <= k < |cookies| && IsAuthCookie(cookies[k])
                 && (forall j :: 0 <= j < k ==> !IsAuthCookie(cookies[j]))) ==> cookies[k] == cookie by {
          forall k | 0 <= k < |cookies| && IsAuthCookie(cookies[k])
                     && (forall j :: 0 <= j < k ==> !IsAuthCookie(cookies[j])) ensures cookies[k] == cookie {
            FindAuthCookieFirst(cookies, k);
          }
        }
        Ok(TokenValue(cookie))
  }

  /** Lower-casing leaves the needle's own characters unchanged. */
  lemma NeedleIsLowerCase()
    ensures forall k :: 0 <= k < |Needle| ==> LowerChar(Needle[k]) == Needle[k]
  {
  }

  /** Any cookie whose text contains `authorization=` is selected, whatever
      its name: `x-authorization=abc` is selected too. */
  lemma ContainsNeedleSelected(before: string, after: string)
    ensures IsAuthCookie(before + Needle + after)
  {
    var c := before + Needle + after;
    NeedleIsLowerCase();
    assert forall k :: 0 <= k < |Needle| ==> c[|before| + k] == Needle[k];
    assert MatchesAt(c, |before|);
    IsAuthCookieIff(c);
  }

  /** A cookie `<name>=<token>;<attributes>` yields `<token>`. */
  lemma NamedCookieToken(name: string, token: string, attributes: string)
    requires '=' !in name && ';' !in name && '=' !in token && ';' !in token
    ensures TokenValue(name + "=" + token + ";" + attributes) == Some(token)
  {
    var c := name + "=" + token + ";" + attributes;
    var i, j := |name|, |name| + 1 + |token|;
    assert forall k :: 0 <= k < i ==> c[k] == name[k];
    assert forall k :: i < k < j ==> c[k] == token[k - i - 1];
    assert c[j] == ';';
    assert TokenBounds(c, i, j);
    TokenValueOfBounds(c, i, j);
    assert c[i + 1..j] == token;
  }

  /** A cookie `authorization=<token>;<attributes>` is selected and yields
      `<token>`. */
  lemma AuthorizationCookieToken(token: string, attributes: string)
    requires '=' !in token && ';' !in token
    ensures IsAuthCookie(Needle + token + ";" + attributes)
    ensures TokenValue(Needle + token + ";" + attributes) == Some(token)
  {
    var name := "authorization";
    assert '=' !in name && ';' !in name;
    assert Needle == name + "=";
    ContainsNeedleSelected([], token + ";" + attributes);
    assert [] + Needle + (token + ";" + attributes) == Needle + token + ";" + attributes;
    NamedCookieToken(name, token, attributes);
  }

  /** When `authorization=` follows an attribute without `=`, the cookie is
      selected but the token is undefined, and the call resolves with
      `undefined` instead of rejecting. */
  lemma TokenUndefinedAfterAttribute(attribute: string, token: string)
    requires '=' !in attribute && ';' !in attribute
    ensures IsAuthCookie(attribute + "; " + Needle + token)
    ensures TokenValue(attribute + "; " + Needle + token) == None
  {
    var c := attribute + "; " + Needle + token;
    ContainsNeedleSelected(attribute + "; ", token);
    TokenValueUndefined(c);
    forall k | 0 <= k < |c| && c[k] == '=' ensures ';' in c[..k] {
      assert k > |attribute|;
      assert c[..k][|attribute|] == ';';
    }
  }

  /** A response whose first `Set-Cookie` entry is
      `authorization=<token>;<attributes>` resolves with `<token>`, whatever
      the later entries are. */
  lemma AuthenticateClientFirstCookie<D>(svc: ClientAuthService, clientId: string, secretKey: string, appId: string,
                                         requestTime: string, axios: Request<ClientAuthRequestBody> -> Outcome<D>,
                                         data: D, token: string, attributes: string, later: seq<string>)
    requires '=' !in token && ';' !in token
    requires axios(AuthenticateRequest(svc, clientId, secretKey, appId, requestTime))
          == Response(data, Some([Needle + token + ";" + attributes] + later))
    ensures AuthenticateClient(svc, clientId, secretKey, appId, requestTime, axios) == Ok(Some(token))
  {
    AuthorizationCookieToken(token, attributes);
    var cookies := [Needle + token + ";" + attributes] + later;
    assert IsAuthCookie(cookies[0]);
  }

  /** The exchange of the repository's OIDC test suite (test/oidc.test.ts): the first cookie `authorization=fake-auth-token;
      Path=/; HttpOnly` gives the token `fake-auth-token`, and the later
      cookie is never looked at. */
  lemma AuthenticateClientExample<D>(data: D, axios: Request<ClientAuthRequestBody> -> Outcome<D>, requestTime: string)
    requires forall q :: axios(q) == Response(data, Some([Needle + "fake-auth-token" + "; Path=/; HttpOnly",
                                                          "some-other-cookie=value"]))
    ensures AuthenticateClient(ClientAuthService("http://base.url"), "clientId", "secretKey", "appId", requestTime, axios)
         == Ok(Some("fake-auth-token"))
  {
    var token, attributes := "fake-auth-token", " Path=/; HttpOnly";
    assert '=' !in token && ';' !in token;
    var first := Needle + token + "; Path=/; HttpOnly";
    assert first == Needle + token + ";" + attributes;
    assert [first, "some-other-cookie=value"] == [Needle + token + ";" + attributes] + ["some-other-cookie=value"];
    AuthenticateClientFirstCookie(ClientAuthService("http://base.url"), "clientId", "secretKey", "appId", requestTime,
                                  axios, data, token, attributes, ["some-other-cookie=value"]);
  }
}
