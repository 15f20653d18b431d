/** What the adapters exchange with the HTTP client (axios), and the
    conventions the four REST adapters share: the partner URL template,
    the three-header map and the error normaliser. */
module Http {
  import opened Wrappers
  import opened Strings

  /** One request header, name and value; a header object is an ordered list. */
  type Header = (string, string)

  datatype Method = Get | Post

  /** The one call an adapter method makes: `axios.get(url, {headers})` or
      `axios.post(url, body, {headers, withCredentials})`. */
  datatype Request<B> = Request(
    verb: Method,
    url: string,
    headers: seq<Header>,
    body: Option<B>,
    withCredentials: bool)

  /** A truthy `error.response.data`, rendered the two ways the adapters
      render it: by a template literal (`text`) and by `JSON.stringify`
      (`json`). */
  datatype ResponseBody = ResponseBody(text: string, json: string)

  /** What a `catch` clause receives. */
  datatype Failure =
      /** `axios.isAxiosError(e)`; `body` is None when there is no response
          or its data is falsy. */
    | AxiosFailure(message: string, body: Option<ResponseBody>)
      /** Any other `Error` instance. */
    | ErrorFailure(message: string)
      /** A thrown value that is not an `Error`, as `String(e)` renders it. */
    | OtherFailure(rendered: string)

  /** How the promise returned by one axios call settles: with the response
      data and its `set-cookie` header (None when the header is absent),
      or with a failure. */
  datatype Outcome<D> = Response(data: D, setCookie: Option<seq<string>>) | Failed(failure: Failure)

  /** The default detail text, and what `JSON.stringify` makes of it. */
  const NoDetails: string := "No additional details"
  const NoDetailsJson: string := "\"No additional details\""

  /** `handleAxiosError` of the OTP, resident-auth, e-KYC and client-auth
      adapters: every message starts with the context and `: `; an axios
      failure adds its message, ` - ` and the JSON rendering of the
      response data (or of the default text); any other `Error` adds its
      message; anything else adds `String(e)`. */
  function ServiceErrorMessage(context: string, f: Failure): (m: string)
    ensures StartsWith(m, context + ": ")
    ensures f.AxiosFailure? ==>
      m[|context| + 2..] == f.message + " - " + (if f.body.Some? then f.body.value.json else NoDetailsJson)
    ensures f.ErrorFailure? ==> m[|context| + 2..] == f.message
    ensures f.OtherFailure? ==> m[|context| + 2..] == f.rendered
  {
    var prefix := context + ": ";
    var m := match f
      case AxiosFailure(message, body) =>
        prefix + message + " - " + (if body.Some? then body.value.json else NoDetailsJson)
      case ErrorFailure(message) => prefix + message
      case OtherFailure(rendered) => prefix + rendered;
    assert m[..|prefix|] == prefix;
    m
  }

  /** The REST endpoint of a partner service:
      `{baseUrl}/idauthentication/v1/{service}/{licenseKey}/{partnerId}/{apiKey}`. */
  function PartnerUrl(baseUrl: string, service: string, licenseKey: string,
                      partnerId: string, apiKey: string): (url: string)
  {
    baseUrl + "/idauthentication/v1/" + service + "/" + licenseKey + "/" + partnerId + "/" + apiKey
  }

  /** The path segments of a partner URL are those of the base URL followed
      by `idauthentication`, `v1`, the service and the three identifiers,
      so distinct identifiers (free of `/`) give distinct URLs. */
  lemma PartnerUrlSegments(baseUrl: string, service: string, licenseKey: string,
                           partnerId: string, apiKey: string)
    requires '/' !in service && '/' !in licenseKey && '/' !in partnerId && '/' !in apiKey
    ensures Split(PartnerUrl(baseUrl, service, licenseKey, partnerId, apiKey), '/')
         == Split(baseUrl, '/') + ["idauthentication", "v1", service, licenseKey, partnerId, apiKey]
  {
    var s1 := partnerId + "/" + apiKey;
    var s2 := licenseKey + "/" + s1;
    var s3 := service + "/" + s2;
    var s4 := "v1" + "/" + s3;
    var s5 := "idauthentication" + "/" + s4;
    assert '/' !in "v1" && '/' !in "idauthentication";
    calc {
      Split(s5, '/');
      { SplitCons("idauthentication", '/', s4); }
      ["idauthentication"] + Split(s4, '/');
      { SplitCons("v1", '/', s3); }
      ["idauthentication"] + (["v1"] + Split(s3, '/'));
      { SplitCons(service, '/', s2); }
      ["idauthentication"] + (["v1"] + ([service] + Split(s2, '/')));
      { SplitCons(licenseKey, '/', s1); }
      ["idauthentication"] + (["v1"] + ([service] + ([licenseKey] + Split(s1, '/'))));
      { SplitCons(partnerId, '/', apiKey); SplitNoSep(apiKey, '/'); }
      ["idauthentication"] + (["v1"] + ([service] + ([licenseKey] + ([partnerId] + [apiKey]))));
      ["idauthentication", "v1", service, licenseKey, partnerId, apiKey];
    }
    assert PartnerUrl(baseUrl, service, licenseKey, partnerId, apiKey) == baseUrl + "/" + s5;
    SplitAppend(baseUrl, '/', s5);
  }

  /** On one base URL, the partner URL determines the service and the three
      identifiers: different services or credentials never share an endpoint. */
  lemma PartnerUrlInjective(baseUrl: string, service: string, licenseKey: string, partnerId: string, apiKey: string,
                            service': string, licenseKey': string, partnerId': string, apiKey': string)
    requires '/' !in service && '/' !in licenseKey && '/' !in partnerId && '/' !in apiKey
    requires '/' !in service' && '/' !in licenseKey' && '/' !in partnerId' && '/' !in apiKey'
    requires PartnerUrl(baseUrl, service, licenseKey, partnerId, apiKey)
          == PartnerUrl(baseUrl, service', licenseKey', partnerId', apiKey')
    ensures service == service' && licenseKey == licenseKey' && partnerId == partnerId' && apiKey == apiKey'
  {
    PartnerUrlSegments(baseUrl, service, licenseKey, partnerId, apiKey);
    PartnerUrlSegments(baseUrl, service', licenseKey', partnerId', apiKey');
    var n := |Split(baseUrl, '/')|;
    var segs := Split(PartnerUrl(baseUrl, service, licenseKey, partnerId, apiKey), '/');
    assert segs[n + 2] == service && segs[n + 2] == service';
    assert segs[n + 3] == licenseKey && segs[n + 3] == licenseKey';
    assert segs[n + 4] == partnerId && segs[n + 4] == partnerId';
    assert segs[n + 5] == apiKey && segs[n + 5] == apiKey';
  }

  /** The headers of every OTP, resident-auth and e-KYC call: exactly
      `Authorization` (the stored token), `Signature` (the caller's
      detached JWS) and `Content-Type: application/json`. */
  function PartnerHeaders(authorizationToken: string, jwsSignature: string): (hs: seq<Header>)
    ensures |hs| == 3
    ensures Lookup(hs, "Authorization") == Some(authorizationToken)
    ensures Lookup(hs, "Signature") == Some(jwsSignature)
    ensures Lookup(hs, "Content-Type") == Some("application/json")
    ensures forall k :: 0 <= k < |hs| ==> hs[k].0 in {"Authorization", "Signature", "Content-Type"}
  {
    var hs := [("Authorization", authorizationToken), ("Signature", jwsSignature), ("Content-Type", "application/json")];
    assert hs[1..][1..] == [("Content-Type", "application/json")];
    assert Lookup(hs[1..][1..], "Content-Type") == Some("application/json");
    assert Lookup(hs[1..], "Content-Type") == Some("application/json");
    hs
  }
}
