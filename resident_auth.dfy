/** The resident authentication adapter: submits a demographic, biometric
    or OTP authentication request for a UIN or VID. */
module ResidentAuth {
  import opened Wrappers
  import opened Strings
  import opened Http

  /** The adapter's configuration, copied from the constructor's arguments
      and never changed afterwards. */
  datatype ResidentAuthService = ResidentAuthService(
    baseUrl: string,
    authorizationToken: string,
    fispLicenseKey: string,
    authPartnerId: string,
    partnerApiKey: string)

  /** Which authentication factors the request carries. */
  datatype RequestedAuth = RequestedAuth(otp: bool, demo: bool, bio: bool)

  /** The caller's request envelope; the session key, HMAC and request
      block arrive already encrypted, and the adapter forwards it as it is. */
  datatype ResidentAuthRequestBody = ResidentAuthRequestBody(
    id: string,
    version: string,
    transactionID: string,
    requestTime: string,
    env: string,
    domainUri: string,
    requestedAuth: RequestedAuth,
    individualId: string,
    individualIdType: string,  // "VID" or "UIN"
    consentObtained: bool,
    thumbprint: string,
    requestSessionKey: string,
    requestHMAC: string,
    request: string)

  const Context: string := "Failed to authenticate resident"

  /** The POST that `authenticateResident` hands to axios. */
  function AuthRequest(svc: ResidentAuthService, body: ResidentAuthRequestBody, jwsSignature: string)
    : (r: Request<ResidentAuthRequestBody>)
    ensures r.verb == Post && !r.withCredentials
    ensures r.url == svc.baseUrl + "/idauthentication/v1/auth/" + svc.fispLicenseKey
                     + "/" + svc.authPartnerId + "/" + svc.partnerApiKey
    ensures |r.headers| == 3
    ensures Lookup(r.headers, "Authorization") == Some(svc.authorizationToken)
    ensures Lookup(r.headers, "Signature") == Some(jwsSignature)
    ensures Lookup(r.headers, "Content-Type") == Some("application/json")
    ensures r.body == Some(body)
  {
    Request(Post, PartnerUrl(svc.baseUrl, "auth", svc.fispLicenseKey, svc.authPartnerId, svc.partnerApiKey),
            PartnerHeaders(svc.authorizationToken, jwsSignature), Some(body), false)
  }

  /** `authenticateResident(body, jwsSignature)`: one POST through `axios`;
      the response data comes back unchanged, a failure is normalised with
      the context "Failed to authenticate resident". */
  function AuthenticateResident<D>(svc: ResidentAuthService, body: ResidentAuthRequestBody, jwsSignature: string,
                                   axios: Request<ResidentAuthRequestBody> -> Outcome<D>): (r: Result<D>)
    ensures axios(AuthRequest(svc, body, jwsSignature)).Response? ==>
      r == Ok(axios(AuthRequest(svc, body, jwsSignature)).data)
    ensures axios(AuthRequest(svc, body, jwsSignature)).Failed? ==>
      r == Err(ServiceErrorMessage(Context, axios(AuthRequest(svc, body, jwsSignature)).failure))
    ensures r.Err? ==> StartsWith(r.message, "Failed to authenticate resident: ")
  {
    match axios(AuthRequest(svc, body, jwsSignature))
    case Response(data, _) => Ok(data)
    case Failed(f) => Err(ServiceErrorMessage(Context, f))
  }
}
