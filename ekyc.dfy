/** The e-KYC adapter: retrieves a resident's identity attributes after an
    authentication the resident consented to. */
module Ekyc {
  import opened Wrappers
  import opened Strings
  import opened Http
  import ResidentAuth

  /** The adapter's configuration, copied from the constructor's arguments
      and never changed afterwards. */
  datatype EkycService = EkycService(
    baseUrl: string,
    authorizationToken: string,
    fispLicenseKey: string,
    ekycPartnerId: string,
    partnerApiKey: string)

  /** The caller's request envelope: that of resident authentication plus
      an optional secondary language; the adapter forwards it as it is. */
  datatype EkycRequestBody = EkycRequestBody(
    id: string,
    version: string,
    transactionID: string,
    requestTime: string,
    env: string,
    domainUri: string,
    requestedAuth: ResidentAuth.RequestedAuth,
    individualId: string,
    individualIdType: string,
    consentObtained: bool,
    thumbprint: string,
    requestSessionKey: string,
    requestHMAC: string,
    request: string,
    secondaryLangCode: Option<string>)

  const Context: string := "Failed to request e-KYC"

  /** The POST that `requestEKYC` hands to axios. The body is sent as it
      is, so the optional `secondaryLangCode` goes through unchanged. */
  function KycRequest(svc: EkycService, body: EkycRequestBody, jwsSignature: string): (r: Request<EkycRequestBody>)
    ensures r.verb == Post && !r.withCredentials
    ensures r.url == svc.baseUrl + "/idauthentication/v1/kyc/" + svc.fispLicenseKey
                     + "/" + svc.ekycPartnerId + "/" + svc.partnerApiKey
    ensures |r.headers| == 3
    ensures Lookup(r.headers, "Authorization") == Some(svc.authorizationToken)
    ensures Lookup(r.headers, "Signature") == Some(jwsSignature)
    ensures Lookup(r.headers, "Content-Type") == Some("application/json")
    ensures r.body == Some(body)
  {
    Request(Post, PartnerUrl(svc.baseUrl, "kyc", svc.fispLicenseKey, svc.ekycPartnerId, svc.partnerApiKey),
            PartnerHeaders(svc.authorizationToken, jwsSignature), Some(body), false)
  }

  /** `requestEKYC(body, jwsSignature)`: one POST through `axios`; the
      response data comes back unchanged, a failure is normalised with the
      context "Failed to request e-KYC". */
  function RequestEkyc<D>(svc: EkycService, body: EkycRequestBody, jwsSignature: string,
                          axios: Request<EkycRequestBody> -> Outcome<D>): (r: Result<D>)
    ensures axios(KycRequest(svc, body, jwsSignature)).Response? ==>
      r == Ok(axios(KycRequest(svc, body, jwsSignature)).data)
    ensures axios(KycRequest(svc, body, jwsSignature)).Failed? ==>
      r == Err(ServiceErrorMessage(Context, axios(KycRequest(svc, body, jwsSignature)).failure))
    ensures r.Err? ==> StartsWith(r.message, "Failed to request e-KYC: ")
  {
    match axios(KycRequest(svc, body, jwsSignature))
    case Response(data, _) => Ok(data)
    case Failed(f) => Err(ServiceErrorMessage(Context, f))
  }
}
