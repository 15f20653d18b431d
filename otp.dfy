/** The OTP request adapter: asks the identity platform to send a one-time
    password to a resident identified by UIN or VID. */
module Otp {
  import opened Wrappers
  import opened Strings
  import opened Http

  /** The adapter's configuration, copied from the constructor's arguments
      and never changed afterwards. */
  datatype OtpService = OtpService(
    baseUrl: string,
    authorizationToken: string,
    fispLicenseKey: string,
    partnerId: string,
    partnerApiKey: string)

  /** The caller's request envelope; the adapter forwards it as it is. */
  datatype OtpRequestBody = OtpRequestBody(
    id: string,
    version: string,
    transactionID: string,
    requestTime: string,
    env: string,
    domainUri: string,
    idType: string,      // "VID" or "UIN"
    otpChannel: string)  // "EMAIL" or "PHONE"

  const Context: string := "Failed to request OTP"

  /** The POST that `requestOTP` hands to axios. */
  function OtpRequest(svc: OtpService, body: OtpRequestBody, jwsSignature: string): (r: Request<OtpRequestBody>)
    ensures r.verb == Post && !r.withCredentials
    ensures r.url == svc.baseUrl + "/idauthentication/v1/otp/" + svc.fispLicenseKey
                     + "/" + svc.partnerId + "/" + svc.partnerApiKey
    ensures |r.headers| == 3
    ensures Lookup(r.headers, "Authorization") == Some(svc.authorizationToken)
    ensures Lookup(r.headers, "Signature") == Some(jwsSignature)
    ensures Lookup(r.headers, "Content-Type") == Some("application/json")
    ensures r.body == Some(body)
  {
    Request(Post, PartnerUrl(svc.baseUrl, "otp", svc.fispLicenseKey, svc.partnerId, svc.partnerApiKey),
            PartnerHeaders(svc.authorizationToken, jwsSignature), Some(body), false)
  }

  /** `requestOTP(body, jwsSignature)`: one POST through `axios`; the
      response data comes back unchanged, a failure is normalised with the
      context "Failed to request OTP". */
  function RequestOtp<D>(svc: OtpService, body: OtpRequestBody, jwsSignature: string,
                         axios: Request<OtpRequestBody> -> Outcome<D>): (r: Result<D>)
    ensures axios(OtpRequest(svc, body, jwsSignature)).Response? ==>
      r == Ok(axios(OtpRequest(svc, body, jwsSignature)).data)
    ensures axios(OtpRequest(svc, body, jwsSignature)).Failed? ==>
      r == Err(ServiceErrorMessage(Context, axios(OtpRequest(svc, body, jwsSignature)).failure))
    ensures r.Err? ==> StartsWith(r.message, "Failed to request OTP: ")
  {
    match axios(OtpRequest(svc, body, jwsSignature))
    case Response(data, _) => Ok(data)
    case Failed(f) => Err(ServiceErrorMessage(Context, f))
  }
}
