/** The records exchanged between the AWS pieces of the login flow. */
module AwsTypes {
  import opened Text

  /** One role grant: the role to assume and the SAML provider that vouches for it. */
  datatype AwsRole = AwsRole(roleArn: string, principalArn: string)

  /**
   * What the interceptor hands to the orchestrator: the grants in document
   * order and the inner base64 SAML response, kept as the raw bytes it was sent as.
   */
  datatype AwsResponse = AwsResponse(roles: seq<AwsRole>, samlResponse: seq<byte>)

  /** Temporary credentials for one account; the expiration is its RFC 3339 text. */
  datatype AwsCredentialsEntry = AwsCredentialsEntry(
    accessKeyId: string,
    secretAccessKey: string,
    sessionToken: string,
    expiration: string)
}
