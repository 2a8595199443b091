// The Microsoft Entra ID login URL of internal/sso/microsoft/microsoft.go:
// a SAML AuthnRequest, deflated and base64-encoded, sent as the SAMLRequest
// query parameter of the tenant's SAML endpoint.
module Microsoft {
  import opened Wrappers
  import opened Errors
  import opened Text
  import Base64
  import UrlEscape
  import Utils

  const LoginHost: string := "https://login.microsoftonline.com/"
  const LoginPath: string := "/saml2?SAMLRequest="

  const MetadataNamespace: string := "urn:oasis:names:tc:SAML:2.0:metadata"
  const ProtocolNamespace: string := "urn:oasis:names:tc:SAML:2.0:protocol"
  const AssertionNamespace: string := "urn:oasis:names:tc:SAML:2.0:assertion"
  /** The name-ID policy element: the user is identified by e-mail address. */
  const NameIdPolicy: string :=
    "<samlp:NameIDPolicy Format=\"urn:oasis:names:tc:SAML:1.1:nameid-format:emailAddress\"></samlp:NameIDPolicy>"

  /** The ID attribute: "id" followed by the request's UUID. */
  function IdAttribute(id: string): string { "ID=\"id" + id + "\"" }
  function InstantAttribute(issueInstant: string): string { "IssueInstant=\"" + issueInstant + "\"" }
  function AcsAttribute(acsUrl: string): string { "AssertionConsumerServiceURL=\"" + acsUrl + "\"" }
  function IssuerElement(issuer: string): string { "<Issuer xmlns=\"" + AssertionNamespace + "\">" + issuer + "</Issuer>" }

  const RequestHead: string := "\n        <samlp:AuthnRequest xmlns=\"" + MetadataNamespace + "\" "
  const VersionAttribute: string := " Version=\"2.0\" "
  const PassiveAttribute: string := " IsPassive=\"false\" "
  const ProtocolAttribute: string := " xmlns:samlp=\"" + ProtocolNamespace + "\">"
  const Indent: string := "\n            "
  const RequestTail: string := "\n        </samlp:AuthnRequest>\n        "

  /** The pieces of text in order, joined with nothing between them. */
  function Concat(pieces: seq<string>): string
  {
    if |pieces| == 0 then [] else Concat(pieces[..|pieces| - 1]) + pieces[|pieces| - 1]
  }

  /** The pieces of the AuthnRequest document, whitespace included. */
  function RequestPieces(id: string, issueInstant: string, acsUrl: string, issuer: string): seq<string>
  {
    [RequestHead, IdAttribute(id), VersionAttribute, InstantAttribute(issueInstant), PassiveAttribute,
     AcsAttribute(acsUrl), ProtocolAttribute, Indent, IssuerElement(issuer), Indent, NameIdPolicy, RequestTail]
  }

  /**
   * The AuthnRequest document: `id` is the request's UUID, `issueInstant` the
   * RFC 3339 time of the request, `acsUrl` where the assertion is to be posted
   * and `issuer` the application ID URI.
   */
  function AuthnRequest(id: string, issueInstant: string, acsUrl: string, issuer: string): string
  {
    Concat(RequestPieces(id, issueInstant, acsUrl, issuer))
  }

  /**
   * The login URL for `tenantId`, or the encoder's error. The UUID (`id`) and
   * the current time (`now`) are generated by the caller's environment and
   * arrive here as parameters; `d` is the compressor.
   */
  function GenerateSAMLLoginURL(appIdUri: string, tenantId: string, acsUrl: string, id: string, now: string, d: Utils.Deflater)
    : (r: Result<string, Error>)
    ensures r.Failure? <==> Utils.Deflated(AuthnRequest(id, now, acsUrl, appIdUri), d).Failure?
    ensures r.Failure? ==> r.error == Utils.Deflated(AuthnRequest(id, now, acsUrl, appIdUri), d).error
  {
    match Utils.DeflateBase64(AuthnRequest(id, now, acsUrl, appIdUri), d)
    case Failure(e) => Failure(e)
    case Success(encoded) => Success(LoginHost + tenantId + LoginPath + Latin1(UrlEscape.QueryEscape(encoded)))
  }

  /** Where the SAMLRequest value starts in a URL for `tenantId`. */
  function ParameterStart(tenantId: string): nat
  {
    |LoginHost| + |tenantId| + |LoginPath|
  }

  /** Base64 output never contains a space, so query escaping it never produces '+'. */
  lemma EncodedHasNoSpace(encoded: seq<byte>)
    requires forall i :: 0 <= i < |encoded| ==> Base64.IsSymbol(encoded[i]) || encoded[i] == Base64.Pad
    ensures UrlEscape.Space !in encoded
  {
    assert !Base64.IsSymbol(UrlEscape.Space);
  }

  /**
   * A login URL is the tenant's endpoint, with the tenant ID as given,
   * followed by a SAMLRequest value that a receiver unescapes and
   * base64-decodes back to exactly the deflated AuthnRequest.
   */
  lemma LoginUrlRoundTrip(appIdUri: string, tenantId: string, acsUrl: string, id: string, now: string, d: Utils.Deflater)
    requires GenerateSAMLLoginURL(appIdUri, tenantId, acsUrl, id, now, d).Success?
    ensures var url := GenerateSAMLLoginURL(appIdUri, tenantId, acsUrl, id, now, d).value;
      var k := ParameterStart(tenantId);
      k <= |url| && url[..k] == LoginHost + tenantId + LoginPath &&
      (forall i :: k <= i < |url| ==> url[i] as int < 256) &&
      var value := UrlEscape.QueryUnescape(Bytes(url[k..]));
      value.Some? &&
      Base64.Decode(value.value) == Some(Utils.Deflated(AuthnRequest(id, now, acsUrl, appIdUri), d).value)
  {
    var encoded := Utils.DeflateBase64(AuthnRequest(id, now, acsUrl, appIdUri), d).value;
    var escaped := UrlEscape.QueryEscape(encoded);
    var url := GenerateSAMLLoginURL(appIdUri, tenantId, acsUrl, id, now, d).value;
    var k := ParameterStart(tenantId);
    assert url == (LoginHost + tenantId + LoginPath) + Latin1(escaped);
    assert url[k..] == Latin1(escaped);
    BytesOfLatin1(escaped);
    UrlEscape.UnescapeEscape(encoded);
  }

  /**
   * The SAMLRequest value is fully escaped: it consists of letters, digits,
   * '-', '_', '.', '~' and '%' only, so none of '+', '/', '=', '&', '#' or a
   * space survives raw to change how the query string is read.
   */
  lemma ParameterIsEscaped(appIdUri: string, tenantId: string, acsUrl: string, id: string, now: string, d: Utils.Deflater)
    requires GenerateSAMLLoginURL(appIdUri, tenantId, acsUrl, id, now, d).Success?
    ensures var url := GenerateSAMLLoginURL(appIdUri, tenantId, acsUrl, id, now, d).value;
      ParameterStart(tenantId) <= |url| &&
      forall i :: ParameterStart(tenantId) <= i < |url| ==>
        url[i] as int < 256 && (UrlEscape.Unreserved(url[i] as int) || url[i] == '%')
  {
    var encoded := Utils.DeflateBase64(AuthnRequest(id, now, acsUrl, appIdUri), d).value;
    var stream := Utils.Deflated(AuthnRequest(id, now, acsUrl, appIdUri), d).value;
    assert encoded == Base64.Encode(stream);
    EncodedHasNoSpace(encoded);
    var escaped := UrlEscape.QueryEscape(encoded);
    var url := GenerateSAMLLoginURL(appIdUri, tenantId, acsUrl, id, now, d).value;
    assert url == (LoginHost + tenantId + LoginPath) + Latin1(escaped);
  }

  /** A sequence contains each of its infixes. */
  lemma ContainsInfix<T>(a: seq<T>, b: seq<T>, c: seq<T>)
    ensures Contains(a + b + c, b)
  {
    assert OccursAt(a + b + c, b, |a|) by {
      assert (a + b + c)[|a|..|a| + |b|] == b;
    }
  }

  /** A concatenation splits around any of its pieces. */
  lemma {:induction false} ConcatAround(pieces: seq<string>, i: int)
    requires 0 <= i < |pieces|
    ensures Concat(pieces) == Concat(pieces[..i]) + pieces[i] + Concat(pieces[i + 1..])
    decreases |pieces|
  {
    var n := |pieces| - 1;
    if i == n {
      assert pieces[..n] == pieces[..i];
      assert pieces[i + 1..] == [];
    } else {
      ConcatAround(pieces[..n], i);
      assert pieces[..n][..i] == pieces[..i];
      assert pieces[..n][i] == pieces[i];
      assert pieces[i + 1..][..|pieces[i + 1..]| - 1] == pieces[..n][i + 1..];
    }
  }

  /** A concatenation contains each of its pieces. */
  lemma ConcatContains(pieces: seq<string>, i: int)
    requires 0 <= i < |pieces|
    ensures Contains(Concat(pieces), pieces[i])
  {
    ConcatAround(pieces, i);
    ContainsInfix(Concat(pieces[..i]), pieces[i], Concat(pieces[i + 1..]));
  }

  /**
   * The request carries each parameter in its place: the ID attribute, the
   * issue instant, the assertion consumer service URL, the issuer element and
   * the e-mail name-ID policy.
   */
  lemma RequestCarriesFields(id: string, issueInstant: string, acsUrl: string, issuer: string)
    ensures var doc := AuthnRequest(id, issueInstant, acsUrl, issuer);
      Contains(doc, IdAttribute(id)) &&
      Contains(doc, InstantAttribute(issueInstant)) &&
      Contains(doc, AcsAttribute(acsUrl)) &&
      Contains(doc, IssuerElement(issuer)) &&
      Contains(doc, NameIdPolicy)
  {
    var pieces := RequestPieces(id, issueInstant, acsUrl, issuer);
    ConcatContains(pieces, 1);
    ConcatContains(pieces, 3);
    ConcatContains(pieces, 5);
    ConcatContains(pieces, 8);
    ConcatContains(pieces, 10);
  }
}
