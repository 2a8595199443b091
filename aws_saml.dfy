/**
 * The SAML side of internal/cloud-providers/aws/aws.go: pulling the role
 * grants and the inner SAML response out of the POST body the browser sends
 * to the AWS sign-in endpoint, and the filter that decides which browser
 * events carry that body.
 */
module AwsSaml {
  import opened Wrappers
  import opened Errors
  import opened Text
  import opened AwsTypes
  import Base64
  import UrlEscape

  /** The form key whose value is the IdP's base64 SAML response. */
  const SamlResponseKey: seq<byte> := Bytes("SAMLResponse=")

  /** The marker that tells a role ARN from a SAML provider ARN. */
  const RoleMarker: string := ":role/"

  /** The AWS endpoint the IdP posts the SAML response to. */
  const SamlEndpoint: string := "https://signin.aws.amazon.com/saml"

  /**
   * goquery's part, outside the model: the texts of the role AttributeValue
   * elements of a SAML document in document order, or None when the bytes
   * cannot be read as a document.
   */
  type DocumentReader = seq<byte> -> Option<seq<string>>

  /**
   * One AttributeValue: split at commas; whichever of the first two tokens is
   * the role is decided by the ":role/" test on the first. A text with no
   * comma indexes past the split result.
   */
  function RoleFromAttributeValue(text: string): (r: Result<AwsRole, Error>)
    ensures r.Success? <==> ',' in text
    ensures r.Failure? ==> r.error == IndexOutOfRange
  {
    var parts := Split(text, ",");
    ContainsSingle(text, ',');
    if |parts| < 2 then Failure(IndexOutOfRange)
    else
      var (roleIdx, principalIdx) := if Contains(parts[0], RoleMarker) then (0, 1) else (1, 0);
      Success(AwsRole(TrimSpace(parts[roleIdx]), TrimSpace(parts[principalIdx])))
  }

  /** The grants `classify` makes of all AttributeValues, appended in document order; the first bad value fails. */
  function CollectRoles(texts: seq<string>, classify: string -> Result<AwsRole, Error>): Result<seq<AwsRole>, Error>
    decreases |texts|
  {
    if texts == [] then Success([])
    else
      var n := |texts| - 1;
      var front := CollectRoles(texts[..n], classify);
      if front.Failure? then Failure(front.error)
      else
        var last := classify(texts[n]);
        if last.Failure? then Failure(last.error)
        else Success(front.value + [last.value])
  }

  /** The grants of all AttributeValues, in document order. */
  function RolesFromAttributeValues(texts: seq<string>): Result<seq<AwsRole>, Error>
  {
    CollectRoles(texts, RoleFromAttributeValue)
  }

  /** Collecting fails exactly when some value fails to classify, and then with the error of such a value. */
  lemma {:induction false} CollectFails(texts: seq<string>, classify: string -> Result<AwsRole, Error>)
    ensures var r := CollectRoles(texts, classify);
      && (r.Success? <==> forall j :: 0 <= j < |texts| ==> classify(texts[j]).Success?)
      && (r.Failure? ==> exists j :: 0 <= j < |texts| && classify(texts[j]) == Failure(r.error))
    decreases |texts|
  {
    if texts != [] {
      var n := |texts| - 1;
      var prefix := texts[..n];
      CollectFails(prefix, classify);
      assert forall j :: 0 <= j < n ==> prefix[j] == texts[j];
      var front := CollectRoles(prefix, classify);
      if front.Failure? {
        var j :| 0 <= j < n && classify(prefix[j]) == Failure(front.error);
        assert classify(texts[j]) == Failure(front.error);
      }
    }
  }

  /** A successful collection holds one grant per value, the j-th classified from the j-th value alone. */
  lemma {:induction false} CollectOnePerValue(texts: seq<string>, classify: string -> Result<AwsRole, Error>)
    requires CollectRoles(texts, classify).Success?
    ensures var roles := CollectRoles(texts, classify).value;
      && |roles| == |texts|
      && forall j :: 0 <= j < |texts| ==> classify(texts[j]) == Success(roles[j])
    decreases |texts|
  {
    if texts != [] {
      var n := |texts| - 1;
      var prefix := texts[..n];
      CollectOnePerValue(prefix, classify);
      var front := CollectRoles(prefix, classify).value;
      var roles := CollectRoles(texts, classify).value;
      assert roles == front + [classify(texts[n]).value];
      forall j | 0 <= j < |texts| ensures classify(texts[j]) == Success(roles[j]) {
        if j < n {
          assert prefix[j] == texts[j] && roles[j] == front[j];
        }
      }
    }
  }

  /**
   * Exactly one grant per AttributeValue, in document order, each classified
   * on its own; no values give no grants; the only failure is a value
   * without a comma.
   */
  lemma RolesInDocumentOrder(texts: seq<string>)
    ensures var r := RolesFromAttributeValues(texts);
      && (r.Success? <==> forall j :: 0 <= j < |texts| ==> ',' in texts[j])
      && (r.Failure? ==> r.error == IndexOutOfRange)
      && (r.Success? ==> |r.value| == |texts|)
      && (r.Success? ==> forall j :: 0 <= j < |texts| ==> RoleFromAttributeValue(texts[j]) == Success(r.value[j]))
  {
    CollectFails(texts, RoleFromAttributeValue);
    if RolesFromAttributeValues(texts).Success? {
      CollectOnePerValue(texts, RoleFromAttributeValue);
    }
  }

  /**
   * ParseRolesFromSamlResponse as a value: base64-decode the captured body,
   * form-unescape it, take piece [1] of splitting at "SAMLResponse=",
   * base64-decode that piece, read the document and classify every grant.
   * It is the reference for the method ParseRolesFromSamlResponse.
   */
  function ExtractSamlResponse(assertion: seq<byte>, document: DocumentReader): (r: Result<AwsResponse, Error>)
    ensures r.Success? ==> Base64.Decode(r.value.samlResponse).Some?
    ensures Base64.Decode(assertion).None? ==> r == Failure(CorruptBase64)
  {
    match Base64.Decode(assertion)
    case None => Failure(CorruptBase64)
    case Some(body) =>
      match UrlEscape.QueryUnescape(body)
      case None => Failure(InvalidEscape)
      case Some(form) =>
        var pieces := Split(form, SamlResponseKey);
        if |pieces| < 2 then Failure(IndexOutOfRange)
        else
          var samlResponse := pieces[1];
          match Base64.Decode(samlResponse)
          case None => Failure(CorruptBase64)
          case Some(xml) =>
            match document(xml)
            case None => Failure(MalformedDocument)
            case Some(texts) =>
              match RolesFromAttributeValues(texts)
              case Failure(e) => Failure(e)
              case Success(roles) => Success(AwsResponse(roles, samlResponse))
  }

  /** The AttributeValue callback run over every selected element: classify the value and append the grant. */
  method AppendRoles(texts: seq<string>) returns (r: Result<seq<AwsRole>, Error>)
    ensures r == RolesFromAttributeValues(texts)
  {
    var roles: seq<AwsRole> := [];
    var i := 0;
    while i < |texts|
      invariant 0 <= i <= |texts|
      invariant RolesFromAttributeValues(texts[..i]) == Success(roles)
    {
      var role := RoleFromAttributeValue(texts[i]);
      if role.Failure? {
        CollectFails(texts, RoleFromAttributeValue);
        return Failure(IndexOutOfRange);
      }
      assert texts[..i + 1][..i] == texts[..i];
      roles := roles + [role.value];
      i := i + 1;
    }
    assert texts[..i] == texts;
    return Success(roles);
  }

  /** The pipeline, appending each grant as the AttributeValue callback does. */
  method ParseRolesFromSamlResponse(assertion: seq<byte>, document: DocumentReader)
    returns (r: Result<AwsResponse, Error>)
    ensures r == ExtractSamlResponse(assertion, document)
  {
    var decoded := Base64.Decode(assertion);
    if decoded.None? {
      return Failure(CorruptBase64);
    }
    var unescaped := UrlEscape.QueryUnescape(decoded.value);
    if unescaped.None? {
      return Failure(InvalidEscape);
    }
    var pieces := Split(unescaped.value, SamlResponseKey);
    if |pieces| < 2 {
      return Failure(IndexOutOfRange);
    }
    var samlBase64Encoded := pieces[1];
    var samlBase64Decoded := Base64.Decode(samlBase64Encoded);
    if samlBase64Decoded.None? {
      return Failure(CorruptBase64);
    }
    var doc := document(samlBase64Decoded.value);
    if doc.None? {
      return Failure(MalformedDocument);
    }
    var roles := AppendRoles(doc.value);
    if roles.Failure? {
      return Failure(roles.error);
    }
    return Success(AwsResponse(roles.value, samlBase64Encoded));
  }

  // ---------------------------------------------------------------------------
  // Classification of one AttributeValue

  /**
   * With the first two tokens `a` and `b`: if `a` holds ":role/" it is the
   * role and `b` the principal, otherwise the other way round; both trimmed,
   * and anything after a second comma ignored.
   */
  lemma RoleClassification(a: string, b: string, tail: string)
    requires ',' !in a && ',' !in b
    requires tail == [] || tail[0] == ','
    ensures RoleFromAttributeValue(a + "," + b + tail) ==
      Success(if Contains(a, RoleMarker) then AwsRole(TrimSpace(a), TrimSpace(b))
              else AwsRole(TrimSpace(b), TrimSpace(a)))
  {
    FirstTwoTokens(a, b, tail);
  }

  /** The first two comma-separated pieces of a + "," + b + tail are `a` and `b`. */
  lemma FirstTwoTokens(a: string, b: string, tail: string)
    requires ',' !in a && ',' !in b
    requires tail == [] || tail[0] == ','
    ensures var parts := Split(a + "," + b + tail, ",");
      |parts| >= 2 && parts[0] == a && parts[1] == b
  {
    ContainsSingle(a, ',');
    assert a + "," + b + tail == a + "," + (b + tail);
    SplitAfterFirst(a, ",", b + tail);
    FirstToken(b, tail);
  }

  /** The first comma-separated piece of b + tail is `b`. */
  lemma FirstToken(b: string, tail: string)
    requires ',' !in b
    requires tail == [] || tail[0] == ','
    ensures Split(b + tail, ",")[0] == b
  {
    ContainsSingle(b, ',');
    FirstPiece(b, ",", tail);
  }

  /** When exactly one token is a role ARN, the order the IdP lists them in does not matter. */
  lemma RoleOrderIrrelevant(a: string, b: string)
    requires ',' !in a && ',' !in b
    requires Contains(a, RoleMarker) != Contains(b, RoleMarker)
    ensures RoleFromAttributeValue(a + "," + b) == RoleFromAttributeValue(b + "," + a)
  {
    RoleClassification(a, b, []);
    RoleClassification(b, a, []);
    assert a + "," + b + [] == a + "," + b;
    assert b + "," + a + [] == b + "," + a;
  }

  // ---------------------------------------------------------------------------
  // The extraction pipeline

  /** The key holds neither '%' nor '+', so form unescaping leaves it as it is. */
  lemma KeyIsPlain()
    ensures forall i :: 0 <= i < |SamlResponseKey| ==>
      SamlResponseKey[i] != UrlEscape.Percent && SamlResponseKey[i] != UrlEscape.Plus
  {
  }

  /** Splitting "SAMLResponse=" + v, where v holds no further key, gives ["", v]. */
  lemma SplitAtLeadingKey(v: seq<byte>)
    requires !Contains(v, SamlResponseKey)
    ensures Split(SamlResponseKey + v, SamlResponseKey) == [[], v]
  {
    var s := SamlResponseKey + v;
    assert s[..|SamlResponseKey|] == SamlResponseKey;
    assert IndexOf(s, SamlResponseKey) == Some(0);
    assert s[|SamlResponseKey|..] == v;
  }

  /**
   * The round trip: an IdP body "SAMLResponse=" + QueryEscape(base64(xml)),
   * base64-encoded as the browser reports it, yields the grants read from xml
   * and exactly the inner base64 text.
   */
  lemma {:induction false} ExtractRoundTrip(xml: seq<byte>, document: DocumentReader)
    requires !Contains(Base64.Encode(xml), SamlResponseKey)
    ensures var inner := Base64.Encode(xml);
      var r := ExtractSamlResponse(Base64.Encode(SamlResponseKey + UrlEscape.QueryEscape(inner)), document);
      && (r.Success? <==> document(xml).Some? && RolesFromAttributeValues(document(xml).value).Success?)
      && (r.Success? ==> r.value == AwsResponse(RolesFromAttributeValues(document(xml).value).value, inner))
      && (document(xml).None? ==> r == Failure(MalformedDocument))
  {
    var inner := Base64.Encode(xml);
    var escaped := UrlEscape.QueryEscape(inner);
    var body := SamlResponseKey + escaped;
    Base64.DecodeEncode(body);
    UrlEscape.UnescapeEscape(inner);
    KeyIsPlain();
    UrlEscape.UnescapePlainPrefix(SamlResponseKey, escaped);
    assert UrlEscape.QueryUnescape(body) == Some(SamlResponseKey + inner);
    SplitAtLeadingKey(inner);
    Base64.DecodeEncode(xml);
    var r := ExtractSamlResponse(Base64.Encode(body), document);
    assert r == match document(xml)
      case None => Failure(MalformedDocument)
      case Some(texts) =>
        match RolesFromAttributeValues(texts)
        case Failure(e) => Failure(e)
        case Success(roles) => Success(AwsResponse(roles, inner));
  }

  /** A byte outside the base64 alphabet in the captured body is a decoding error. */
  lemma ForeignByteInAssertion(assertion: seq<byte>, i: int, document: DocumentReader)
    requires 0 <= i < |assertion| && !Base64.IsSymbol(assertion[i])
    requires assertion[i] != Base64.Pad && assertion[i] != 10 && assertion[i] != 13
    ensures ExtractSamlResponse(assertion, document) == Failure(CorruptBase64)
  {
    Base64.DecodeRejectsForeignByte(assertion, i);
  }

  /** A '%' not followed by two hex digits in the decoded body is an escape error. */
  lemma MalformedEscapeInBody(assertion: seq<byte>, body: seq<byte>, i: int, document: DocumentReader)
    requires Base64.Decode(assertion) == Some(body)
    requires UrlEscape.MalformedAt(body, i)
    ensures ExtractSamlResponse(assertion, document) == Failure(InvalidEscape)
  {
    UrlEscape.UnescapeRejectsMalformed(body, i);
  }

  /** A form body without "SAMLResponse=" makes the [1] index fail. */
  lemma MissingKey(assertion: seq<byte>, body: seq<byte>, form: seq<byte>, document: DocumentReader)
    requires Base64.Decode(assertion) == Some(body)
    requires UrlEscape.QueryUnescape(body) == Some(form)
    requires !Contains(form, SamlResponseKey)
    ensures ExtractSamlResponse(assertion, document) == Failure(IndexOutOfRange)
  {
    SplitSecondPiece(form, SamlResponseKey);
  }

  /**
   * The returned SAML response is the form text after the first key, up to a
   * second key or the end, verbatim: it is not cut at a following '&'.
   */
  lemma ResponseIsTextAfterKey(assertion: seq<byte>, body: seq<byte>, form: seq<byte>, document: DocumentReader)
    requires Base64.Decode(assertion) == Some(body)
    requires UrlEscape.QueryUnescape(body) == Some(form)
    requires ExtractSamlResponse(assertion, document).Success?
    ensures Contains(form, SamlResponseKey)
    ensures var rest := form[IndexOf(form, SamlResponseKey).value + |SamlResponseKey|..];
      ExtractSamlResponse(assertion, document).value.samlResponse ==
        if Contains(rest, SamlResponseKey) then rest[..IndexOf(rest, SamlResponseKey).value] else rest
  {
    var pieces := Split(form, SamlResponseKey);
    assert |pieces| >= 2 && ExtractSamlResponse(assertion, document).value.samlResponse == pieces[1];
    SplitSecondPiece(form, SamlResponseKey);
  }

  /**
   * Consequently a further form field after the response ("&RelayState=...")
   * stays attached to it, and the '&' makes the inner decoding fail.
   */
  lemma TrailingFieldRejected(assertion: seq<byte>, body: seq<byte>, v: seq<byte>, i: int, document: DocumentReader)
    requires Base64.Decode(assertion) == Some(body)
    requires UrlEscape.QueryUnescape(body) == Some(SamlResponseKey + v)
    requires !Contains(v, SamlResponseKey)
    requires 0 <= i < |v| && v[i] == 38
    ensures ExtractSamlResponse(assertion, document) == Failure(CorruptBase64)
  {
    SplitAtLeadingKey(v);
    Base64.DecodeRejectsForeignByte(v, i);
  }

  // ---------------------------------------------------------------------------
  // Request interception

  /** The part of a network.Request the filter looks at; None for a nil PostDataEntries slice. */
  datatype Request = Request(httpMethod: string, url: string, postDataEntries: Option<seq<seq<byte>>>)

  /** The browser events the listener receives; only requests about to be sent are inspected. */
  datatype NetworkEvent = RequestWillBeSent(request: Request) | OtherEvent

  /** What handling one event leads to. */
  datatype Interception =
    | Ignored
    | Aborted(error: Error)      // a panic or log.Fatalf ends the process
    | Delivered(response: AwsResponse)

  /** The request-level test: a POST to the AWS SAML endpoint with a non-nil entry list. */
  predicate IsSamlPost(request: Request)
  {
    request.httpMethod == "POST" && Contains(request.url, SamlEndpoint) && request.postDataEntries.Some?
  }

  /** InterceptChromeAuthRequest, without the cancel call and the channel send. */
  method InterceptChromeAuthRequest(ev: NetworkEvent, document: DocumentReader) returns (outcome: Interception)
    ensures outcome.Ignored? <==>
      !(ev.RequestWillBeSent? && IsSamlPost(ev.request) &&
        (ev.request.postDataEntries.value == [] || ev.request.postDataEntries.value[0] != []))
    ensures ev.RequestWillBeSent? && IsSamlPost(ev.request) && ev.request.postDataEntries.value == [] ==>
      outcome == Aborted(IndexOutOfRange)
    ensures ev.RequestWillBeSent? && IsSamlPost(ev.request) && ev.request.postDataEntries.value != [] ==>
      var entry := ev.request.postDataEntries.value[0];
      entry != [] ==>
        match ExtractSamlResponse(entry, document)
        case Failure(e) => outcome == Aborted(e)
        case Success(response) => outcome == Delivered(response)
  {
    match ev
    case OtherEvent =>
      return Ignored;
    case RequestWillBeSent(request) =>
      if request.httpMethod == "POST" && Contains(request.url, SamlEndpoint) && request.postDataEntries.Some? {
        var entries := request.postDataEntries.value;
        if |entries| == 0 {
          return Aborted(IndexOutOfRange);
        }
        var entry := entries[0];
        if entry != [] {
          var parsed := ParseRolesFromSamlResponse(entry, document);
          if parsed.Failure? {
            return Aborted(parsed.error);
          }
          return Delivered(parsed.value);
        }
      }
      return Ignored;
  }
}
