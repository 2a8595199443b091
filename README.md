# CloudAuthN core, modelled in Dafny

CloudAuthN signs a user in to AWS through Microsoft Entra ID (formerly Azure
AD) over SAML. It builds a SAML AuthnRequest, compresses it with raw deflate,
base64-encodes it and sends it as the `SAMLRequest` parameter of the tenant's
Microsoft login URL. Once the user has signed in, a browser listener picks
out the POST that carries the SAML assertion to AWS. The program reads the
granted roles out of that assertion, exchanges the assertion once per role
for temporary STS credentials, keys the credentials by AWS account, and
merges them into the `~/.aws/credentials` profile file.

This project models the pure and imperative core of that flow and proves
properties of it.

| file | module | what it models |
|---|---|---|
| `wrappers.dfy` | `Wrappers`, `Errors` | `Option`/`Result`; the error kinds, a Go index panic among them |
| `text.dfy` | `Text` | `strings.Index`, `Contains`, `Split`, `HasPrefix`, `HasSuffix`, `Trim`, `TrimSpace` over sequences |
| `base64.dfy` | `Base64` | `base64.StdEncoding` encoding and (non-strict, CR/LF-skipping) decoding |
| `url_escape.dfy` | `UrlEscape` | `url.QueryEscape` and `url.QueryUnescape` |
| `aws_types.dfy` | `AwsTypes` | `AwsRole`, `AWSResponse`, `AwsCredentialsEntry` |
| `aws_saml.dfy` | `AwsSaml` | `ParseRolesFromSamlResponse` and the `InterceptChromeAuthRequest` filter |
| `aws_credentials_file.dfy` | `AwsCredentialsFile` | the read, merge and write loops of `UpdateAWSCredentialsFile` |
| `helpers.dfy` | `Utils` | `RawDeflateBase64Encode`, with `bytes.Buffer` as a class |
| `microsoft.dfy` | `Microsoft` | the AuthnRequest template and `GenerateSAMLLoginURL` |
| `core.dfy` | `MicrosoftToAws` | the tenant guard and the role-by-role credential loop of `MicrosoftToAws` |

Modelling conventions:

- Wire data is `seq<byte>`. This covers the captured POST entry, the decoded
  form body, the inner SAML response and base64 or escaped output.
- Text is `string` (code points). This covers ARNs, AttributeValue texts,
  credential-file lines and URLs.
- A Go runtime panic (indexing past a `strings.Split` result) is the error
  value `IndexOutOfRange`. So is `log.Fatal`/`log.Fatalf` after a failed
  parse: the interceptor's outcome is `Aborted`. Both end the process in
  Go, so nothing runs after them in the model either.
- Collaborators the core only calls are parameters of the model:
  - the XML query (goquery) is a `DocumentReader` function;
  - the compressor is a `Deflater`;
  - STS `AssumeRoleWithSAML` is an `Exchange` function;
  - the request UUID and the current time are strings;
  - the result of reading the credentials file is a `FileRead`.
- Go's randomised map iteration order is modelled in two ways:
  - the merge loop picks keys with `:|`;
  - the write loop is proved to produce the text of *some* order of the
    profiles (`exists order :: IsOrderOf(order, m) && …`), and the
    properties of the written text hold for every order.

Behaviours of the source that the proofs make explicit:

- Splitting the credentials text at `"\n"` leaves an empty last piece when
  the text ends in a newline, and every written file does. That empty piece
  joins the profile read last, so reading back a written file gives every
  profile unchanged except the profile written last, which gains one empty
  line (`AwsCredentialsFile.RenderReadsBack`, `Reread`). That empty line stays
  only while its profile is kept: the next update replaces it when the
  profile is among that update's credentials, and otherwise writes it back
  with the profile (`AwsCredentialsFile.MergeAfterReread`).
- The returned SAML response is everything after `SAMLResponse=` up to a
  second occurrence of that key. It is not cut at `&`, so a body with a
  further form field after the response fails the inner base64 decoding
  (`AwsSaml.TrailingFieldRejected`).
- A missing `SAMLResponse=` key, an AttributeValue without a comma, and a
  role ARN with fewer than five `:`-separated fields are all index panics in
  the code, not typed errors. The model follows the code.
- `flate.NewWriter` accepts `flate.DefaultCompression`, so its error check
  in `RawDeflateBase64Encode` can never fire (`Utils.DefaultLevelAccepted`).
  The comment at `internal/utils/helpers.go:22` says "no compression", but
  the code asks for the default level. The model follows the code.

## Model

| member | source | states |
|---|---|---|
| `Text.Contains` | internal/cloud-providers/aws/aws.go:169 | strings.Contains: whether `IndexOf` finds the pattern; stated by `ContainsOccurs` |
| `Text.ContainsOccurs` | internal/cloud-providers/aws/aws.go:169 | containing a pattern is exactly its occurring at some position |
| `Text.IndexOf` | internal/cloud-providers/aws/aws.go:169 | the result is the first position where the pattern occurs; None exactly when it occurs nowhere |
| `Text.Split` | internal/cloud-providers/aws/aws.go:44 | at least one piece; the pieces joined with the separator give back the input; no piece contains the separator |
| `Text.SplitJoin` | internal/cloud-providers/aws/aws.go:166 | splitting at a one-character separator undoes joining pieces that do not contain it |
| `Text.SplitAfterFirst` | internal/cloud-providers/aws/aws.go:166 | a text with no separator before the first one splits into that text followed by the split of the rest |
| `Text.SplitSecondPiece` | internal/cloud-providers/aws/aws.go:150 | piece [1] exists exactly when the separator occurs, and is the text between its first and second occurrence (or the end) |
| `Text.Trim` | internal/cloud-providers/aws/aws.go:52 | the result is a slice `s[i..j]` of the input with only cut characters before `i` and after `j`; neither end of the result is a cut character; a text whose ends are kept is returned unchanged |
| `Text.TrimEnclosed` | internal/cloud-providers/aws/aws.go:52 | trimming a text enclosed by two cut characters, whose own ends are not cut, gives that text back |
| `Text.TrimSpace` | internal/cloud-providers/aws/aws.go:50 | the result is a slice `s[i..j]` of the input with only Unicode white space before `i` and after `j`; neither end of the result is white space; a text with no white space at its ends is unchanged |
| `Text.HasPrefix` | internal/cloud-providers/aws/aws.go:51 | holds exactly when the prefix occurs at position 0 |
| `Text.HasSuffix` | internal/cloud-providers/aws/aws.go:51 | holds exactly when the suffix occurs at the last position it fits |
| `Text.ContainsSingle` | internal/cloud-providers/aws/aws.go:166 | containing a one-character text is membership of that character |
| `Text.TerminatedIsJoin` | internal/cloud-providers/aws/aws.go:71-78 | parts each followed by the separator are the parts joined by it, with one empty part after the last separator |
| `Text.TerminatedConcat` | internal/cloud-providers/aws/aws.go:71-78 | writing two runs of lines one after the other gives the concatenation of the two texts |
| `Base64.Encode` | internal/utils/helpers.go:41 | four symbols per started group of three bytes; every symbol is in the alphabet, except '=' padding in the last two positions only |
| `Base64.Decode` | internal/cloud-providers/aws/aws.go:136 | a success holds at most three bytes per four input bytes; what it accepts and rejects is stated by `DecodeEncode` and `DecodeRejectsForeignByte` |
| `Base64.DecodeQuanta` | internal/cloud-providers/aws/aws.go:153 | after CR and LF are skipped, a success needs a multiple of four symbols and gives three bytes per quantum, the last quantum one to three |
| `Base64.DecodeEncode` | internal/utils/helpers.go:41 | decoding the encoding of any bytes gives those bytes back |
| `Base64.EncodeHasNoNewlines` | internal/utils/helpers.go:41 | encoded text never holds CR or LF |
| `Base64.DecodeRejectsForeignByte` | internal/cloud-providers/aws/aws.go:136-139 | a byte that is neither a symbol, '=', CR nor LF makes decoding fail |
| `UrlEscape.QueryEscape` | internal/sso/microsoft/microsoft.go:41 | the output holds only unreserved bytes and '%', and '+' only if the input held a space |
| `UrlEscape.QueryUnescape` | internal/cloud-providers/aws/aws.go:144 | a success is no longer than the input; a text with neither '%' nor '+' passes through unchanged (`UnescapePlainPrefix`); failure is characterised by `UnescapeRejectsMalformed` and `UnescapeAcceptsWellFormed` |
| `UrlEscape.UnescapeEscape` | internal/sso/microsoft/microsoft.go:41 | unescaping the escape of any bytes gives those bytes back |
| `UrlEscape.UnescapeRejectsMalformed` | internal/cloud-providers/aws/aws.go:144-147 | a '%' not followed by two hex digits makes unescaping fail |
| `UrlEscape.UnescapeAcceptsWellFormed` | internal/cloud-providers/aws/aws.go:144-147 | a text with no malformed '%' always unescapes |
| `UrlEscape.UnescapePlainPrefix` | internal/cloud-providers/aws/aws.go:144 | a prefix without '%' or '+' passes through unescaping unchanged |
| `UrlEscape.UnescapePlainByte` | internal/cloud-providers/aws/aws.go:144 | a byte other than '%' and '+' passes through unescaping and the rest is unescaped after it |
| `AwsSaml.RoleFromAttributeValue` | internal/cloud-providers/aws/aws.go:165-176 | a value yields a grant exactly when it contains a comma; otherwise an index panic |
| `AwsSaml.RoleClassification` | internal/cloud-providers/aws/aws.go:166-175 | of the first two comma-separated tokens, the one tested for ":role/" decides which is the role and which the principal; both are trimmed; later tokens are ignored |
| `AwsSaml.FirstTwoTokens` | internal/cloud-providers/aws/aws.go:166 | for comma-free `a` and `b` followed by nothing or by a comma, the first two comma-separated pieces are `a` and `b` |
| `AwsSaml.RoleOrderIrrelevant` | internal/cloud-providers/aws/aws.go:169-173 | when exactly one token is a role ARN, listing the two tokens either way round gives the same grant |
| `AwsSaml.CollectFails` | internal/cloud-providers/aws/aws.go:163-177 | collecting per-value grants succeeds exactly when every value classifies, and a failure carries the error of some value |
| `AwsSaml.CollectOnePerValue` | internal/cloud-providers/aws/aws.go:163-177 | a successful collection has one grant per value, the j-th being the j-th value's classification |
| `AwsSaml.AppendRoles` | internal/cloud-providers/aws/aws.go:163-177 | the loop appending one grant per AttributeValue, with an index panic on a value without a comma, computes `RolesFromAttributeValues` |
| `AwsSaml.RolesInDocumentOrder` | internal/cloud-providers/aws/aws.go:163-177 | one grant per AttributeValue, in document order, each classified on its own; it fails exactly when some value has no comma |
| `AwsSaml.ExtractSamlResponse` | internal/cloud-providers/aws/aws.go:135-180 | a returned response is always text that base64-decodes; an undecodable captured body is a base64 error; the full pipeline is characterised by `ExtractRoundTrip` and `ResponseIsTextAfterKey` |
| `AwsSaml.ParseRolesFromSamlResponse` | internal/cloud-providers/aws/aws.go:135-180 | the loop that appends grants computes the extraction pipeline: decode, unescape, piece after the key, decode, read the document, classify |
| `AwsSaml.SplitAtLeadingKey` | internal/cloud-providers/aws/aws.go:150 | a body that starts with the key and has no second one splits into the empty text and the value |
| `AwsSaml.KeyIsPlain` | internal/cloud-providers/aws/aws.go:144-150 | "SAMLResponse=" holds neither '%' nor '+', so unescaping leaves the key as it is |
| `AwsSaml.ExtractRoundTrip` | internal/cloud-providers/aws/aws.go:135-180 | a captured body of "SAMLResponse=" + escaped base64 of a document yields that document's grants and exactly the inner base64 text; an unreadable document gives MalformedDocument |
| `AwsSaml.ForeignByteInAssertion` | internal/cloud-providers/aws/aws.go:136-139 | a foreign byte in the captured body is a base64 error |
| `AwsSaml.MalformedEscapeInBody` | internal/cloud-providers/aws/aws.go:144-147 | a malformed escape in the decoded body is an escape error |
| `AwsSaml.MissingKey` | internal/cloud-providers/aws/aws.go:150 | a form without "SAMLResponse=" is an index panic |
| `AwsSaml.ResponseIsTextAfterKey` | internal/cloud-providers/aws/aws.go:149-150 | a successful result's response is the form text after the first key, up to a second key or the end |
| `AwsSaml.TrailingFieldRejected` | internal/cloud-providers/aws/aws.go:150-156 | a form field after the response ('&') stays attached and fails the inner decoding |
| `AwsSaml.IsSamlPost` | internal/cloud-providers/aws/aws.go:195 | the request test: method "POST", a URL containing the AWS SAML endpoint and a non-nil entry list; its effect is stated by the contract of `InterceptChromeAuthRequest` |
| `AwsSaml.InterceptChromeAuthRequest` | internal/cloud-providers/aws/aws.go:190-215 | only a POST to the AWS SAML endpoint with a non-nil entry list and a non-empty first entry is handled; an empty entry list is an index panic; a handled entry is delivered exactly when extraction succeeds, otherwise the run aborts with its error |
| `AwsCredentialsFile.Classify` | internal/cloud-providers/aws/aws.go:50-52 | a trimmed line starting with '[' and ending with ']' is a header naming that line with every bracket at either end removed; any other line is kept, trimmed; stated by `ReadNext` and `TrimBrackets` |
| `AwsCredentialsFile.ReadLine` | internal/cloud-providers/aws/aws.go:51-56 | one step of the reading loop; stated by `ReadNext` and `ReadSections` |
| `AwsCredentialsFile.ReadProfiles` | internal/cloud-providers/aws/aws.go:44-57 | the profiles of a file text, the reference for `ReadProfileEntries`; stated by `ReadProfilesSections` and `FileProfilesWritable` |
| `AwsCredentialsFile.ReadProfileEntries` | internal/cloud-providers/aws/aws.go:44-57 | the reading loop computes `ReadProfiles` of the file text |
| `AwsCredentialsFile.ReadLines` | internal/cloud-providers/aws/aws.go:48-57 | the loop over the split lines ends in the state of the reading loop `ReadFrom` applied to their classifications |
| `AwsCredentialsFile.ReadNext` | internal/cloud-providers/aws/aws.go:49-56 | one more line: a trimmed "[...]" line opens (or empties) the profile inside the brackets, another line joins the current profile when there is one, and is dropped otherwise |
| `AwsCredentialsFile.ReadSections` | internal/cloud-providers/aws/aws.go:48-57 | after any lines, the current profile is the one the last header opened; the profiles are exactly the header names; a named profile holds the trimmed lines after its last header up to the next header; the "[]" profile holds nothing |
| `AwsCredentialsFile.ReadProfilesSections` | internal/cloud-providers/aws/aws.go:44-57 | the same characterisation stated for a file text: lines before the first header are dropped, a repeated header restarts its profile, blank lines inside a profile are kept |
| `AwsCredentialsFile.MergeCredentials` | internal/cloud-providers/aws/aws.go:59-69 | the result's profiles are the existing ones plus the incoming ones; each incoming profile holds its key, secret and expiration lines and a token line only for a non-empty token; every other profile is unchanged |
| `AwsCredentialsFile.CredentialLines` | internal/cloud-providers/aws/aws.go:61-68 | the key, secret and expiration lines, then a token line only for a non-empty token; stated by `MergeCredentials` and `CredentialLinesWritable` |
| `AwsCredentialsFile.Merged` | internal/cloud-providers/aws/aws.go:59-69 | the profiles after the merge loop; stated by `MergedContents` |
| `AwsCredentialsFile.MergedContents` | internal/cloud-providers/aws/aws.go:59-69 | the merged profiles are those read and those given; given ones hold their credential lines and the others are unchanged |
| `AwsCredentialsFile.RenderProfiles` | internal/cloud-providers/aws/aws.go:71-78 | the text written is, for some order listing every profile once, each profile's "[name]" header followed by its lines, every line ending in a newline |
| `AwsCredentialsFile.RenderText` | internal/cloud-providers/aws/aws.go:71-78 | the text written for one order of the profiles; stated by `RenderProfiles`, `TerminatedIsJoin` and `RenderReadsBack` |
| `AwsCredentialsFile.WriteProfile` | internal/cloud-providers/aws/aws.go:72-77 | one profile's block is appended: its "[name]" header and then each of its lines, each followed by a newline |
| `AwsCredentialsFile.UpdateAWSCredentialsFile` | internal/cloud-providers/aws/aws.go:32-78 | fails exactly when reading the file fails (a missing file reads as empty); otherwise the text written renders the merge of the file's profiles with the credentials, in some order of the profiles |
| `AwsCredentialsFile.SplitFileText` | internal/cloud-providers/aws/aws.go:44 | splitting written text whose lines hold no newline at "\n" gives the lines and one empty last piece |
| `AwsCredentialsFile.TrimBrackets` | internal/cloud-providers/aws/aws.go:52 | a profile name without a bracket at its ends reads back from its "[name]" header |
| `AwsCredentialsFile.RenderReadsBack` | internal/cloud-providers/aws/aws.go:44-78 | reading back the text written for writable profiles, in any order, gives the same profiles, the one written last with one more empty line |
| `AwsCredentialsFile.FileProfilesWritable` | internal/cloud-providers/aws/aws.go:44-57 | every profile read from any file can be written back: names without newlines or edge brackets, trimmed lines that are not headers, no lines under "[]" |
| `AwsCredentialsFile.CredentialLinesWritable` | internal/cloud-providers/aws/aws.go:61-68 | for credential values with no newline or trailing space, every line written is a plain section line: no newline, no white space at either end, not a header |
| `AwsCredentialsFile.UpdateReadsBack` | internal/cloud-providers/aws/aws.go:44-78 | whatever the existing file holds, re-reading the text an update writes gives back the merged profiles, the last one written with one more empty line (for incoming profile names that are non-empty and writable) |
| `AwsCredentialsFile.MergeAfterReread` | internal/cloud-providers/aws/aws.go:59-69 | the empty line a re-read adds to the profile written last disappears when the next update's credentials include that profile, and stays otherwise |
| `Utils.DefaultLevelAccepted` | internal/utils/helpers.go:23-26 | the writer is created at the default level, which flate accepts, so the error branch after `flate.NewWriter` never fires |
| `Utils.Buffer.constructor` | internal/utils/helpers.go:20 | a fresh buffer is empty |
| `Utils.Buffer.Write` | internal/utils/helpers.go:29 | a write appends its bytes to the buffer and changes nothing else |
| `Utils.Deflated` | internal/utils/helpers.go:23-38 | the deflate stream exists exactly when both the write and the close succeed, and starts with what the write emitted |
| `Utils.DeflateBase64` | internal/utils/helpers.go:18-44 | succeeds exactly when the deflate stream is produced, failing with its error otherwise; a success base64-decodes back to exactly the deflate stream |
| `Utils.EncoderFailures` | internal/utils/helpers.go:28-38 | the encoder fails exactly when the write or the close reports an error, with the first such error |
| `Utils.EncodedShape` | internal/utils/helpers.go:41 | a success is padded base64 of the whole deflate stream: four symbols per started group of three bytes |
| `Utils.RawDeflateBase64Encode` | internal/utils/helpers.go:18-44 | the writer filling a fresh buffer, then base64 of the buffer, computes `DeflateBase64` |
| `Microsoft.GenerateSAMLLoginURL` | internal/sso/microsoft/microsoft.go:25-43 | fails exactly when encoding the request fails, with the encoder's error |
| `Microsoft.LoginUrlRoundTrip` | internal/sso/microsoft/microsoft.go:35-42 | the URL is the login host, the tenant ID as given and "/saml2?SAMLRequest=", followed by a value that unescapes and base64-decodes to exactly the deflated AuthnRequest |
| `Microsoft.ParameterIsEscaped` | internal/sso/microsoft/microsoft.go:41 | the SAMLRequest value holds only letters, digits, '-', '_', '.', '~' and '%', so no raw '+', '/', '=', '&' or space reaches the query |
| `Microsoft.EncodedHasNoSpace` | internal/sso/microsoft/microsoft.go:41 | base64 output holds no space, so escaping it produces no '+' |
| `Microsoft.AuthnRequest` | internal/sso/microsoft/microsoft.go:28-33 | the request document; what it carries is stated by `RequestCarriesFields` |
| `Microsoft.RequestCarriesFields` | internal/sso/microsoft/microsoft.go:28-33 | the AuthnRequest holds the ID attribute "id" + UUID, the issue instant, the assertion consumer service URL, the issuer element and the e-mail name-ID policy |
| `Microsoft.ConcatContains` | internal/sso/microsoft/microsoft.go:28-33 | the template's text contains each of its pieces |
| `MicrosoftToAws.AccountId` | cmd/microsoft-to-aws-authenticator/app/core.go:55 | an account is never a text with ':' in it; the only failure is an index panic |
| `MicrosoftToAws.AccountIdOfFields` | cmd/microsoft-to-aws-authenticator/app/core.go:55 | an ARN made of ':'-free fields yields its fifth field, and panics when it has fewer than five |
| `MicrosoftToAws.Aggregate` | cmd/microsoft-to-aws-authenticator/app/core.go:47-63 | the credentials collected role by role, the reference for `AssumeRoles`; stated by `AggregateFails`, `AccountEntry` and `AggregateLastWins` |
| `MicrosoftToAws.AggregateFails` | cmd/microsoft-to-aws-authenticator/app/core.go:47-63 | the loop fails exactly when some role's exchange succeeds but its ARN has no account field, with that role's error |
| `MicrosoftToAws.AccountEntry` | cmd/microsoft-to-aws-authenticator/app/core.go:47-63 | an account is present exactly when some role's exchange succeeded for it, and holds the credentials issued for the last such role |
| `MicrosoftToAws.AggregateLastWins` | cmd/microsoft-to-aws-authenticator/app/core.go:47-63 | the same for every account: exactly the granted accounts, each with the credentials of its last successful role |
| `MicrosoftToAws.FailureSticks` | cmd/microsoft-to-aws-authenticator/app/core.go:55 | once a prefix of the roles fails, the whole run fails with the same error |
| `MicrosoftToAws.AggregateStep` | cmd/microsoft-to-aws-authenticator/app/core.go:47-63 | one more role: a granted account takes that role's credentials, every other account keeps its entry, and the earlier roles succeeded too |
| `MicrosoftToAws.AggregateUsesOneAssertion` | cmd/microsoft-to-aws-authenticator/app/core.go:48-49 | only the exchanges with this response's assertion matter: two STS services that agree on those give the same result |
| `MicrosoftToAws.AssumeRoles` | cmd/microsoft-to-aws-authenticator/app/core.go:47-63 | the loop over the response's roles computes `Aggregate` with `AccountId` |
| `MicrosoftToAws.StartLogin` | cmd/microsoft-to-aws-authenticator/app/core.go:24-31 | an empty tenant ID stops the run with MissingTenantId before any URL is built, and only then; otherwise the URL is the tenant's, with the AWS SAML endpoint as issuer and consumer, and starts with the login host and the tenant ID |

## Left out

- The XML query of `ParseRolesFromSamlResponse` (goquery's `Attribute[Name=…] > AttributeValue` selector and `Text()`) is not modelled. It is the `DocumentReader` parameter: the AttributeValue texts in document order, or None for an unreadable document.
- The DEFLATE algorithm itself is not modelled. `Deflater` gives what the writer emits on `Write` and on `Close`, or its error. With a `bytes.Buffer` destination the real writer never reports a write error; the model still follows both error branches of the code.
- `Utils.Deflater` works on the Go string directly; the UTF-8 encoding of `[]byte(input)` is folded into it.
- `AssumeRoleWithSAML` (session creation, the STS call, the 12-hour duration) is not modelled. It is the `Exchange` parameter, returning the entry the loop copies out of `out.Credentials`; nil credential pointers are not modelled.
- `MicrosoftToAws.Exchange` is a function of the role ARN, the principal ARN and the assertion, so two identical roles get identical outcomes in the model; the real STS service issues fresh credentials on every call. The proofs about the loop (`AccountEntry`, `AggregateLastWins`) only say which role's outcome an account keeps, and do not depend on this.
- File-system I/O in `UpdateAWSCredentialsFile` is not modelled: `os.UserHomeDir`, the path join, `os.ReadFile` (given as `FileRead`, where a missing file reads as empty text) and the final `os.WriteFile` with mode 0600 and its error. `AwsCredentialsFile.UpdateAWSCredentialsFile` returns the text to be written.
- The expiration is kept as its RFC 3339 text; `time.Time` and its formatting are not modelled.
- The browser side of `openChromeOnMicrosoftLogin` is not modelled: the Chrome options, navigation, `ListenTarget`, the context cancel, and the channel send and receive. After a URL error the Go program prints it and then waits forever on the channel; `StartLogin` returns the error instead. `InterceptChromeAuthRequest` returns the response it would send.
- Printing (`fmt.Println`) of skipped exchanges and of the final status is not modelled; a failed exchange is simply skipped.
- The tenant ID comes from the `CLOUDAUTHN_MICROSOFT_TENANT_ID` environment variable; in the model it is a parameter of `StartLogin`.
- `uuid.New()` and `time.Now().UTC().Format(time.RFC3339)` are parameters of `GenerateSAMLLoginURL`.
- Strings are sequences of code points; Go's strings are UTF-8 bytes. For the ASCII texts involved (ARNs, base64, URLs, credential lines) the two agree; `TrimSpace` follows Unicode white space on code points.
- `AwsCredentialsFile.RenderProfiles`: the Go map's iteration order is not determined; the contract says the text is the rendering of some order of the profiles, not which one.
- `AwsCredentialsFile.RenderReadsBack` and `UpdateReadsBack` hold for profile names without a newline or edge bracket and for credential values without a newline or trailing space; other values would not read back unchanged, and the lemmas do not say what they read back as.
- `AwsCredentialsFile.UpdateReadsBack` also requires every incoming profile name to be non-empty: credentials under the name "" would be written under a "[]" header, whose lines the reading loop drops.
- `MicrosoftToAws` step 7, the call of `UpdateAWSCredentialsFile` with the collected credentials, is the composition of `AssumeRoles` and `AwsCredentialsFile.UpdateAWSCredentialsFile`; it is not written out as a member.

