// The orchestration of cmd/microsoft-to-aws-authenticator/app/core.go: the
// tenant guard in front of the login URL, and the loop that exchanges the SAML
// assertion for credentials role by role and keys them by AWS account.
module MicrosoftToAws {
  import opened Wrappers
  import opened Errors
  import opened Text
  import opened AwsTypes
  import AwsSaml
  import Microsoft
  import Utils

  /**
   * STS AssumeRoleWithSAML, whose service is not part of this model: given a
   * role ARN, a principal ARN and the base64 SAML assertion, the credentials
   * it issues or the error it reports.
   */
  type Exchange = (string, string, seq<byte>) -> Result<AwsCredentialsEntry, string>

  /** The AWS account of a role ARN: its fifth ':'-separated field, or an index panic when there is none. */
  function AccountId(roleArn: string): (r: Result<string, Error>)
    ensures r.Failure? ==> r.error == IndexOutOfRange
    ensures r.Success? ==> ':' !in r.value
  {
    var fields := Split(roleArn, ":");
    if |fields| < 5 then Failure(IndexOutOfRange)
    else
      ContainsSingle(fields[4], ':');
      Success(fields[4])
  }

  /** An ARN made of `fields` yields its fifth field as the account, and panics when it has fewer than five. */
  lemma AccountIdOfFields(fields: seq<string>)
    requires |fields| >= 1
    requires forall i :: 0 <= i < |fields| ==> ':' !in fields[i]
    ensures |fields| >= 5 ==> AccountId(Join(fields, ":")) == Success(fields[4])
    ensures |fields| < 5 ==> AccountId(Join(fields, ":")) == Failure(IndexOutOfRange)
  {
    forall i | 0 <= i < |fields| ensures !Contains(fields[i], ":") {
      ContainsSingle(fields[i], ':');
    }
    SplitJoin(fields, ":");
  }

  /** The exchange for `role` succeeded and its ARN names `account`. */
  predicate Grants(role: AwsRole, assertion: seq<byte>, exchange: Exchange, accountOf: string -> Result<string, Error>, account: string)
  {
    exchange(role.roleArn, role.principalArn, assertion).Success? && accountOf(role.roleArn) == Success(account)
  }

  /** The exchange for `role` succeeded but its ARN has no account field. */
  predicate Malformed(role: AwsRole, assertion: seq<byte>, exchange: Exchange, accountOf: string -> Result<string, Error>)
  {
    exchange(role.roleArn, role.principalArn, assertion).Success? && accountOf(role.roleArn).Failure?
  }

  /**
   * The credentials collected from `roles` in order: a failed exchange is
   * skipped, a successful one is stored under its account (a later role of the
   * same account replaces an earlier one), and a successful exchange for an ARN
   * with no account field stops everything with an index panic. It is the
   * reference for the method AssumeRoles.
   */
  function Aggregate(roles: seq<AwsRole>, assertion: seq<byte>, exchange: Exchange, accountOf: string -> Result<string, Error>): Result<map<string, AwsCredentialsEntry>, Error>
    decreases |roles|
  {
    if |roles| == 0 then Success(map[])
    else
      var role := roles[|roles| - 1];
      match Aggregate(roles[..|roles| - 1], assertion, exchange, accountOf)
      case Failure(e) => Failure(e)
      case Success(m) =>
        match exchange(role.roleArn, role.principalArn, assertion)
        case Failure(_) => Success(m)
        case Success(out) =>
          match accountOf(role.roleArn)
          case Failure(e) => Failure(e)
          case Success(account) => Success(m[account := out])
  }

  /** The aggregation fails exactly when some role is granted but has a malformed ARN, and then with an index panic. */
  lemma {:induction false} AggregateFails(roles: seq<AwsRole>, assertion: seq<byte>, exchange: Exchange, accountOf: string -> Result<string, Error>)
    ensures Aggregate(roles, assertion, exchange, accountOf).Failure? <==>
      exists i :: 0 <= i < |roles| && Malformed(roles[i], assertion, exchange, accountOf)
    ensures Aggregate(roles, assertion, exchange, accountOf).Failure? ==>
      exists i :: 0 <= i < |roles| && Malformed(roles[i], assertion, exchange, accountOf) &&
        Aggregate(roles, assertion, exchange, accountOf).error == accountOf(roles[i].roleArn).error
    decreases |roles|
  {
    if |roles| > 0 {
      var n := |roles| - 1;
      var prefix := roles[..n];
      AggregateFails(prefix, assertion, exchange, accountOf);
      assert forall i :: 0 <= i < n ==> prefix[i] == roles[i];
      if Aggregate(prefix, assertion, exchange, accountOf).Failure? {
        var i :| 0 <= i < n && Malformed(prefix[i], assertion, exchange, accountOf) &&
          Aggregate(prefix, assertion, exchange, accountOf).error == accountOf(prefix[i].roleArn).error;
        assert Malformed(roles[i], assertion, exchange, accountOf);
      } else if Malformed(roles[n], assertion, exchange, accountOf) {
        assert Aggregate(roles, assertion, exchange, accountOf).error == accountOf(roles[n].roleArn).error;
      }
    }
  }

  /** The last role of a successful aggregation either sets `account` or leaves it as the prefix had it. */
  lemma AggregateStep(roles: seq<AwsRole>, assertion: seq<byte>, exchange: Exchange, accountOf: string -> Result<string, Error>, account: string)
    requires |roles| > 0 && Aggregate(roles, assertion, exchange, accountOf).Success?
    ensures Aggregate(roles[..|roles| - 1], assertion, exchange, accountOf).Success?
    ensures var role := roles[|roles| - 1];
      var m := Aggregate(roles, assertion, exchange, accountOf).value;
      var mp := Aggregate(roles[..|roles| - 1], assertion, exchange, accountOf).value;
      if Grants(role, assertion, exchange, accountOf, account)
      then account in m && m[account] == exchange(role.roleArn, role.principalArn, assertion).value
      else (account in m <==> account in mp) && (account in mp ==> m[account] == mp[account])
  {
  }

  /**
   * One account of a successful aggregation: it is present exactly when some
   * role was granted for it, and holds the credentials issued for the last such role.
   */
  lemma {:induction false} AccountEntry(roles: seq<AwsRole>, assertion: seq<byte>, exchange: Exchange, accountOf: string -> Result<string, Error>, account: string)
    requires Aggregate(roles, assertion, exchange, accountOf).Success?
    ensures var m := Aggregate(roles, assertion, exchange, accountOf).value;
      account in m <==> exists i :: 0 <= i < |roles| && Grants(roles[i], assertion, exchange, accountOf, account)
    ensures var m := Aggregate(roles, assertion, exchange, accountOf).value;
      account in m ==>
        exists i :: 0 <= i < |roles| && Grants(roles[i], assertion, exchange, accountOf, account) &&
          m[account] == exchange(roles[i].roleArn, roles[i].principalArn, assertion).value &&
          forall j :: i < j < |roles| ==> !Grants(roles[j], assertion, exchange, accountOf, account)
    decreases |roles|
  {
    if |roles| > 0 {
      var n := |roles| - 1;
      var prefix := roles[..n];
      var role := roles[n];
      AccountEntry(prefix, assertion, exchange, accountOf, account);
      AggregateStep(roles, assertion, exchange, accountOf, account);
      var mp := Aggregate(prefix, assertion, exchange, accountOf).value;
      var m := Aggregate(roles, assertion, exchange, accountOf).value;
      if Grants(role, assertion, exchange, accountOf, account) {
        assert Grants(roles[n], assertion, exchange, accountOf, account) &&
          m[account] == exchange(roles[n].roleArn, roles[n].principalArn, assertion).value;
      } else {
        if account in mp {
          var i :| 0 <= i < n && Grants(prefix[i], assertion, exchange, accountOf, account) &&
            mp[account] == exchange(prefix[i].roleArn, prefix[i].principalArn, assertion).value &&
            forall j :: i < j < n ==> !Grants(prefix[j], assertion, exchange, accountOf, account);
          assert prefix[i] == roles[i];
          assert forall j :: i < j < n ==> prefix[j] == roles[j];
          assert Grants(roles[i], assertion, exchange, accountOf, account) &&
            m[account] == exchange(roles[i].roleArn, roles[i].principalArn, assertion).value &&
            forall j :: i < j < |roles| ==> !Grants(roles[j], assertion, exchange, accountOf, account);
        } else {
          forall i | 0 <= i < |roles| ensures !Grants(roles[i], assertion, exchange, accountOf, account) {
            if i < n {
              assert prefix[i] == roles[i];
            }
          }
        }
      }
    }
  }

  /**
   * A successful aggregation holds exactly the accounts some role was granted
   * for, and each holds the credentials issued for the last such role.
   */
  lemma AggregateLastWins(roles: seq<AwsRole>, assertion: seq<byte>, exchange: Exchange, accountOf: string -> Result<string, Error>)
    requires Aggregate(roles, assertion, exchange, accountOf).Success?
    ensures var m := Aggregate(roles, assertion, exchange, accountOf).value;
      forall account :: account in m <==> exists i :: 0 <= i < |roles| && Grants(roles[i], assertion, exchange, accountOf, account)
    ensures var m := Aggregate(roles, assertion, exchange, accountOf).value;
      forall account :: account in m ==>
        exists i :: 0 <= i < |roles| && Grants(roles[i], assertion, exchange, accountOf, account) &&
          m[account] == exchange(roles[i].roleArn, roles[i].principalArn, assertion).value &&
          forall j :: i < j < |roles| ==> !Grants(roles[j], assertion, exchange, accountOf, account)
  {
    forall account {
      AccountEntry(roles, assertion, exchange, accountOf, account);
    }
  }

  /** Once the aggregation of a prefix fails, the aggregation of the whole fails the same way. */
  lemma {:induction false} FailureSticks(roles: seq<AwsRole>, k: nat, assertion: seq<byte>, exchange: Exchange, accountOf: string -> Result<string, Error>)
    requires k <= |roles| && Aggregate(roles[..k], assertion, exchange, accountOf).Failure?
    ensures Aggregate(roles, assertion, exchange, accountOf) == Aggregate(roles[..k], assertion, exchange, accountOf)
    decreases |roles|
  {
    if k < |roles| {
      var n := |roles| - 1;
      assert roles[..n][..k] == roles[..k];
      FailureSticks(roles[..n], k, assertion, exchange, accountOf);
    } else {
      assert roles[..k] == roles;
    }
  }

  /**
   * Every exchange is made with the same assertion: two STS services that
   * answer alike for this response's assertion give the same result, whatever
   * they would answer for any other assertion.
   */
  lemma {:induction false} AggregateUsesOneAssertion(roles: seq<AwsRole>, assertion: seq<byte>, first: Exchange, second: Exchange, accountOf: string -> Result<string, Error>)
    requires forall i :: 0 <= i < |roles| ==>
      first(roles[i].roleArn, roles[i].principalArn, assertion) == second(roles[i].roleArn, roles[i].principalArn, assertion)
    ensures Aggregate(roles, assertion, first, accountOf) == Aggregate(roles, assertion, second, accountOf)
    decreases |roles|
  {
    if |roles| > 0 {
      var n := |roles| - 1;
      assert forall i :: 0 <= i < n ==> roles[..n][i] == roles[i];
      AggregateUsesOneAssertion(roles[..n], assertion, first, second, accountOf);
    }
  }

  /**
   * The loop of step 6: exchange the assertion for each role of the response, in document order,
   * and record the issued credentials under the role's account.
   */
  method AssumeRoles(response: AwsResponse, exchange: Exchange) returns (r: Result<map<string, AwsCredentialsEntry>, Error>)
    ensures r == Aggregate(response.roles, response.samlResponse, exchange, AccountId)
  {
    var roles := response.roles;
    var awsCredentials: map<string, AwsCredentialsEntry> := map[];
    for i := 0 to |roles|
      invariant Aggregate(roles[..i], response.samlResponse, exchange, AccountId) == Success(awsCredentials)
    {
      var role := roles[i];
      assert roles[..i + 1][..i] == roles[..i];
      var out := exchange(role.roleArn, role.principalArn, response.samlResponse);
      if out.Success? {
        var accountId := AccountId(role.roleArn);
        if accountId.Failure? {
          FailureSticks(roles, i + 1, response.samlResponse, exchange, AccountId);
          return Failure(accountId.error);
        }
        awsCredentials := awsCredentials[accountId.value := out.value];
      }
    }
    assert roles[..|roles|] == roles;
    r := Success(awsCredentials);
  }

  /**
   * Steps 1.1 and 2: without a tenant ID the run stops before any URL is
   * built; otherwise the login URL is the tenant's, with the AWS SAML
   * endpoint as both the application ID URI and the assertion consumer service.
   */
  method StartLogin(tenantId: string, id: string, now: string, d: Utils.Deflater) returns (r: Result<string, Error>)
    ensures tenantId == "" <==> r == Failure(MissingTenantId)
    ensures tenantId != "" ==>
      r == Microsoft.GenerateSAMLLoginURL(AwsSaml.SamlEndpoint, tenantId, AwsSaml.SamlEndpoint, id, now, d)
    ensures r.Success? ==> HasPrefix(r.value, Microsoft.LoginHost + tenantId + Microsoft.LoginPath)
  {
    if tenantId == "" {
      return Failure(MissingTenantId);
    }
    r := Microsoft.GenerateSAMLLoginURL(AwsSaml.SamlEndpoint, tenantId, AwsSaml.SamlEndpoint, id, now, d);
    if r.Success? {
      Microsoft.LoginUrlRoundTrip(AwsSaml.SamlEndpoint, tenantId, AwsSaml.SamlEndpoint, id, now, d);
    }
  }
}
