/** The Mail-in-a-Box DNS authenticator of the ACME client: credential
    validation, the TXT-record URL of a DNS-01 challenge, and the status rule
    of the record's creation. The HTTP calls are modelled as the requests the
    authenticator makes and the response it is given. */
module Miab {
  import opened Wrappers
  import opened PyStr

  /** The authenticator's `NAME`, the key it is registered under. */
  const NAME := "mail in a box"

  /** A credentials dictionary: `None` stands for an explicit `None` value. */
  type Attributes = map<string, Option<string>>

  /** `d.get(key)`: the value, or `None` when the key is absent. */
  function Get(d: Attributes, key: string): Option<string>
  {
    if key in d then d[key] else None
  }

  /** Python truthiness of a `str` or `None`: neither `None` nor `''`. */
  predicate Specified(v: Option<string>)
  {
    v.Some? && |v.value| != 0
  }

  // ---------------------------------------------------------------------
  // validate_credentials

  /** One entry of `ValidationErrors`. */
  datatype ValidationError = ValidationError(attribute: string, errmsg: string)

  /** The message recorded for every missing credential. */
  const SHOULD_BE_SPECIFIED := "Should be specified."

  /** The credentials checked, in the order they are checked. */
  const CREDENTIAL_FIELDS: seq<string> := ["server_url", "username", "password"]

  /** The errors recorded for `fields` in turn: one per field that is absent,
      `None` or empty. */
  function MissingErrors(data: Attributes, fields: seq<string>): (errs: seq<ValidationError>)
    ensures |errs| <= |fields|
  {
    if fields == [] then []
    else
      (if Specified(Get(data, fields[0])) then [] else [ValidationError(fields[0], SHOULD_BE_SPECIFIED)]) +
      MissingErrors(data, fields[1..])
  }

  /** An error names a field exactly when that field is missing, and every
      error carries the same message and names one of the fields. */
  lemma {:induction false} MissingErrorsExact(data: Attributes, fields: seq<string>)
    ensures forall f :: f in fields ==>
      (ValidationError(f, SHOULD_BE_SPECIFIED) in MissingErrors(data, fields) <==> !Specified(Get(data, f)))
    ensures forall e :: e in MissingErrors(data, fields) ==> e.errmsg == SHOULD_BE_SPECIFIED && e.attribute in fields
  {
    if fields != [] {
      MissingErrorsExact(data, fields[1..]);
      assert fields == [fields[0]] + fields[1..];
    }
  }

  /** The position of `f` in `fields`. */
  function IndexOf(fields: seq<string>, f: string): (i: nat)
    requires f in fields
    ensures i < |fields| && fields[i] == f
    ensures forall j :: 0 <= j < i ==> fields[j] != f
  {
    if fields[0] == f then 0 else 1 + IndexOf(fields[1..], f)
  }

  /** No field is listed twice. */
  predicate Distinct(fields: seq<string>)
  {
    forall i, j :: 0 <= i < j < |fields| ==> fields[i] != fields[j]
  }

  /** The errors come in the order the fields are checked. */
  lemma {:induction false} MissingErrorsInOrder(data: Attributes, fields: seq<string>)
    requires Distinct(fields)
    ensures forall e :: e in MissingErrors(data, fields) ==> e.attribute in fields
    ensures forall i, j :: 0 <= i < j < |MissingErrors(data, fields)| ==>
      IndexOf(fields, MissingErrors(data, fields)[i].attribute) < IndexOf(fields, MissingErrors(data, fields)[j].attribute)
  {
    MissingErrorsExact(data, fields);
    if fields != [] {
      var tail := fields[1..];
      var rest := MissingErrors(data, tail);
      assert Distinct(tail) by {
        forall i, j | 0 <= i < j < |tail| ensures tail[i] != tail[j] {
          assert tail[i] == fields[i + 1] && tail[j] == fields[j + 1];
        }
      }
      MissingErrorsInOrder(data, tail);
      forall e | e in rest ensures IndexOf(fields, e.attribute) == 1 + IndexOf(tail, e.attribute) {
        IndexOfTail(fields, e.attribute);
      }
      if !Specified(Get(data, fields[0])) {
        var errs := MissingErrors(data, fields);
        assert errs == [ValidationError(fields[0], SHOULD_BE_SPECIFIED)] + rest;
        forall j | 1 <= j < |errs| ensures errs[j] == rest[j - 1] && rest[j - 1] in rest {
        }
      }
    }
  }

  /** No field is reported twice. */
  lemma MissingErrorsOncePerField(data: Attributes, fields: seq<string>)
    requires Distinct(fields)
    ensures forall i, j :: 0 <= i < j < |MissingErrors(data, fields)| ==>
      MissingErrors(data, fields)[i].attribute != MissingErrors(data, fields)[j].attribute
  {
    MissingErrorsInOrder(data, fields);
  }

  /** Past the first position, a field's index is one more than in the tail. */
  lemma IndexOfTail(fields: seq<string>, f: string)
    requires Distinct(fields) && fields != [] && f in fields[1..]
    ensures f in fields && IndexOf(fields, f) == 1 + IndexOf(fields[1..], f)
  {
    var k := IndexOf(fields[1..], f);
    assert fields[1 + k] == f;
  }

  /** The errors for the three credentials, one field at a time. */
  lemma CredentialErrors(data: Attributes)
    ensures MissingErrors(data, CREDENTIAL_FIELDS) ==
      (if Specified(Get(data, "server_url")) then [] else [ValidationError("server_url", SHOULD_BE_SPECIFIED)]) +
      (if Specified(Get(data, "username")) then [] else [ValidationError("username", SHOULD_BE_SPECIFIED)]) +
      (if Specified(Get(data, "password")) then [] else [ValidationError("password", SHOULD_BE_SPECIFIED)])
  {
    var f0, f1, f2 := CREDENTIAL_FIELDS, ["username", "password"], ["password"];
    assert f0[1..] == f1 && f1[1..] == f2 && f2[1..] == [];
    assert MissingErrors(data, f2) ==
      (if Specified(Get(data, "password")) then [] else [ValidationError("password", SHOULD_BE_SPECIFIED)]);
  }

  /** `validate_credentials`: record an error for each missing credential, in
      order, then raise the collected errors if there are any. */
  method ValidateCredentials(data: Attributes) returns (r: Result<Unit, seq<ValidationError>>)
    ensures r.Success? <==>
      Specified(Get(data, "server_url")) && Specified(Get(data, "username")) && Specified(Get(data, "password"))
    ensures r.Failure? ==> r.error == MissingErrors(data, CREDENTIAL_FIELDS) && r.error != []
  {
    var verrors: seq<ValidationError> := [];
    if !Specified(Get(data, "server_url")) {
      verrors := verrors + [ValidationError("server_url", SHOULD_BE_SPECIFIED)];
    }
    if !Specified(Get(data, "username")) {
      verrors := verrors + [ValidationError("username", SHOULD_BE_SPECIFIED)];
    }
    if !Specified(Get(data, "password")) {
      verrors := verrors + [ValidationError("password", SHOULD_BE_SPECIFIED)];
    }
    CredentialErrors(data);
    if verrors != [] {
      return Failure(verrors);
    }
    return Success(Unit);
  }

  // ---------------------------------------------------------------------
  // The challenge record's URL

  /** The path between the server URL and the domain. */
  const CHALLENGE_PATH := "/admin/dns/custom/_acme-challenge."

  /** The path after the domain. */
  const TXT_SUFFIX := "/txt"

  /** The URL of the `_acme-challenge` TXT record of `domain`. */
  function ChallengeUrl(serverUrl: string, domain: string): string
  {
    serverUrl + CHALLENGE_PATH + domain + TXT_SUFFIX
  }

  /** The domain a challenge URL of `serverUrl` is for, if `url` is one. */
  function DomainOf(serverUrl: string, url: string): Option<string>
  {
    var head := serverUrl + CHALLENGE_PATH;
    if |url| >= |head| + |TXT_SUFFIX| && url[..|head|] == head && url[|url| - |TXT_SUFFIX|..] == TXT_SUFFIX
    then Some(url[|head|..|url| - |TXT_SUFFIX|])
    else None
  }

  /** The domain can be read back from its challenge URL. */
  lemma ChallengeUrlRoundTrip(serverUrl: string, domain: string)
    ensures DomainOf(serverUrl, ChallengeUrl(serverUrl, domain)) == Some(domain)
  {
    var head := serverUrl + CHALLENGE_PATH;
    var url := ChallengeUrl(serverUrl, domain);
    assert url == head + domain + TXT_SUFFIX;
    assert url[..|head|] == head;
    assert url[|url| - |TXT_SUFFIX|..] == TXT_SUFFIX;
    assert url[|head|..|url| - |TXT_SUFFIX|] == domain;
  }

  /** Different domains of one server have different challenge URLs. */
  lemma ChallengeUrlInjective(serverUrl: string, d1: string, d2: string)
    requires ChallengeUrl(serverUrl, d1) == ChallengeUrl(serverUrl, d2)
    ensures d1 == d2
  {
    ChallengeUrlRoundTrip(serverUrl, d1);
    ChallengeUrlRoundTrip(serverUrl, d2);
  }

  // ---------------------------------------------------------------------
  // The status rule

  /** The server's answer to a request. */
  datatype Response = Response(status: int, text: string)

  /** The exceptions the authenticator raises. */
  datatype MiabError =
    | TypeError            // `None + str` while building the URL
    | ValueError(message: string)
    | NameError(name: string)

  /** The message of the `ValueError` for a rejected record: URL, status and
      body separated by `|`. */
  function StatusMessage(url: string, r: Response): string
  {
    url + "|" + IntToString(r.status) + "|" + r.text
  }

  /** The check after creating the record: anything but 200 raises. */
  function CheckStatus(url: string, r: Response): (res: Result<Unit, MiabError>)
    ensures res.Success? <==> r.status == 200
    ensures res.Failure? ==> res.error == ValueError(StatusMessage(url, r))
  {
    if r.status != 200 then Failure(ValueError(StatusMessage(url, r))) else Success(Unit)
  }

  /** The text before the first `|`, or all of it. */
  function BeforeBar(s: string): string
  {
    if s == [] || s[0] == '|' then [] else [s[0]] + BeforeBar(s[1..])
  }

  /** The text after the first `|`, or nothing. */
  function AfterBar(s: string): string
  {
    if s == [] then [] else if s[0] == '|' then s[1..] else AfterBar(s[1..])
  }

  /** Splitting at the first `|` of `a + "|" + b`, when `a` has none. */
  lemma {:induction false} BarSplit(a: string, b: string)
    requires '|' !in a
    ensures BeforeBar(a + "|" + b) == a && AfterBar(a + "|" + b) == b
  {
    if a != [] {
      BarSplit(a[1..], b);
      assert (a + "|" + b)[1..] == a[1..] + "|" + b;
    }
  }

  /** `str(i)` has no `|`. */
  lemma IntToStringHasNoBar(i: int)
    ensures '|' !in IntToString(i)
  {
    var n := if i < 0 then -i else i;
    var digits := NatToString(n);
    assert forall k :: 0 <= k < |digits| ==> digits[k] != '|';
  }

  /** For a URL without `|`, the URL and the status can be read back from the
      `ValueError` message. */
  lemma StatusMessageRoundTrip(url: string, r: Response)
    requires '|' !in url
    ensures BeforeBar(StatusMessage(url, r)) == url
    ensures ParseInt(BeforeBar(AfterBar(StatusMessage(url, r)))) == r.status
  {
    var s := IntToString(r.status);
    assert StatusMessage(url, r) == url + "|" + (s + "|" + r.text);
    BarSplit(url, s + "|" + r.text);
    IntToStringHasNoBar(r.status);
    BarSplit(s, r.text);
    IntToStringRoundTrip(r.status);
  }

  // ---------------------------------------------------------------------
  // MiabAuthenticator

  /** The HTTP requests the authenticator makes, with their basic-auth
      credentials. */
  datatype HttpRequest =
    | Post(url: string, data: string, user: Option<string>, pass: Option<string>)
    | Delete(url: string, user: Option<string>, pass: Option<string>)

  /** What one hook does: the request it makes, if it gets that far, and
      whether it returns or raises. */
  datatype Outcome = Outcome(request: Option<HttpRequest>, result: Result<Unit, MiabError>)

  /** `MiabAuthenticator`: its `attributes` and the credential fields
      `initialize_credentials` sets. */
  class MiabAuthenticator {
    const attributes: Attributes
    var serverUrl: Option<string>
    var username: Option<string>
    var password: Option<string>

    /** An authenticator for `attributes`, before its credentials are read. */
    constructor (attributes: Attributes)
      ensures this.attributes == attributes
      ensures serverUrl == None && username == None && password == None
    {
      this.attributes := attributes;
      serverUrl, username, password := None, None, None;
    }

    /** `initialize_credentials`: copy the three attributes, `None` when absent. */
    method InitializeCredentials()
      modifies this
      ensures serverUrl == Get(attributes, "server_url")
      ensures username == Get(attributes, "username")
      ensures password == Get(attributes, "password")
    {
      serverUrl := Get(attributes, "server_url");
      username := Get(attributes, "username");
      password := Get(attributes, "password");
    }

    /** `_perform`: post the validation content to the challenge URL; a
        response other than 200 raises `ValueError`. With no server URL the
        URL cannot be built and nothing is posted. */
    function Perform(domain: string, validationName: string, validationContent: string, response: Response): (o: Outcome)
      reads this
      ensures serverUrl == None ==> o == Outcome(None, Failure(TypeError))
      ensures serverUrl != None ==>
        o.request == Some(Post(ChallengeUrl(serverUrl.value, domain), validationContent, username, password))
      ensures serverUrl != None ==> (o.result.Success? <==> response.status == 200)
      ensures serverUrl != None && o.result.Failure? ==>
        o.result.error == ValueError(StatusMessage(ChallengeUrl(serverUrl.value, domain), response))
    {
      match serverUrl
      case None => Outcome(None, Failure(TypeError))
      case Some(server) =>
        var url := ChallengeUrl(server, domain);
        Outcome(Some(Post(url, validationContent, username, password)), CheckStatus(url, response))
    }

    /** `_cleanup` as written: it builds the URL, then refers to a name
        `session` that is defined nowhere, so it always raises and never
        deletes the record. */
    function CleanupAsWritten(domain: string, validationName: string, validationContent: string): (o: Outcome)
      reads this
      ensures o.request == None && o.result.Failure?
      ensures o.result.error == if serverUrl == None then TypeError else NameError("session")
    {
      match serverUrl
      case None => Outcome(None, Failure(TypeError))
      case Some(server) =>
        var url := ChallengeUrl(server, domain);
        Outcome(None, Failure(NameError("session")))
    }

    /** `_cleanup` as intended: delete the record at the URL `_perform`
        posted to, with the same credentials. */
    function Cleanup(domain: string, validationName: string, validationContent: string): (o: Outcome)
      reads this
      ensures serverUrl == None ==> o == Outcome(None, Failure(TypeError))
      ensures serverUrl != None ==>
        o == Outcome(Some(Delete(ChallengeUrl(serverUrl.value, domain), username, password)), Success(Unit))
    {
      match serverUrl
      case None => Outcome(None, Failure(TypeError))
      case Some(server) =>
        Outcome(Some(Delete(ChallengeUrl(server, domain), username, password)), Success(Unit))
    }
  }

  /** The written `_cleanup` never deletes anything, for any credentials and
      domain, while `_perform` with the same fields does post a record. */
  lemma CleanupAsWrittenNeverDeletes(a: MiabAuthenticator, domain: string, name: string, content: string, response: Response)
    requires a.serverUrl != None
    ensures a.CleanupAsWritten(domain, name, content).request == None
    ensures a.Perform(domain, name, content, response).request.Some?
    ensures a.Cleanup(domain, name, content).request.Some?
  {
  }

  /** The intended cleanup deletes exactly the record `_perform` created. */
  lemma CleanupUndoesPerform(a: MiabAuthenticator, domain: string, name: string, content: string, response: Response)
    requires a.serverUrl != None
    ensures a.Cleanup(domain, name, content).request.value.url == a.Perform(domain, name, content, response).request.value.url
    ensures DomainOf(a.serverUrl.value, a.Cleanup(domain, name, content).request.value.url) == Some(domain)
  {
    ChallengeUrlRoundTrip(a.serverUrl.value, domain);
  }
}
