/**
 * The OpenID Authentication 2.0 messages the relying party builds: the
 * `checkid_setup` login link (section 9.1, with the Simple Registration 1.1
 * `sreg.required` list) and the `check_authentication` replay used for
 * direct verification of a positive assertion (section 11.4.2).
 */
module OpenId {
  import opened Wrappers
  import Text
  import Uri
  import Config

  const OPENID_NS := "http://specs.openid.net/auth/2.0"
  const IDENTIFIER_SELECT := "http://specs.openid.net/auth/2.0/identifier_select"
  const SREG_NS := "http://openid.net/extensions/sreg/1.1"
  const SREG_REQUIRED := "fullname,email,language,country,postcode"
  const MODE_KEY := "openid.mode"
  const CHECK_AUTHENTICATION := "check_authentication"
  const VALID_MARKER := "is_valid:true"

  /** The eight `openid.*` request fields, in declaration order. */
  function LoginParams(scriptUrl: string): seq<(string, string)> {
    [ ("openid.ns", OPENID_NS),
      ("openid.mode", "checkid_setup"),
      ("openid.return_to", scriptUrl),
      ("openid.realm", scriptUrl),
      ("openid.identity", IDENTIFIER_SELECT),
      ("openid.claimed_id", IDENTIFIER_SELECT),
      ("openid.ns.sreg", SREG_NS),
      ("openid.sreg.required", SREG_REQUIRED) ]
  }

  /** `getLoginUrl(config)`; `scriptUrl` is the deployed script's URL, empty
      when the platform cannot tell it. */
  function LoginUrl(config: Config.SystemConfig, scriptUrl: string): (url: string)
    ensures url == "#" <==> scriptUrl == ""
    ensures scriptUrl != "" ==>
      && |url| > |config.openIdEndpoint|
      && url[..|config.openIdEndpoint| + 1] == config.openIdEndpoint + "?"
  {
    if scriptUrl == "" then "#"
    else config.openIdEndpoint + "?" + Uri.BuildQuery(LoginParams(scriptUrl))
  }

  /** Splits a URL at its first `?` and parses the query behind it. */
  function ParseUrl(url: string): Option<(string, seq<(string, string)>)> {
    var base := Text.BeforeFirst(url, '?');
    if |base| == |url| then None
    else
      match Uri.ParseQuery(url[|base| + 1..])
      case None => None
      case Some(pairs) => Some((base, pairs))
  }

  /** The value of the first field named `key`. */
  function Field(pairs: seq<(string, string)>, key: string): Option<string> {
    if pairs == [] then None
    else if pairs[0].0 == key then Some(pairs[0].1)
    else Field(pairs[1..], key)
  }

  /** Without a script URL the link is the placeholder `#`; otherwise it is
      the provider endpoint, `?`, and a query that splits on `&` and `=` and
      decodes back to exactly the eight declared fields, in order. */
  lemma {:induction false} LoginUrlRoundTrip(config: Config.SystemConfig, scriptUrl: string)
    requires '?' !in config.openIdEndpoint
    ensures scriptUrl == "" <==> LoginUrl(config, scriptUrl) == "#"
    ensures scriptUrl != "" ==>
      ParseUrl(LoginUrl(config, scriptUrl)) == Some((config.openIdEndpoint, LoginParams(scriptUrl)))
  {
    if scriptUrl != "" {
      var ep := config.openIdEndpoint;
      var q := Uri.BuildQuery(LoginParams(scriptUrl));
      var url := LoginUrl(config, scriptUrl);
      assert url == ep + ['?'] + q;
      Text.BeforeFirstSplit(ep, '?', q);
      assert url[|ep| + 1..] == q;
      Uri.QueryRoundTrip(LoginParams(scriptUrl));
      assert |url| > 1;
    }
  }

  /** Read back from the link, `return_to` and `realm` are both the script
      URL, the mode is `checkid_setup`, and the provider chooses the identity. */
  lemma LoginUrlFields(config: Config.SystemConfig, scriptUrl: string)
    requires '?' !in config.openIdEndpoint
    requires scriptUrl != ""
    ensures ParseUrl(LoginUrl(config, scriptUrl)).Some?
    ensures
      var pairs := ParseUrl(LoginUrl(config, scriptUrl)).value.1;
      && Field(pairs, "openid.mode") == Some("checkid_setup")
      && Field(pairs, "openid.return_to") == Some(scriptUrl)
      && Field(pairs, "openid.realm") == Some(scriptUrl)
      && Field(pairs, "openid.claimed_id") == Some(IDENTIFIER_SELECT)
      && Field(pairs, "openid.sreg.required") == Some(SREG_REQUIRED)
  {
    LoginUrlRoundTrip(config, scriptUrl);
    LoginParamsFields(scriptUrl);
  }

  lemma LoginParamsFields(scriptUrl: string)
    ensures
      var pairs := LoginParams(scriptUrl);
      && Field(pairs, "openid.mode") == Some("checkid_setup")
      && Field(pairs, "openid.return_to") == Some(scriptUrl)
      && Field(pairs, "openid.realm") == Some(scriptUrl)
      && Field(pairs, "openid.claimed_id") == Some(IDENTIFIER_SELECT)
      && Field(pairs, "openid.sreg.required") == Some(SREG_REQUIRED)
  {
    var pairs := LoginParams(scriptUrl);
    FieldAt(pairs, "openid.mode", 1);
    FieldAt(pairs, "openid.return_to", 2);
    FieldAt(pairs, "openid.realm", 3);
    FieldAt(pairs, "openid.claimed_id", 5);
    FieldAt(pairs, "openid.sreg.required", 7);
  }

  /** `Field` finds the first pair with the key. */
  lemma {:induction false} FieldAt(pairs: seq<(string, string)>, key: string, i: nat)
    requires i < |pairs| && pairs[i].0 == key
    requires forall j :: 0 <= j < i ==> |pairs[j].0| != |key|
    ensures Field(pairs, key) == Some(pairs[i].1)
  {
    if i > 0 {
      assert pairs[0].0 != key;
      FieldAt(pairs[1..], key, i - 1);
    }
  }

  /** The provider endpoint carries no query of its own. */
  lemma EndpointHasNoQuery()
    ensures '?' !in Config.OPENID_ENDPOINT
  {
  }

  /** A reserved character of the script URL is escaped inside
      `openid.return_to` as `%` and two upper-case hexadecimal digits. */
  lemma ReturnToExample()
    ensures Uri.EncodeChar(':') == "%3A"
  {
    assert !Uri.IsUnescaped(':');
    assert Uri.Utf8(':') == [58];
    assert Uri.PercentBytes([58]) == Uri.PercentByte(58) + Uri.PercentBytes([]);
    assert Uri.HexDigit(3) == '3' && Uri.HexDigit(10) == 'A';
  }

  /** `verifyParams`: every callback field copied, the mode overridden. */
  function VerifyParams(params: map<string, string>): map<string, string> {
    params[MODE_KEY := CHECK_AUTHENTICATION]
  }

  /** The replay differs from the callback in the mode field alone. */
  lemma VerifyParamsFidelity(params: map<string, string>)
    ensures VerifyParams(params).Keys == params.Keys + {MODE_KEY}
    ensures VerifyParams(params)[MODE_KEY] == CHECK_AUTHENTICATION
    ensures forall k :: k in params && k != MODE_KEY ==> VerifyParams(params)[k] == params[k]
  {
  }

  /** `content.indexOf("is_valid:true") !== -1`. */
  predicate IsValidResponse(content: string) {
    Text.Contains(content, VALID_MARKER)
  }

  /** The assertion is accepted exactly when the response body contains the
      marker somewhere. */
  lemma IsValidResponseSpec(content: string)
    ensures IsValidResponse(content) <==> exists k :: Text.OccursAt(content, VALID_MARKER, k)
    ensures forall a, b :: IsValidResponse(a + VALID_MARKER + b)
  {
    Text.IndexOfSpec(content, VALID_MARKER);
    forall a, b
      ensures IsValidResponse(a + VALID_MARKER + b)
    {
      Text.ContainsInfix(a, VALID_MARKER, b);
    }
  }

  /** An empty body and a negative answer are both failures. */
  lemma NegativeResponses()
    ensures !IsValidResponse("")
    ensures !IsValidResponse("is_valid:false\n")
  {
    Text.IndexOfSpec("", VALID_MARKER);
    Text.IndexOfSpec("is_valid:false\n", VALID_MARKER);
    var s := "is_valid:false\n";
    assert s[12] != VALID_MARKER[12];
    assert !Text.OccursAt(s, VALID_MARKER, 0);
    assert !Text.OccursAt(s, VALID_MARKER, 1);
    assert !Text.OccursAt(s, VALID_MARKER, 2);
  }
}
