/**
 * The web entry point: which page a request gets, and what the OpenID
 * callback decides before a session is created. Sessions are the partial map
 * from token to the stored user record that the script cache holds; the
 * verification response body and the fresh session token are inputs.
 */
module App {
  import opened Wrappers
  import opened Grid
  import Text
  import Config
  import Records
  import OpenId

  /** The user record built from the Simple Registration fields. */
  datatype UserData = UserData(
    name: Option<string>,
    email: string,
    studentInfo: Option<string>,
    school: Option<string>,
    id: Option<string>)

  type Params = map<string, string>
  type Sessions = map<string, UserData>

  /** What the request is answered with, without its markup. */
  datatype Page =
    | Profile(user: UserData, results: Option<Records.Results>, token: string)
    | VerificationFailed
    | AccessRestricted(message: string, school: string)
    | Landing(loginUrl: string)

  /** The three paths of `doGet`. */
  datatype Route =
    | SessionRoute(token: string, user: UserData)
    | CallbackRoute
    | LandingRoute

  /** A request field, absent when the request does not carry it. */
  function Param(params: Params, key: string): Option<string> {
    if key in params then Some(params[key]) else None
  }

  /** JavaScript truthiness of an optional string. */
  predicate Truthy(v: Option<string>) {
    v.Some? && v.value != ""
  }

  /** The routing decision of `doGet`. */
  function RouteOf(params: Params, sessions: Sessions): Route {
    var token := Param(params, "token");
    if Truthy(token) && token.value in sessions then SessionRoute(token.value, sessions[token.value])
    else if Param(params, OpenId.MODE_KEY) == Some("id_res") then CallbackRoute
    else LandingRoute
  }

  /** A truthy token that resolves takes the profile path whatever else the
      request carries; otherwise exactly `openid.mode == "id_res"` selects the
      callback; every other request, an unresolved token included, lands. */
  lemma RouteSpec(params: Params, sessions: Sessions)
    ensures RouteOf(params, sessions).SessionRoute? <==>
      ("token" in params && params["token"] != "" && params["token"] in sessions)
    ensures RouteOf(params, sessions).SessionRoute? ==>
      RouteOf(params, sessions) == SessionRoute(params["token"], sessions[params["token"]])
    ensures RouteOf(params, sessions).CallbackRoute? <==>
      (!RouteOf(params, sessions).SessionRoute? && OpenId.MODE_KEY in params && params[OpenId.MODE_KEY] == "id_res")
    ensures RouteOf(params, sessions).LandingRoute? <==>
      (!RouteOf(params, sessions).SessionRoute? && !RouteOf(params, sessions).CallbackRoute?)
  {
  }

  /** The full e-mail of the callback, trimmed; empty when absent. */
  function CallbackEmail(params: Params): string {
    Text.Trim(Param(params, "openid.sreg.email").GetOr(""))
  }

  /** `handleCallback`'s lookup key. */
  function CallbackKey(params: Params): string {
    var fullEmail := CallbackEmail(params);
    if fullEmail == "" then "" else Text.Trim(Text.BeforeFirst(fullEmail, '@'))
  }

  /** `doGet`'s lookup key for a stored session. */
  function SessionKey(email: string): string {
    Text.Trim(Text.BeforeFirst(email, '@'))
  }

  /** The lookup key is the trimmed text before the first `@` of the trimmed
      e-mail: it holds no `@`, and the e-mail continues with `@` after it
      unless it has none; the key is empty when the e-mail is. */
  lemma CallbackKeySpec(params: Params)
    ensures CallbackEmail(params) == "" ==> CallbackKey(params) == ""
    ensures '@' !in CallbackKey(params)
    ensures
      var e := CallbackEmail(params);
      var local := Text.Split(e, '@')[0];
      CallbackKey(params) == Text.Trim(local) &&
      (local == e || (|local| < |e| && e[..|local| + 1] == local + ['@']))
  {
    var e := CallbackEmail(params);
    Text.SplitHead(e, '@');
    Text.TrimIsSlice(Text.BeforeFirst(e, '@'));
  }

  /** The key derived on a later request from the stored record is the key
      the callback used. */
  lemma SessionKeyAgrees(params: Params)
    ensures SessionKey(CallbackEmail(params)) == CallbackKey(params)
  {
    if CallbackEmail(params) == "" {
      assert Text.BeforeFirst("", '@') == "";
      assert Text.Trim("") == "";
    }
  }

  /** The user record of a callback. */
  function CallbackUser(params: Params): UserData {
    UserData(
      Param(params, "openid.sreg.fullname"),
      CallbackEmail(params),
      Param(params, "openid.sreg.language"),
      Param(params, "openid.sreg.country"),
      Param(params, "openid.sreg.postcode"))
  }

  /** The access check of `handleCallback`. */
  predicate Restricted(config: Config.SystemConfig, school: Option<string>) {
    && config.restriction.enabled
    && Truthy(school)
    && !Text.Contains(school.value, config.restriction.keyword)
  }

  /** A request is rejected exactly when the restriction is on, the school is
      non-empty, and the keyword occurs nowhere in it. An empty keyword and
      an empty or missing school never reject. */
  lemma RestrictedSpec(config: Config.SystemConfig, school: Option<string>)
    ensures Restricted(config, school) <==>
      (&& config.restriction.enabled
       && school.Some? && school.value != ""
       && forall k :: !Text.OccursAt(school.value, config.restriction.keyword, k))
    ensures config.restriction.keyword == "" ==> !Restricted(config, school)
    ensures !Truthy(school) ==> !Restricted(config, school)
  {
    if school.Some? {
      Text.IndexOfSpec(school.value, config.restriction.keyword);
      Text.IndexOfEmpty(school.value);
    }
  }

  /** The check is a substring test, not a prefix or whole-name test: with
      keyword `北市`, a school in 新北市 passes as well as one in 台北市, and
      only a school whose name lacks the keyword is turned away. */
  lemma SubstringNotPrefix(config: Config.SystemConfig)
    requires config.restriction == Config.Restriction(true, "北市", Config.RESTRICTION_MESSAGE)
    ensures !Restricted(config, Some("台北市立X國小"))
    ensures !Restricted(config, Some("新北市立Y國小"))
  {
    Text.IndexOfSpec("台北市立X國小", "北市");
    assert Text.OccursAt("台北市立X國小", "北市", 1);
    Text.IndexOfSpec("新北市立Y國小", "北市");
    assert Text.OccursAt("新北市立Y國小", "北市", 1);
  }

  lemma KeywordMissingRejects(config: Config.SystemConfig)
    requires config.restriction == Config.Restriction(true, "北市", Config.RESTRICTION_MESSAGE)
    ensures Restricted(config, Some("新竹市立國小"))
  {
    Text.FirstCharMissing("新竹市立國小", "北市");
  }

  /** What a callback produces: the page and, when one is created, the new
      session's token and record. */
  datatype Outcome = Outcome(page: Page, session: Option<(string, UserData)>)

  /** `handleCallback`. `verifyBody` is the provider's answer to the POST of
      `OpenId.VerifyParams(params)`; `newToken` is the fresh session token. */
  function HandleCallback(params: Params, config: Config.SystemConfig, verifyBody: string,
                          newToken: string, sheets: seq<Sheet>): Outcome {
    if !OpenId.IsValidResponse(verifyBody) then Outcome(VerificationFailed, None)
    else
      var user := CallbackUser(params);
      if Restricted(config, user.school) then
        Outcome(AccessRestricted(config.restriction.errorMessage, user.school.value), None)
      else
        var results := Records.Lookup(CallbackKey(params), sheets, config.excludedSheets);
        Outcome(Profile(user, results, newToken), Some((newToken, user)))
  }

  /** Verification is decided first, then access, and a session exists only
      when both pass; the profile then shows the records of the callback's key
      under the new token. */
  lemma CallbackOrder(params: Params, config: Config.SystemConfig, verifyBody: string,
                      newToken: string, sheets: seq<Sheet>)
    ensures
      var out := HandleCallback(params, config, verifyBody, newToken, sheets);
      && (!OpenId.IsValidResponse(verifyBody) ==> out == Outcome(VerificationFailed, None))
      && (out.session.Some? <==>
            OpenId.IsValidResponse(verifyBody) && !Restricted(config, CallbackUser(params).school))
      && (OpenId.IsValidResponse(verifyBody) && Restricted(config, CallbackUser(params).school) ==>
            out.page == AccessRestricted(config.restriction.errorMessage, params["openid.sreg.country"]))
      && (out.session.Some? ==>
            && out.session.value == (newToken, CallbackUser(params))
            && out.page == Profile(CallbackUser(params),
                                   Records.Lookup(CallbackKey(params), sheets, config.excludedSheets),
                                   newToken))
  {
  }

  /** `doGet`. `sessions` is the cache as it stands; `scriptUrl`, `verifyBody`
      and `newToken` are what the platform supplies on the paths that use them. */
  function DoGet(params: Params, config: Config.SystemConfig, sessions: Sessions, scriptUrl: string,
                 verifyBody: string, newToken: string, sheets: seq<Sheet>): Outcome {
    match RouteOf(params, sessions)
    case SessionRoute(token, user) =>
      Outcome(Profile(user, Records.Lookup(SessionKey(user.email), sheets, config.excludedSheets), token), None)
    case CallbackRoute =>
      HandleCallback(params, config, verifyBody, newToken, sheets)
    case LandingRoute =>
      Outcome(Landing(OpenId.LoginUrl(config, scriptUrl)), None)
  }

  /** Only the callback path creates a session, and a resolved token never
      reaches verification: its page does not depend on the response body. */
  lemma SessionsOnlyFromCallback(params: Params, config: Config.SystemConfig, sessions: Sessions,
                                 scriptUrl: string, verifyBody: string, newToken: string,
                                 sheets: seq<Sheet>, otherBody: string)
    ensures DoGet(params, config, sessions, scriptUrl, verifyBody, newToken, sheets).session.Some? ==>
      RouteOf(params, sessions).CallbackRoute? && OpenId.IsValidResponse(verifyBody)
    ensures RouteOf(params, sessions).SessionRoute? ==>
      DoGet(params, config, sessions, scriptUrl, verifyBody, newToken, sheets)
        == DoGet(params, config, sessions, scriptUrl, otherBody, newToken, sheets)
    ensures RouteOf(params, sessions).LandingRoute? ==>
      DoGet(params, config, sessions, scriptUrl, verifyBody, newToken, sheets)
        == Outcome(Landing(OpenId.LoginUrl(config, scriptUrl)), None)
  {
  }

  /** After a successful login, a refresh that carries only the new token
      shows the same user and the same records under the same token. */
  lemma RefreshAfterLogin(params: Params, config: Config.SystemConfig, sessions: Sessions,
                          scriptUrl: string, verifyBody: string, newToken: string,
                          sheets: seq<Sheet>, laterBody: string, laterToken: string)
    requires newToken != ""
    requires DoGet(params, config, sessions, scriptUrl, verifyBody, newToken, sheets).session.Some?
    ensures
      var first := DoGet(params, config, sessions, scriptUrl, verifyBody, newToken, sheets);
      var stored := sessions[newToken := first.session.value.1];
      DoGet(map["token" := newToken], config, stored, scriptUrl, laterBody, laterToken, sheets)
        == Outcome(first.page, None)
  {
    var first := DoGet(params, config, sessions, scriptUrl, verifyBody, newToken, sheets);
    SessionsOnlyFromCallback(params, config, sessions, scriptUrl, verifyBody, newToken, sheets, verifyBody);
    SessionKeyAgrees(params);
    assert first.session.value == (newToken, CallbackUser(params));
  }
}
