/**
 * `Settings`: the run's configuration, read from the environment once at start-up.
 * The environment is a map from variable name to value; a name that is absent is unset.
 */
module Config {
  import opened Wrappers
  import opened Text

  type Env = map<string, string>

  /** The seven variables that must be set and non-empty, in the order the error message lists them. */
  const RequiredVars: seq<string> := [
    "TEMPLATE_PATH", "GOOGLE_SHEET_ID", "SEND_MAIL_HOST", "SEND_MAIL_SERVICE",
    "SEND_MAIL_USER", "SEND_MAIL_PASS", "SEND_MAIL_SUBJECT"
  ]

  const PlaceholderVar: string := "REPLACE_ARRAY_NAMES"

  datatype Settings = Settings(
    templatePath: string,
    sheetId: string,
    sendMailHost: string,
    sendMailService: string,
    sendMailUser: string,
    sendMailPass: string,
    sendMailSubject: string,
    replaceArrayNames: seq<string>)

  /** `os.getenv(name, default)`. */
  function GetEnv(env: Env, name: string, default: string): string {
    if name in env then env[name] else default
  }

  /** A value Python treats as false in `if not value`: `None` (unset) or the empty string. */
  predicate Unset(env: Env, name: string) {
    name !in env || env[name] == ""
  }

  /** The comprehension `[var for var, value in required_vars.items() if not value]` over `names`. */
  function MissingVars(env: Env, names: seq<string>): (r: seq<string>)
    ensures |r| <= |names|
    ensures forall v :: v in r <==> v in names && Unset(env, v)
    ensures (forall i, j :: 0 <= i < j < |names| ==> names[i] != names[j]) ==>
              forall i, j :: 0 <= i < j < |r| ==> r[i] != r[j]
  {
    if names == [] then []
    else if Unset(env, names[0]) then [names[0]] + MissingVars(env, names[1..])
    else MissingVars(env, names[1..])
  }

  /** The filter keeps list order: filtering two lists one after the other is filtering them together. */
  lemma {:induction false} MissingVarsAppend(env: Env, a: seq<string>, b: seq<string>)
    ensures MissingVars(env, a + b) == MissingVars(env, a) + MissingVars(env, b)
    decreases |a|
  {
    if a == [] {
      assert a + b == b;
    } else {
      assert (a + b)[1..] == a[1..] + b;
      MissingVarsAppend(env, a[1..], b);
    }
  }

  /**
   * `Settings()`: fails with the listing of the missing variables when any
   * required one is unset or empty; otherwise every setting is the variable's
   * value, and the placeholder list is `REPLACE_ARRAY_NAMES` split at commas
   * (an unset variable counts as the empty string).
   */
  function LoadSettings(env: Env): (r: Result<Settings, string>)
    ensures r.Failure? <==> exists v :: v in RequiredVars && Unset(env, v)
    ensures r.Failure? ==>
      r.error == "Missing required environment variables: " + Join(MissingVars(env, RequiredVars), ", ")
    ensures r.Success? ==>
      && "TEMPLATE_PATH" in env && r.value.templatePath == env["TEMPLATE_PATH"] != ""
      && "GOOGLE_SHEET_ID" in env && r.value.sheetId == env["GOOGLE_SHEET_ID"] != ""
      && "SEND_MAIL_HOST" in env && r.value.sendMailHost == env["SEND_MAIL_HOST"] != ""
      && "SEND_MAIL_SERVICE" in env && r.value.sendMailService == env["SEND_MAIL_SERVICE"] != ""
      && "SEND_MAIL_USER" in env && r.value.sendMailUser == env["SEND_MAIL_USER"] != ""
      && "SEND_MAIL_PASS" in env && r.value.sendMailPass == env["SEND_MAIL_PASS"] != ""
      && "SEND_MAIL_SUBJECT" in env && r.value.sendMailSubject == env["SEND_MAIL_SUBJECT"] != ""
    ensures r.Success? ==>
      && |r.value.replaceArrayNames| >= 1
      && Join(r.value.replaceArrayNames, ",") == GetEnv(env, PlaceholderVar, "")
      && forall k :: 0 <= k < |r.value.replaceArrayNames| ==> ',' !in r.value.replaceArrayNames[k]
  {
    var missing := MissingVars(env, RequiredVars);
    if missing != [] then
      assert missing[0] in missing;
      Failure("Missing required environment variables: " + Join(missing, ", "))
    else
      var names := Split(GetEnv(env, PlaceholderVar, ""), ',');
      JoinSplit(GetEnv(env, PlaceholderVar, ""), ',');
      assert !Unset(env, RequiredVars[0]) && !Unset(env, RequiredVars[1]) && !Unset(env, RequiredVars[2]);
      assert !Unset(env, RequiredVars[3]) && !Unset(env, RequiredVars[4]);
      assert !Unset(env, RequiredVars[5]) && !Unset(env, RequiredVars[6]);
      Success(Settings(
        env["TEMPLATE_PATH"], env["GOOGLE_SHEET_ID"], env["SEND_MAIL_HOST"],
        env["SEND_MAIL_SERVICE"], env["SEND_MAIL_USER"], env["SEND_MAIL_PASS"],
        env["SEND_MAIL_SUBJECT"], names))
  }

  /**
   * With `REPLACE_ARRAY_NAMES` unset, `''.split(',')` gives one empty field name,
   * so the placeholder list is `[""]` (the token `{{}}`), not the empty list.
   */
  lemma UnsetPlaceholderListIsOneEmptyName(env: Env)
    requires PlaceholderVar !in env
    requires LoadSettings(env).Success?
    ensures LoadSettings(env).value.replaceArrayNames == [""]
  {
  }
}
