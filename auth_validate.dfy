/**
 * The two request schemas of the validators: each is an object schema whose
 * fields are zod string schemas built from trim, min, max and email steps.
 * The schemas are kept as data, and SafeParse interprets them the way zod
 * does: fields in declared order, steps in chain order, every failing step
 * adding one issue.
 */
module AuthValidate {
  import opened Wrappers
  import opened JsString

  /** A request-body value: a string, or a value of another JavaScript type (its typeof name). */
  datatype Value = Str(s: string) | NonString(typeName: string)

  /** A request body; a key that is absent is `undefined`. */
  type Body = map<string, Value>

  /** One step of a zod string schema; lengths count UTF-16 code units. */
  datatype Step =
    | Trim
    | Min(length: nat, message: string)
    | Max(length: nat, message: string)
    | Email(message: string)

  datatype FieldSchema = FieldSchema(key: string, steps: seq<Step>)

  /** A parse either yields the parsed (trimmed) strings or the issue messages in order. */
  datatype ParseResult = Success(data: map<string, string>) | Failure(messages: seq<string>)

  const UsernameMinMessage := "username must be atleast 3 charcter"
  const UsernameMaxMessage := "username must be smaller than 1000 charcter"
  const EmailMessage := "please enter valid email id"
  const EmailMaxMessage := "email must be smaller than 100 char"
  const PasswordMinMessage := "password must be atleast 6 character long"
  const PasswordMaxMessage := "password must be no more than 100 char"

  /** zod's default message for a field that is missing. */
  const RequiredMessage := "Required"

  /** zod's default message for a field holding a value of another type. */
  function ExpectedStringMessage(typeName: string): string {
    "Expected string, received " + typeName
  }

  const UsernameField := FieldSchema("username", [Trim, Min(3, UsernameMinMessage), Max(1000, UsernameMaxMessage)])
  const EmailField := FieldSchema("email", [Trim, Email(EmailMessage), Max(100, EmailMaxMessage)])
  const PasswordField := FieldSchema("password", [Min(6, PasswordMinMessage), Max(100, PasswordMaxMessage)])

  const LoginUserSchema: seq<FieldSchema> := [EmailField, PasswordField]
  const RegisterUserSchema: seq<FieldSchema> := [UsernameField, EmailField, PasswordField]

  /**
   * Runs the steps on s in order. Trim replaces the value the later steps
   * see; each other step adds its message when it fails and lets the chain go on.
   */
  function RunSteps(steps: seq<Step>, s: string, isEmail: string -> bool): (string, seq<string>)
  {
    if steps == [] then (s, [])
    else
      match steps[0]
      case Trim => RunSteps(steps[1..], JsString.Trim(s), isEmail)
      case Min(n, msg) =>
        var (v, ms) := RunSteps(steps[1..], s, isEmail);
        (v, (if Utf16Length(s) < n then [msg] else []) + ms)
      case Max(n, msg) =>
        var (v, ms) := RunSteps(steps[1..], s, isEmail);
        (v, (if Utf16Length(s) > n then [msg] else []) + ms)
      case Email(msg) =>
        var (v, ms) := RunSteps(steps[1..], s, isEmail);
        (v, (if !isEmail(s) then [msg] else []) + ms)
  }

  /** z.string(): a missing or non-string value is one type issue and the steps do not run. */
  function ParseField(f: FieldSchema, body: Body, isEmail: string -> bool): (Option<string>, seq<string>)
  {
    if f.key !in body then (None, [RequiredMessage])
    else
      match body[f.key]
      case NonString(t) => (None, [ExpectedStringMessage(t)])
      case Str(s) =>
        var (v, ms) := RunSteps(f.steps, s, isEmail);
        (Some(v), ms)
  }

  /** z.object(): every field is parsed, and the issues are concatenated in field order. */
  function ParseFields(schema: seq<FieldSchema>, body: Body, isEmail: string -> bool): (map<string, string>, seq<string>)
  {
    if schema == [] then (map[], [])
    else
      var (v, ms) := ParseField(schema[0], body, isEmail);
      var (data, rest) := ParseFields(schema[1..], body, isEmail);
      (if v.Some? then data[schema[0].key := v.value] else data, ms + rest)
  }

  /** safeParse: success exactly when no step failed; a failure always carries an issue. */
  function SafeParse(schema: seq<FieldSchema>, body: Body, isEmail: string -> bool): (r: ParseResult)
    ensures r.Failure? ==> r.messages != []
  {
    var (data, messages) := ParseFields(schema, body, isEmail);
    if messages == [] then Success(data) else Failure(messages)
  }

  /** The message a form shows for a failed parse: the first issue, or a generic text when there is none. */
  function FirstMessage(messages: seq<string>): string {
    if |messages| > 0 then messages[0] else "Invalid input provided. Please check your fields."
  }

  // ---------------------------------------------------------------------
  // The rules written out per field, as a reference for the schema data.

  function UsernameError(s: string): Option<string> {
    var t := JsString.Trim(s);
    if Utf16Length(t) < 3 then Some(UsernameMinMessage)
    else if Utf16Length(t) > 1000 then Some(UsernameMaxMessage)
    else None
  }

  function EmailError(s: string, isEmail: string -> bool): Option<string> {
    var t := JsString.Trim(s);
    if !isEmail(t) then Some(EmailMessage)
    else if Utf16Length(t) > 100 then Some(EmailMaxMessage)
    else None
  }

  function PasswordError(s: string): Option<string> {
    if Utf16Length(s) < 6 then Some(PasswordMinMessage)
    else if Utf16Length(s) > 100 then Some(PasswordMaxMessage)
    else None
  }

  /** The type problem of one field: missing, or not a string. */
  function TypeError(body: Body, key: string): Option<string> {
    if key !in body then Some(RequiredMessage)
    else
      match body[key]
      case NonString(t) => Some(ExpectedStringMessage(t))
      case Str(_) => None
  }

  function UsernameFieldError(body: Body): Option<string> {
    if TypeError(body, "username").Some? then TypeError(body, "username") else UsernameError(body["username"].s)
  }

  function EmailFieldError(body: Body, isEmail: string -> bool): Option<string> {
    if TypeError(body, "email").Some? then TypeError(body, "email") else EmailError(body["email"].s, isEmail)
  }

  function PasswordFieldError(body: Body): Option<string> {
    if TypeError(body, "password").Some? then TypeError(body, "password") else PasswordError(body["password"].s)
  }

  function OrElse(a: Option<string>, b: Option<string>): Option<string> {
    if a.Some? then a else b
  }

  /** The first problem of a login body: email first, then password. */
  function LoginFirstError(body: Body, isEmail: string -> bool): Option<string> {
    OrElse(EmailFieldError(body, isEmail), PasswordFieldError(body))
  }

  /** The first problem of a registration body: username, email, password. */
  function RegisterFirstError(body: Body, isEmail: string -> bool): Option<string> {
    OrElse(UsernameFieldError(body), LoginFirstError(body, isEmail))
  }

  /** The string a body holds under key. */
  predicate HasString(body: Body, key: string) {
    key in body && body[key].Str?
  }

  /** The login rules as one conjunction. */
  predicate LoginRules(body: Body, isEmail: string -> bool) {
    && HasString(body, "email")
    && isEmail(JsString.Trim(body["email"].s))
    && Utf16Length(JsString.Trim(body["email"].s)) <= 100
    && HasString(body, "password")
    && 6 <= Utf16Length(body["password"].s) <= 100
  }

  /** The registration rules as one conjunction. */
  predicate RegisterRules(body: Body, isEmail: string -> bool) {
    && HasString(body, "username")
    && 3 <= Utf16Length(JsString.Trim(body["username"].s)) <= 1000
    && LoginRules(body, isEmail)
  }

  // ---------------------------------------------------------------------
  // Each field schema against its written-out rule.

  function Flag(failed: bool, message: string): seq<string> {
    if failed then [message] else []
  }

  lemma RunMinMax(n: nat, m1: string, k: nat, m2: string, s: string, isEmail: string -> bool)
    ensures RunSteps([Min(n, m1), Max(k, m2)], s, isEmail)
         == (s, Flag(Utf16Length(s) < n, m1) + Flag(Utf16Length(s) > k, m2))
  {
    var steps := [Min(n, m1), Max(k, m2)];
    assert steps[1..] == [Max(k, m2)];
    assert steps[1..][1..] == [];
    var f2 := Flag(Utf16Length(s) > k, m2);
    assert RunSteps([Max(k, m2)], s, isEmail) == (s, f2 + []);
    assert f2 + [] == f2;
  }

  lemma RunTrimMinMax(n: nat, m1: string, k: nat, m2: string, s: string, isEmail: string -> bool)
    ensures var t := JsString.Trim(s);
      RunSteps([Trim, Min(n, m1), Max(k, m2)], s, isEmail)
      == (t, Flag(Utf16Length(t) < n, m1) + Flag(Utf16Length(t) > k, m2))
  {
    var steps := [Trim, Min(n, m1), Max(k, m2)];
    assert steps[1..] == [Min(n, m1), Max(k, m2)];
    RunMinMax(n, m1, k, m2, JsString.Trim(s), isEmail);
  }

  lemma RunTrimEmailMax(m1: string, k: nat, m2: string, s: string, isEmail: string -> bool)
    ensures var t := JsString.Trim(s);
      RunSteps([Trim, Email(m1), Max(k, m2)], s, isEmail)
      == (t, Flag(!isEmail(t), m1) + Flag(Utf16Length(t) > k, m2))
  {
    var steps := [Trim, Email(m1), Max(k, m2)];
    var t := JsString.Trim(s);
    assert steps[1..] == [Email(m1), Max(k, m2)];
    assert steps[1..][1..] == [Max(k, m2)];
    assert steps[1..][1..][1..] == [];
    var f2 := Flag(Utf16Length(t) > k, m2);
    assert RunSteps([Max(k, m2)], t, isEmail) == (t, f2 + []);
    assert f2 + [] == f2;
  }

  lemma UsernameFieldParse(body: Body, isEmail: string -> bool)
    ensures var (v, ms) := ParseField(UsernameField, body, isEmail);
      && (ms == [] <==> UsernameFieldError(body).None?)
      && (ms != [] ==> ms[0] == UsernameFieldError(body).value)
      && (v.Some? <==> HasString(body, "username"))
      && (v.Some? ==> v.value == JsString.Trim(body["username"].s))
  {
    if HasString(body, "username") {
      var t := JsString.Trim(body["username"].s);
      RunTrimMinMax(3, UsernameMinMessage, 1000, UsernameMaxMessage, body["username"].s, isEmail);
      assert ParseField(UsernameField, body, isEmail)
          == (Some(t), Flag(Utf16Length(t) < 3, UsernameMinMessage) + Flag(Utf16Length(t) > 1000, UsernameMaxMessage));
    } else {
      assert ParseField(UsernameField, body, isEmail) == (None, [TypeError(body, "username").value]);
    }
  }

  lemma EmailFieldParse(body: Body, isEmail: string -> bool)
    ensures var (v, ms) := ParseField(EmailField, body, isEmail);
      && (ms == [] <==> EmailFieldError(body, isEmail).None?)
      && (ms != [] ==> ms[0] == EmailFieldError(body, isEmail).value)
      && (v.Some? <==> HasString(body, "email"))
      && (v.Some? ==> v.value == JsString.Trim(body["email"].s))
  {
    if HasString(body, "email") {
      var t := JsString.Trim(body["email"].s);
      RunTrimEmailMax(EmailMessage, 100, EmailMaxMessage, body["email"].s, isEmail);
      assert ParseField(EmailField, body, isEmail)
          == (Some(t), Flag(!isEmail(t), EmailMessage) + Flag(Utf16Length(t) > 100, EmailMaxMessage));
    } else {
      assert ParseField(EmailField, body, isEmail) == (None, [TypeError(body, "email").value]);
    }
  }

  lemma PasswordFieldParse(body: Body, isEmail: string -> bool)
    ensures var (v, ms) := ParseField(PasswordField, body, isEmail);
      && (ms == [] <==> PasswordFieldError(body).None?)
      && (ms != [] ==> ms[0] == PasswordFieldError(body).value)
      && (v.Some? <==> HasString(body, "password"))
      && (v.Some? ==> v.value == body["password"].s)
  {
    if HasString(body, "password") {
      var p := body["password"].s;
      RunMinMax(6, PasswordMinMessage, 100, PasswordMaxMessage, p, isEmail);
      assert ParseField(PasswordField, body, isEmail)
          == (Some(p), Flag(Utf16Length(p) < 6, PasswordMinMessage) + Flag(Utf16Length(p) > 100, PasswordMaxMessage));
    } else {
      assert ParseField(PasswordField, body, isEmail) == (None, [TypeError(body, "password").value]);
    }
  }

  // ---------------------------------------------------------------------
  // The two schemas.

  /** The parsed fields of a login body, in the order they are parsed. */
  lemma LoginDataOrder(email: string, password: string)
    ensures map["password" := password]["email" := email] == map["email" := email, "password" := password]
  {
  }

  /** The parsed fields of a registration body, in the order they are parsed. */
  lemma RegisterDataOrder(username: string, email: string, password: string)
    ensures map["email" := email, "password" := password]["username" := username]
         == map["username" := username, "email" := email, "password" := password]
  {
  }

  /** A field that parses cleanly in front of fields that parse cleanly adds its value and no issue. */
  lemma ParseFieldsClean(f: FieldSchema, rest: seq<FieldSchema>, body: Body, isEmail: string -> bool,
                         v: string, data: map<string, string>)
    requires ParseField(f, body, isEmail) == (Some(v), [])
    requires ParseFields(rest, body, isEmail) == (data, [])
    ensures ParseFields([f] + rest, body, isEmail) == (data[f.key := v], [])
  {
    var schema := [f] + rest;
    assert schema[0] == f && schema[1..] == rest;
    var empty: seq<string> := [];
    assert ParseFields(schema, body, isEmail) == (data[f.key := v], empty + empty);
    assert empty + empty == empty;
  }

  /** Parsing the login schema is parsing its email field, then its password field. */
  lemma LoginParseFields(body: Body, isEmail: string -> bool)
    ensures var (ve, me) := ParseField(EmailField, body, isEmail);
      var (vp, mp) := ParseField(PasswordField, body, isEmail);
      var data := if vp.Some? then map["password" := vp.value] else map[];
      ParseFields(LoginUserSchema, body, isEmail)
      == (if ve.Some? then data["email" := ve.value] else data, me + mp)
  {
    assert LoginUserSchema[1..] == [PasswordField];
    assert LoginUserSchema[1..][1..] == [];
    var (vp, mp) := ParseField(PasswordField, body, isEmail);
    var empty: map<string, string> := map[];
    assert ParseFields([], body, isEmail) == (empty, []);
    assert ParseFields([PasswordField], body, isEmail)
        == (if vp.Some? then empty["password" := vp.value] else empty, mp + []);
    assert mp + [] == mp;
  }

  lemma RegisterParseFields(body: Body, isEmail: string -> bool)
    ensures var (vu, mu) := ParseField(UsernameField, body, isEmail);
      var (data, ms) := ParseFields(LoginUserSchema, body, isEmail);
      ParseFields(RegisterUserSchema, body, isEmail)
      == (if vu.Some? then data["username" := vu.value] else data, mu + ms)
  {
    assert RegisterUserSchema[1..] == LoginUserSchema;
  }

  /**
   * The login form reports the first failing rule in field order (email,
   * then password) and chain order, and accepts exactly when none fails.
   */
  lemma LoginReportsFirstError(body: Body, isEmail: string -> bool)
    ensures var r := SafeParse(LoginUserSchema, body, isEmail);
      && (r.Success? <==> LoginFirstError(body, isEmail).None?)
      && (r.Failure? ==> FirstMessage(r.messages) == LoginFirstError(body, isEmail).value)
  {
    LoginParseFields(body, isEmail);
    EmailFieldParse(body, isEmail);
    PasswordFieldParse(body, isEmail);
  }

  /** The register form does the same with username first. */
  lemma RegisterReportsFirstError(body: Body, isEmail: string -> bool)
    ensures var r := SafeParse(RegisterUserSchema, body, isEmail);
      && (r.Success? <==> RegisterFirstError(body, isEmail).None?)
      && (r.Failure? ==> FirstMessage(r.messages) == RegisterFirstError(body, isEmail).value)
  {
    RegisterParseFields(body, isEmail);
    LoginParseFields(body, isEmail);
    UsernameFieldParse(body, isEmail);
    EmailFieldParse(body, isEmail);
    PasswordFieldParse(body, isEmail);
  }

  /** The username field schema reports nothing exactly when its rule is met. */
  lemma UsernameRuleHolds(body: Body)
    ensures UsernameFieldError(body).None?
        <==> HasString(body, "username") && 3 <= Utf16Length(JsString.Trim(body["username"].s)) <= 1000
  {
  }

  lemma LoginRulesHold(body: Body, isEmail: string -> bool)
    ensures LoginFirstError(body, isEmail).None? <==> LoginRules(body, isEmail)
  {
  }

  lemma RegisterRulesHold(body: Body, isEmail: string -> bool)
    ensures RegisterFirstError(body, isEmail).None? <==> RegisterRules(body, isEmail)
  {
    UsernameRuleHolds(body);
    LoginRulesHold(body, isEmail);
  }

  /** The login schema accepts exactly the bodies meeting the login rules. */
  lemma LoginAcceptsIff(body: Body, isEmail: string -> bool)
    ensures SafeParse(LoginUserSchema, body, isEmail).Success? <==> LoginRules(body, isEmail)
  {
    LoginReportsFirstError(body, isEmail);
    LoginRulesHold(body, isEmail);
  }

  /** What an accepted login parses to: the email trimmed, the password as sent. */
  lemma LoginParsedData(body: Body, isEmail: string -> bool)
    requires LoginRules(body, isEmail)
    ensures SafeParse(LoginUserSchema, body, isEmail)
      == Success(map["email" := JsString.Trim(body["email"].s), "password" := body["password"].s])
  {
    var te, p := JsString.Trim(body["email"].s), body["password"].s;
    assert ParseField(EmailField, body, isEmail) == (Some(te), []) by {
      LoginRulesHold(body, isEmail);
      EmailFieldParse(body, isEmail);
    }
    assert ParseField(PasswordField, body, isEmail) == (Some(p), []) by {
      LoginRulesHold(body, isEmail);
      PasswordFieldParse(body, isEmail);
    }
    assert ParseFields(LoginUserSchema, body, isEmail) == (map["password" := p]["email" := te], []) by {
      LoginParseFields(body, isEmail);
    }
    LoginDataOrder(te, p);
  }

  /** The register schema accepts exactly the bodies meeting the registration rules. */
  lemma RegisterAcceptsIff(body: Body, isEmail: string -> bool)
    ensures SafeParse(RegisterUserSchema, body, isEmail).Success? <==> RegisterRules(body, isEmail)
  {
    RegisterReportsFirstError(body, isEmail);
    RegisterRulesHold(body, isEmail);
  }

  /** The fields of an accepted registration: username and email trimmed, password as sent, no issue. */
  lemma RegisterFieldsData(body: Body, isEmail: string -> bool)
    requires RegisterRules(body, isEmail)
    ensures ParseFields(RegisterUserSchema, body, isEmail)
      == (map["username" := JsString.Trim(body["username"].s),
              "email" := JsString.Trim(body["email"].s),
              "password" := body["password"].s], [])
  {
    var tu, te, p := JsString.Trim(body["username"].s), JsString.Trim(body["email"].s), body["password"].s;
    var loginData := map["email" := te, "password" := p];
    assert ParseField(UsernameField, body, isEmail) == (Some(tu), []) by {
      RegisterRulesHold(body, isEmail);
      UsernameFieldParse(body, isEmail);
    }
    assert ParseFields(LoginUserSchema, body, isEmail) == (loginData, []) by {
      LoginParsedData(body, isEmail);
    }
    assert RegisterUserSchema == [UsernameField] + LoginUserSchema;
    ParseFieldsClean(UsernameField, LoginUserSchema, body, isEmail, tu, loginData);
    RegisterDataOrder(tu, te, p);
  }

  /** What an accepted registration parses to: username and email trimmed, password as sent. */
  lemma RegisterParsedData(body: Body, isEmail: string -> bool)
    requires RegisterRules(body, isEmail)
    ensures SafeParse(RegisterUserSchema, body, isEmail)
      == Success(map["username" := JsString.Trim(body["username"].s),
                     "email" := JsString.Trim(body["email"].s),
                     "password" := body["password"].s])
  {
    RegisterFieldsData(body, isEmail);
  }

  /** A body the register schema accepts is accepted by the login schema too. */
  lemma RegisterAcceptedIsLoginAccepted(body: Body, isEmail: string -> bool)
    requires SafeParse(RegisterUserSchema, body, isEmail).Success?
    ensures SafeParse(LoginUserSchema, body, isEmail).Success?
  {
    RegisterAcceptsIff(body, isEmail);
    LoginAcceptsIff(body, isEmail);
  }

  /** Keys the login schema does not declare, the username among them, do not affect it. */
  lemma LoginIgnoresUndeclaredKeys(body: Body, key: string, v: Value, isEmail: string -> bool)
    requires key != "email" && key != "password"
    ensures SafeParse(LoginUserSchema, body[key := v], isEmail) == SafeParse(LoginUserSchema, body, isEmail)
    ensures SafeParse(LoginUserSchema, body - {key}, isEmail) == SafeParse(LoginUserSchema, body, isEmail)
  {
    var b1, b2 := body[key := v], body - {key};
    LoginParseFields(body, isEmail);
    LoginParseFields(b1, isEmail);
    LoginParseFields(b2, isEmail);
    assert "email" in b1 <==> "email" in body;
    assert "email" in b2 <==> "email" in body;
    assert "password" in b1 <==> "password" in body;
    assert "password" in b2 <==> "password" in body;
    assert ParseField(EmailField, b1, isEmail) == ParseField(EmailField, body, isEmail);
    assert ParseField(EmailField, b2, isEmail) == ParseField(EmailField, body, isEmail);
    assert ParseField(PasswordField, b1, isEmail) == ParseField(PasswordField, body, isEmail);
    assert ParseField(PasswordField, b2, isEmail) == ParseField(PasswordField, body, isEmail);
  }

  /** Every field of both schemas must be present and a string. */
  lemma MissingOrNonStringRejected(body: Body, key: string, isEmail: string -> bool)
    requires !HasString(body, key)
    ensures key == "email" || key == "password" ==> SafeParse(LoginUserSchema, body, isEmail).Failure?
    ensures key == "username" || key == "email" || key == "password" ==>
      SafeParse(RegisterUserSchema, body, isEmail).Failure?
  {
    LoginAcceptsIff(body, isEmail);
    RegisterAcceptsIff(body, isEmail);
  }

  /**
   * Once the login schema has accepted a body, its raw email and password are
   * non-empty strings, provided the email syntax rejects the empty string.
   */
  lemma LoginAcceptedFieldsNonEmpty(body: Body, isEmail: string -> bool)
    requires !isEmail("")
    requires SafeParse(LoginUserSchema, body, isEmail).Success?
    ensures HasString(body, "email") && body["email"].s != ""
    ensures HasString(body, "password") && body["password"].s != ""
  {
    LoginAcceptsIff(body, isEmail);
  }
}
