# Todo app: authentication routes, request validation and the auth guard

This project models the server side of a small Express todo application:

- the POST handlers of the auth router: register, login, forgot-password,
  reset-password, add-todo, edit-todo and delete-todo, plus the GET handler
  of the reset-password page, which decodes the email from its path;
- the two zod request schemas the register and login handlers validate with;
- the `requireAuth` middleware that guards pages behind a session token.

The model works over the two MySQL tables the handlers read and write:

- `users`, keyed by its UNIQUE `email`;
- `todos`, whose ids come from an AUTO_INCREMENT counter.

Login and forgot-password only read the tables, so they are functions of a
`Tables` value. Register, reset-password and the three todo handlers change
the tables, so they are methods of the class `AuthRoutes.Store`. Each of
those methods states its whole new state.

The zod schemas are kept as data: a list of fields, each with its chain of
`trim`, `min`, `max` and `email` steps. `AuthValidate.SafeParse` interprets
them the way zod does:

- fields are parsed in declared order, and the steps of a field in chain order;
- every failing step adds one issue, and parsing goes on after it;
- `trim` replaces the value the later steps see;
- lengths count UTF-16 code units, like JavaScript's `length`;
- a missing field gets zod's default message "Required";
- a field holding another type gets "Expected string, received <type>".

Next to the interpreter, every field rule is written out as a plain function
(`UsernameError`, `EmailError`, `PasswordError`). Lemmas prove that the schema
data and these functions agree:

- which bodies each schema accepts;
- which message the form shows: the first failing rule, in field order and then chain order;
- what an accepted body parses to.

Several things the handlers call are not part of this model, so they become
parameters:

- bcrypt becomes a `Bcrypt.Hasher` of two functions (`hash`, `compare`).
  `Bcrypt.Sound` states the one fact the routes rely on: a password matches its own hash.
- zod's email syntax check becomes the parameter `isEmail`.
- `jwt.verify` becomes the parameter `verifies`.

`encodeURIComponent` and `decodeURIComponent` are written out in module `Uri`,
with UTF-8 and the rejection of malformed escapes, for strings of Unicode
scalar values (see "## Left out" for lone surrogates).

Behaviour of the code that the model follows:

- Register and login look up the raw request email, not the trimmed one the schema checked.
- Register stores the raw username and email.
- Reset-password, add-todo, edit-todo and delete-todo validate nothing.
- Edit and delete act on any id, whoever owns the row. They report success even when no row matches.
- Reset-password reports success for an email no user has.
- Login sets no session and issues no token.
- The `!email || !password` check in login can never fire once the schema has
  accepted the body, as long as the email check rejects "". `LoginRequiredCheckDead` proves this.
- The reset page decodes the email twice, because Express already decodes
  `req.params`. The page therefore shows the registered email exactly when it
  contains no '%'. `ForgotPasswordRoundTrip` states the exact result.

Modules map to source files as follows:

| module | source file |
|---|---|
| `AuthValidate` | `validators/auth_validate.js` |
| `AuthMiddleware` | `middleware/requireAuth.js` |
| `AuthRoutes` | `routes/auth.js`, with the table layout of `db/db.js` |
| `JsString`, `Uri` | the JavaScript built-ins the source relies on |
| `Scenario` | request sequences, proved from the contracts alone |

## Model

| member | source | states |
|---|---|---|
| JsString.TrimStartSpec | validators/auth_validate.js:6 | trimStart keeps a suffix of the input; everything it drops is whitespace; the result does not start with whitespace |
| JsString.TrimEndSpec | validators/auth_validate.js:6 | trimEnd keeps a prefix of the input; everything it drops is whitespace; the result does not end with whitespace |
| JsString.TrimIsSlice | validators/auth_validate.js:18 | trim keeps one contiguous slice whose ends are not whitespace, and drops only whitespace on both sides |
| JsString.Trim | validators/auth_validate.js:6 | String.prototype.trim as trimEnd after trimStart; TrimStartSpec, TrimEndSpec and TrimIsSlice state what it keeps and drops |
| JsString.Utf16Length | validators/auth_validate.js:11-12 | the UTF-16 length lies between the number of code points and twice that |
| Uri.PercentOctets | routes/auth.js:55 | escaping n octets gives 3n characters, each a '%' or an unreserved character |
| Uri.EncodeURIComponent | routes/auth.js:55 | every character of the encoding is unreserved or a '%', so it holds no '/' and stays one path segment |
| Uri.HexRoundTrip | routes/auth.js:65 | reading back an uppercase hex digit gives its value |
| Uri.OctetsAtPercentOctets | routes/auth.js:65 | decoding a run of escaped octets gives back those octets, and leaves the rest of the string after them |
| Uri.Utf8RoundTrip | routes/auth.js:65 | the UTF-8 encoding of any code point has the length its lead byte announces, and decodes back to that code point |
| Uri.DecodeEncodedChar | routes/auth.js:65 | decoding an encoded character followed by anything gives that character, followed by the decoding of the rest |
| Uri.DecodeEncode | routes/auth.js:55-65 | decodeURIComponent(encodeURIComponent(s)) is s for every string s |
| Uri.DecodeURIComponent | routes/auth.js:65 | decodeURIComponent, None where JavaScript throws URIError; DecodeEncode, DecodeUnescaped, DecodeShrinks and DecodeIsIdentityIff state what it gives |
| Uri.DecodeUnescaped | routes/auth.js:65 | decoding a string that holds no '%' gives the string itself |
| Uri.OctetsAtLength | routes/auth.js:65 | n escaped octets read from a string took 3n of its characters |
| Uri.DecodeShrinks | routes/auth.js:65 | decoding never lengthens a string, and strictly shortens every string that holds a '%' |
| Uri.DecodeIsIdentityIff | routes/auth.js:65 | a string decodes to itself exactly when it holds no '%' |
| AuthValidate.RunSteps | validators/auth_validate.js:4-12 | a zod string chain run in order, trim replacing the value later steps see; RunMinMax, RunTrimMinMax and RunTrimEmailMax state its result for the three chains |
| AuthValidate.ParseField | validators/auth_validate.js:4-12 | z.string() on one key: "Required" or "Expected string, received ..." for a missing or non-string value, else the chain; UsernameFieldParse, EmailFieldParse and PasswordFieldParse state its result per field |
| AuthValidate.ParseFields | validators/auth_validate.js:3-30 | z.object(): every field parsed, issues concatenated in field order; LoginParseFields, RegisterParseFields and ParseFieldsClean state its result |
| AuthValidate.SafeParse | validators/auth_validate.js:3-30 | a failed parse always carries at least one issue |
| AuthValidate.FirstMessage | routes/auth.js:104-106 | the message a rejected form shows: the first issue; the generic fallback is dead because SafeParse never fails without an issue |
| AuthValidate.RunMinMax | validators/auth_validate.js:9-12 | the password chain keeps the value; it reports the min message when the value is too short, then the max message when it is too long |
| AuthValidate.RunTrimMinMax | validators/auth_validate.js:16-20 | the username chain yields the trimmed value; min and max are judged on the trimmed value |
| AuthValidate.RunTrimEmailMax | validators/auth_validate.js:21-25 | the email chain yields the trimmed value; the email and max checks are judged on the trimmed value, in that order |
| AuthValidate.UsernameFieldParse | validators/auth_validate.js:16-20 | the username field reports no issue exactly when its rule holds; any first issue is the rule's message; it yields the trimmed string exactly when a string is present |
| AuthValidate.EmailFieldParse | validators/auth_validate.js:4-8 | the same for the email field: no issue iff the rule holds, the first issue is the rule's message, the value is the trimmed string |
| AuthValidate.PasswordFieldParse | validators/auth_validate.js:9-12 | the same for the password field, whose value is not trimmed |
| AuthValidate.LoginParseFields | validators/auth_validate.js:3-13 | the login object parses email, then password, and concatenates their issues in that order |
| AuthValidate.RegisterParseFields | validators/auth_validate.js:15-30 | the register object parses username first, then the login fields |
| AuthValidate.ParseFieldsClean | validators/auth_validate.js:15 | an object schema whose first field and remaining fields all parse without issue yields all their values and no issue |
| AuthValidate.LoginReportsFirstError | validators/auth_validate.js:3-13 | the login schema accepts exactly when no rule fails; otherwise the first message is the first failing rule, in field order and then chain order |
| AuthValidate.RegisterReportsFirstError | validators/auth_validate.js:15-30 | the same for the register schema, with username first |
| AuthValidate.UsernameRuleHolds | validators/auth_validate.js:16-20 | the username reports no error exactly when it is a string whose trimmed UTF-16 length is between 3 and 1000 |
| AuthValidate.LoginRulesHold | validators/auth_validate.js:3-13 | the written-out login rules leave no error exactly when their conjunction holds |
| AuthValidate.RegisterRulesHold | validators/auth_validate.js:15-30 | the written-out register rules leave no error exactly when their conjunction holds |
| AuthValidate.LoginAcceptsIff | validators/auth_validate.js:3-13 | the login schema accepts a body iff email is a string whose trim passes the email check and has at most 100 units, and password is a string of 6 to 100 units |
| AuthValidate.LoginParsedData | validators/auth_validate.js:3-13 | an accepted login body parses to exactly the trimmed email and the untrimmed password |
| AuthValidate.RegisterAcceptsIff | validators/auth_validate.js:15-30 | the register schema accepts a body iff the username rule and the login rules all hold |
| AuthValidate.RegisterFieldsData | validators/auth_validate.js:15-30 | the fields of a body meeting the registration rules parse to the trimmed username, trimmed email and untrimmed password, with no issue |
| AuthValidate.RegisterParsedData | validators/auth_validate.js:15-30 | an accepted register body parses to exactly the trimmed username, trimmed email and untrimmed password |
| AuthValidate.RegisterAcceptedIsLoginAccepted | validators/auth_validate.js:15-30 | every body the register schema accepts is accepted by the login schema |
| AuthValidate.LoginIgnoresUndeclaredKeys | validators/auth_validate.js:3-13 | adding, changing or removing any key other than email and password leaves the login parse unchanged |
| AuthValidate.MissingOrNonStringRejected | validators/auth_validate.js:3-30 | a missing or non-string value in any declared field makes that schema fail |
| AuthValidate.LoginAcceptedFieldsNonEmpty | routes/auth.js:176-183 | once the login schema accepts, the raw email and password are non-empty strings, given that the email check rejects "" |
| AuthMiddleware.RequireAuth | middleware/requireAuth.js:3-18 | next() is called iff the session has a user with a non-empty token that jwt.verify accepts; every other case redirects to /login |
| Bcrypt.Sound | routes/auth.js:202 | the one fact assumed of bcrypt: compare accepts a password against any hash of that password |
| AuthRoutes.Store.constructor | db/db.js:32-50 | both tables start empty and the todo id counter starts at 1 |
| AuthRoutes.RegisterOn | routes/auth.js:97-160 | register on the tables given the schema's verdict; RegisterCases states its cases |
| AuthRoutes.RegisterCases | routes/auth.js:97-160 | a rejected body shows the first issue, and a registered email shows "Email already registered!"; neither changes the tables; otherwise exactly one user is added under the raw email, holding the raw username and the hash of the password, every other user is unchanged, and the success page shows that email's todos; todos and the id counter never change, and valid tables stay valid |
| AuthRoutes.Store.Register | routes/auth.js:97-160 | the new tables and the reply are those RegisterOn gives for the schema's verdict on the body, and the tables stay valid |
| AuthRoutes.Store.ResetPassword | routes/auth.js:70-94 | an undefined field sends "Error updating password." and changes nothing; otherwise only the password hash of the user with that email changes (no user, no change), and the login page shows the reset notice |
| AuthRoutes.Store.AddTodo | routes/auth.js:230-252 | an undefined field gives a 500 "Error adding todo." and changes nothing; otherwise one row is inserted under a fresh id above all existing ids, and the reply carries that id and the text |
| AuthRoutes.Store.EditTodo | routes/auth.js:255-273 | only the text of the row with that id changes, whoever owns it; the set of ids and all other rows stay the same; success is reported even for a missing id |
| AuthRoutes.Store.DeleteTodo | routes/auth.js:276-291 | exactly the row with that id is removed, whoever owns it; success is reported even for a missing id |
| AuthRoutes.RowsFor | routes/auth.js:144 | the todo query `SELECT * FROM todos WHERE email = ?` over the ids handed out; RowsForMembers and RowsForAscending state its rows and their order |
| AuthRoutes.RowsForMembers | routes/auth.js:144 | the todo query returns exactly the rows of that email among the ids handed out so far |
| AuthRoutes.RowsForAscending | routes/auth.js:212 | those rows come in strictly ascending id order, so none appears twice |
| AuthRoutes.UserTodosExact | routes/auth.js:209-219 | in valid tables, the todos shown for an email are all of its rows, in id order |
| AuthRoutes.Login | routes/auth.js:163-227 | login only ever shows the login form with an error and no notice, or the success page of the user stored under the raw email; LoginSucceedsIff states when it succeeds |
| AuthRoutes.LoginShowsFirstIssue | routes/auth.js:164-174 | a body the login schema rejects shows the login page with the first failing rule's message |
| AuthRoutes.LoginRequiredCheckDead | routes/auth.js:176-206 | after the schema accepts, login is decided by the email lookup and then the bcrypt comparison alone |
| AuthRoutes.LoginSucceedsIff | routes/auth.js:163-227 | login reaches the success page iff the body meets the login rules, its raw email is registered, and bcrypt accepts its password for the stored hash |
| AuthRoutes.LoginShowsOwnTodos | routes/auth.js:199-222 | a successful login shows the user stored under the raw email, with exactly that user's todos in id order |
| AuthRoutes.ShortPasswordNeverLogsIn | routes/auth.js:164-174 | a password shorter than 6 UTF-16 units never logs in, whatever hash is stored |
| AuthRoutes.ForgotPassword | routes/auth.js:38-61 | forgot-password on the tables; ForgotPasswordReplies states its three replies |
| AuthRoutes.ForgotPasswordReplies | routes/auth.js:38-61 | an undefined email shows "Something went wrong"; an unregistered one shows "This email is not registered. Please register first."; a registered one redirects to the reset prefix followed by the encoded email, whose suffix decodes once back to the email |
| AuthRoutes.ResetPageEmail | routes/auth.js:64-67 | the email the reset page shows: the path segment decoded by Express and again by the handler; ResetPageOfEncoded and ForgotPasswordRoundTrip state it for a reset link |
| AuthRoutes.ResetPageOfEncoded | routes/auth.js:64-67 | reached through an encoded email, the reset page shows that email decoded once |
| AuthRoutes.ForgotPasswordRoundTrip | routes/auth.js:38-67 | forgot-password redirects iff the email is registered; the link is the reset prefix plus one path segment; the reset page shows decodeURIComponent of the email, which is the email itself exactly when it holds no '%' |
| AuthRoutes.RegisteredUserCanLogin | routes/auth.js:97-227 | when registration accepts a new email, it shows that user's success page, and a later login with the same email and password shows the same page |
| AuthRoutes.ResetPasswordThenLogin | routes/auth.js:70-227 | after a reset of a registered user's password, a login with the new password (if it meets the login rules) reaches that user's success page |
| Scenario.RegisterThenLogin | routes/auth.js:97-227 | on a fresh store, a valid registration and then a login with the same credentials both show the new user's empty todo page |
| Scenario.TodoLifecycle | routes/auth.js:230-291 | add, edit and delete on a fresh store yield id 1, then a todo list with the edited text, then an empty list |

## Left out

- Database-connection failure (`dbInstance` null) and query failures are not modelled. The "Database connection error" replies are absent, and so are the 500 replies of register and login: no code path in the model reaches them.
- A value that mysql2 or bcrypt cannot take makes a handler throw. The model covers only the case where the field is undefined (`None`). Non-string values sent to the unvalidated handlers are not modelled.
- The numeric coercion of `id` by MySQL is not modelled: ids are integers, or undefined.
- Column limits are not modelled: INT width and VARCHAR lengths. A JSON `null` text, which edit-todo would write as NULL, is a non-string value and is left out with those.
- MySQL collation is not modelled: email lookups use exact string equality, where MySQL's default collation ignores case.
- The `users.id` column is not modelled: users are keyed by email.
- Row order is fixed: `SELECT ... WHERE email = ?` has no ORDER BY, and the model returns rows in ascending id order.
- Bcrypt internals: salt generation, the cost factor and bcrypt's 72-byte truncation are not modelled. hash and compare are parameters, and `Bcrypt.Sound` is the only fact assumed about them.
- zod's email regular expression and `jwt.verify` are parameters (`isEmail`, `verifies`); their internals are not modelled.
- The zod default messages for type errors are those of zod version 3. The zod version is not part of this model.
- The asynchronous interleaving of concurrent requests is not modelled: each handler runs atomically.
- Rendering is not modelled: a handler's reply is an `Outcome` value. Not modelled at all: the GET page handlers that only render a template, `/all-users`, `server.js`, `utils/sendEmail.js` and `utils/jwt.js`.
- The session is not modelled beyond what `requireAuth` reads. Logging in does not change the session in the source either, and neither does `requireAuth`, since it only reads the session.
- `routes/auth.js` has no email verification-code flow, no profile editing, no logout and no validation outside register and login; the model has none either.
- Strings are sequences of Unicode scalar values, so lone surrogates (a JSON body can carry `"\ud800"`) are not modelled: on such an email `encodeURIComponent` throws and forgot-password would answer "Something went wrong", and `length` would count the surrogate as one unit.
- The empty path segment: Express matches `/reset-password/:email` only for a non-empty segment, so the handler's "" fallback (and the "" case of `ResetPageEmail`) is never reached; `/reset-password/` is a 404.
