/**
 * The POST handlers of the auth router over the two tables they read and
 * write: `users`, keyed by its unique email, and `todos`, whose ids come
 * from an AUTO_INCREMENT counter. Login and forgot-password only read the
 * tables and are functions of them; register, reset-password and the three
 * todo handlers change them and are methods of Store.
 */
module AuthRoutes {
  import opened Wrappers
  import opened AuthValidate
  import Uri
  import opened Bcrypt

  /** A row of `users`; the password column holds the bcrypt hash. */
  datatype User = User(username: string, email: string, passwordHash: string)

  /** A row of `todos` without its id, which is the key it is stored under. */
  datatype Todo = Todo(email: string, text: string)

  /** A row as `SELECT * FROM todos` returns it. */
  datatype TodoRow = TodoRow(id: int, email: string, todoText: string)

  /** The contents of both tables and the next AUTO_INCREMENT value of `todos`. */
  datatype Tables = Tables(users: map<string, User>, todos: map<int, Todo>, nextId: int)

  /**
   * The schema facts: a user is stored under its own email (the UNIQUE key),
   * and every todo id was handed out by the counter, which starts at 1.
   */
  predicate TablesValid(t: Tables) {
    && t.nextId >= 1
    && (forall e :: e in t.users ==> t.users[e].email == e)
    && (forall id :: id in t.todos ==> 1 <= id < t.nextId)
  }

  datatype Page = RegisterPage | LoginPage | ForgotPasswordPage

  /** What a handler sends back. */
  datatype Outcome =
    | Form(page: Page, error: Option<string>, notice: Option<string>)
    | SuccessPage(username: string, userEmail: string, todos: seq<TodoRow>)
    | Redirect(location: string)
    | Json(status: nat, success: bool, message: string, id: Option<int>, todoText: Option<string>)
    | Text(status: nat, body: string)

  const ResetPasswordPrefix := "/reset-password/"

  /**
   * `SELECT * FROM todos WHERE email = ?` over the ids 1 .. n - 1, in
   * ascending id order (the order of insertion).
   */
  function RowsFor(todos: map<int, Todo>, email: string, n: int): seq<TodoRow>
    decreases n
  {
    if n <= 1 then []
    else
      RowsFor(todos, email, n - 1)
      + (if n - 1 in todos && todos[n - 1].email == email then [TodoRow(n - 1, email, todos[n - 1].text)] else [])
  }

  /** The raw string a body holds under key ("" when it holds none). */
  function Raw(body: Body, key: string): string {
    if HasString(body, key) then body[key].s else ""
  }

  /**
   * POST /login. After the schema has accepted the body, the handler looks
   * up the raw (untrimmed) email, compares the raw password with the stored
   * hash and shows the user's todos.
   */
  function Login(db: Tables, body: Body, isEmail: string -> bool, bcrypt: Hasher): (out: Outcome)
    ensures out.SuccessPage? || (out.Form? && out.page == LoginPage && out.error.Some? && out.notice.None?)
    ensures out.SuccessPage? ==>
      Raw(body, "email") in db.users && out.userEmail == db.users[Raw(body, "email")].email
      && out.username == db.users[Raw(body, "email")].username
  {
    var result := SafeParse(LoginUserSchema, body, isEmail);
    if result.Failure? then Form(LoginPage, Some(FirstMessage(result.messages)), None)
    // `!email || !password`; only strings can get past the schema
    else if Raw(body, "email") == "" || Raw(body, "password") == "" then
      Form(LoginPage, Some("Email and password are required."), None)
    else if Raw(body, "email") !in db.users then Form(LoginPage, Some("Email not registered"), None)
    else
      var user := db.users[Raw(body, "email")];
      if !bcrypt.compare(Raw(body, "password"), user.passwordHash) then Form(LoginPage, Some("Incorrect password"), None)
      else SuccessPage(user.username, user.email, RowsFor(db.todos, user.email, db.nextId))
  }

  /** Where forgot-password sends a registered email. */
  function ResetLink(email: string): string {
    ResetPasswordPrefix + Uri.EncodeURIComponent(email)
  }

  /**
   * POST /forgot-password. An undefined email makes the query throw, which
   * the handler reports as "Something went wrong".
   */
  function ForgotPassword(db: Tables, email: Option<string>): Outcome {
    if email.None? then Form(ForgotPasswordPage, Some("Something went wrong"), None)
    else if email.value !in db.users then
      Form(ForgotPasswordPage, Some("This email is not registered. Please register first."), None)
    else Redirect(ResetLink(email.value))
  }

  /**
   * The email GET /reset-password/:email puts in its form, from the path
   * segment as the browser requests it. Express hands the handler the
   * segment already passed through decodeURIComponent, and the handler
   * decodes that again ("" stays ""). None where either decoding throws.
   */
  function ResetPageEmail(segment: string): Option<string> {
    match Uri.DecodeURIComponent(segment)
    case None => None
    case Some(param) => if param == "" then Some("") else Uri.DecodeURIComponent(param)
  }

  /**
   * POST /register on the tables, given what the schema made of the body:
   * the tables afterwards and the reply. The lookup and the insert use the
   * raw username and email, not the trimmed values the schema checked.
   */
  function RegisterOn(db: Tables, body: Body, parsed: ParseResult, salt: Salt, bcrypt: Hasher): (Tables, Outcome) {
    if parsed.Failure? then (db, Form(RegisterPage, Some(FirstMessage(parsed.messages)), None))
    else
      var username, email := Raw(body, "username"), Raw(body, "email");
      if email in db.users then (db, Form(RegisterPage, Some("Email already registered!"), None))
      else
        (db.(users := db.users[email := User(username, email, bcrypt.hash(Raw(body, "password"), salt))]),
         SuccessPage(username, email, RowsFor(db.todos, email, db.nextId)))
  }

  /**
   * A body the schema rejects and an email already registered change
   * nothing; otherwise exactly one user is inserted, holding the raw
   * username and email and the hash of the password, and the success page
   * shows that email's todos. Valid tables stay valid.
   */
  lemma RegisterCases(db: Tables, body: Body, parsed: ParseResult, salt: Salt, bcrypt: Hasher)
    ensures var (after, out) := RegisterOn(db, body, parsed, salt, bcrypt);
      var username, email := Raw(body, "username"), Raw(body, "email");
      && after.todos == db.todos && after.nextId == db.nextId
      && (TablesValid(db) ==> TablesValid(after))
      && (parsed.Failure? ==> after == db && out == Form(RegisterPage, Some(FirstMessage(parsed.messages)), None))
      && (parsed.Success? && email in db.users ==>
            after == db && out == Form(RegisterPage, Some("Email already registered!"), None))
      && (parsed.Success? && email !in db.users ==>
            && after.users.Keys == db.users.Keys + {email}
            && after.users[email] == User(username, email, bcrypt.hash(Raw(body, "password"), salt))
            && (forall e :: e in db.users ==> after.users[e] == db.users[e])
            && out == SuccessPage(username, email, RowsFor(db.todos, email, db.nextId)))
  {
  }

  /** The two tables behind the router, and the libraries the handlers call. */
  class Store {
    var users: map<string, User>
    var todos: map<int, Todo>
    var nextId: int
    const bcrypt: Hasher
    /** The email check of zod's email(). */
    const isEmail: string -> bool

    function Snapshot(): Tables
      reads this
    {
      Tables(users, todos, nextId)
    }

    ghost predicate Valid()
      reads this
    {
      TablesValid(Snapshot())
    }

    /** Empty tables, as CREATE TABLE leaves them. */
    constructor (bcrypt: Hasher, isEmail: string -> bool)
      ensures Valid()
      ensures users == map[] && todos == map[] && nextId == 1
      ensures this.bcrypt == bcrypt && this.isEmail == isEmail
    {
      users := map[];
      todos := map[];
      nextId := 1;
      this.bcrypt := bcrypt;
      this.isEmail := isEmail;
    }

    /** POST /register: the tables and the reply as RegisterOn gives them for the schema's verdict. */
    method Register(body: Body, salt: Salt) returns (out: Outcome)
      requires Valid()
      modifies this
      ensures Valid()
      ensures (Snapshot(), out) == RegisterOn(old(Snapshot()), body, SafeParse(RegisterUserSchema, body, isEmail), salt, bcrypt)
    {
      ghost var before := Snapshot();
      var result := SafeParse(RegisterUserSchema, body, isEmail);
      RegisterCases(before, body, result, salt, bcrypt);
      if result.Failure? {
        return Form(RegisterPage, Some(FirstMessage(result.messages)), None);
      }
      var username, email, password := Raw(body, "username"), Raw(body, "email"), Raw(body, "password");
      if email in users {
        return Form(RegisterPage, Some("Email already registered!"), None);
      }
      var hashed := bcrypt.hash(password, salt);
      users := users[email := User(username, email, hashed)];
      var rows := RowsFor(todos, email, nextId);
      out := SuccessPage(username, email, rows);
    }

    /**
     * POST /reset-password: no validation and no check that a user matched.
     * An undefined field makes bcrypt or the query throw and nothing changes.
     */
    method ResetPassword(email: Option<string>, password: Option<string>, salt: Salt) returns (out: Outcome)
      requires Valid()
      modifies this
      ensures Valid()
      ensures todos == old(todos) && nextId == old(nextId)
      ensures email.None? || password.None? ==>
        users == old(users) && out == Text(200, "Error updating password.")
      ensures email.Some? && password.Some? ==>
        && out == Form(LoginPage, None, Some("Password has been reset successfully. Please login."))
        && users == (if email.value in old(users)
                     then old(users)[email.value := old(users)[email.value].(passwordHash := bcrypt.hash(password.value, salt))]
                     else old(users))
    {
      if password.None? || email.None? {
        return Text(200, "Error updating password.");
      }
      var hashed := bcrypt.hash(password.value, salt);
      if email.value in users {
        users := users[email.value := users[email.value].(passwordHash := hashed)];
      }
      out := Form(LoginPage, None, Some("Password has been reset successfully. Please login."));
    }

    /**
     * POST /add-todo: one row under the next id, which is above every id
     * in the table; the reply carries that id and the text.
     */
    method AddTodo(email: Option<string>, todo: Option<string>) returns (out: Outcome)
      requires Valid()
      modifies this
      ensures Valid()
      ensures users == old(users)
      ensures email.None? || todo.None? ==>
        && todos == old(todos) && nextId == old(nextId)
        && out == Json(500, false, "Error adding todo.", None, None)
      ensures email.Some? && todo.Some? ==>
        && old(nextId) !in old(todos)
        && (forall id :: id in old(todos) ==> id < old(nextId))
        && todos == old(todos)[old(nextId) := Todo(email.value, todo.value)]
        && nextId == old(nextId) + 1
        && out == Json(200, true, "Todo added successfully", Some(old(nextId)), todo)
    {
      if email.None? || todo.None? {
        return Json(500, false, "Error adding todo.", None, None);
      }
      var id := nextId;
      todos := todos[id := Todo(email.value, todo.value)];
      nextId := nextId + 1;
      out := Json(200, true, "Todo added successfully", Some(id), todo);
    }

    /**
     * POST /edit-todo: the text of the row with that id, whoever owns it;
     * success is reported whether or not the id exists.
     */
    method EditTodo(id: Option<int>, text: Option<string>) returns (out: Outcome)
      requires Valid()
      modifies this
      ensures Valid()
      ensures users == old(users) && nextId == old(nextId)
      ensures id.None? || text.None? ==>
        todos == old(todos) && out == Json(500, false, "Error updating todo.", None, None)
      ensures id.Some? && text.Some? ==>
        && out == Json(200, true, "Todo updated successfully", None, None)
        && todos.Keys == old(todos).Keys
        && (forall k :: k in todos && k != id.value ==> todos[k] == old(todos)[k])
        && (id.value in todos ==> todos[id.value] == Todo(old(todos)[id.value].email, text.value))
    {
      if id.None? || text.None? {
        return Json(500, false, "Error updating todo.", None, None);
      }
      if id.value in todos {
        todos := todos[id.value := todos[id.value].(text := text.value)];
      }
      out := Json(200, true, "Todo updated successfully", None, None);
    }

    /**
     * POST /delete-todo: removes the row with that id, whoever owns it;
     * success is reported whether or not the id exists.
     */
    method DeleteTodo(id: Option<int>) returns (out: Outcome)
      requires Valid()
      modifies this
      ensures Valid()
      ensures users == old(users) && nextId == old(nextId)
      ensures id.None? ==> todos == old(todos) && out == Json(500, false, "Error deleting todo.", None, None)
      ensures id.Some? ==>
        && out == Json(200, true, "Todo deleted successfully", None, None)
        && todos == old(todos) - {id.value}
    {
      if id.None? {
        return Json(500, false, "Error deleting todo.", None, None);
      }
      todos := todos - {id.value};
      out := Json(200, true, "Todo deleted successfully", None, None);
    }
  }

  // ---------------------------------------------------------------------
  // What the read-only handlers show.

  predicate Ascending(rows: seq<TodoRow>) {
    forall i, j :: 0 <= i < j < |rows| ==> rows[i].id < rows[j].id
  }

  /** RowsFor holds exactly the todos of that email among the ids 1 .. n - 1. */
  lemma {:induction false} RowsForMembers(todos: map<int, Todo>, email: string, n: int)
    ensures forall row :: row in RowsFor(todos, email, n) <==>
      1 <= row.id < n && row.id in todos && todos[row.id] == Todo(email, row.todoText) && row.email == email
    decreases n
  {
    if n > 1 {
      RowsForMembers(todos, email, n - 1);
    }
  }

  /** RowsFor lists them in strictly ascending id order, so none twice. */
  lemma {:induction false} RowsForAscending(todos: map<int, Todo>, email: string, n: int)
    ensures Ascending(RowsFor(todos, email, n))
    decreases n
  {
    if n > 1 {
      RowsForAscending(todos, email, n - 1);
      RowsForMembers(todos, email, n - 1);
      var prefix := RowsFor(todos, email, n - 1);
      var rows := RowsFor(todos, email, n);
      var extra := if n - 1 in todos && todos[n - 1].email == email then [TodoRow(n - 1, email, todos[n - 1].text)] else [];
      assert rows == prefix + extra;
      forall i, j | 0 <= i < j < |rows| ensures rows[i].id < rows[j].id {
        if j < |prefix| {
          assert rows[i] == prefix[i] && rows[j] == prefix[j];
        } else {
          assert rows[j] == extra[j - |prefix|];
          assert rows[j].id == n - 1;
          assert rows[i] == prefix[i] && prefix[i] in prefix;
          assert prefix[i].id < n - 1;
        }
      }
    }
  }

  /** In valid tables, the todos shown for an email are all of its rows, in id order. */
  lemma UserTodosExact(db: Tables, email: string)
    requires TablesValid(db)
    ensures var rows := RowsFor(db.todos, email, db.nextId);
      && (forall row :: row in rows <==>
            row.id in db.todos && db.todos[row.id] == Todo(email, row.todoText) && row.email == email)
      && Ascending(rows)
  {
    RowsForMembers(db.todos, email, db.nextId);
    RowsForAscending(db.todos, email, db.nextId);
  }

  /** A body the login schema rejects shows its first failing rule. */
  lemma LoginShowsFirstIssue(db: Tables, body: Body, isEmail: string -> bool, bcrypt: Hasher)
    requires SafeParse(LoginUserSchema, body, isEmail).Failure?
    ensures Login(db, body, isEmail, bcrypt) == Form(LoginPage, LoginFirstError(body, isEmail), None)
  {
    var r := SafeParse(LoginUserSchema, body, isEmail);
    assert Login(db, body, isEmail, bcrypt) == Form(LoginPage, Some(FirstMessage(r.messages)), None);
    assert Some(FirstMessage(r.messages)) == LoginFirstError(body, isEmail) by {
      LoginReportsFirstError(body, isEmail);
    }
  }

  /**
   * Once the schema has accepted the body, the `!email || !password` check
   * never fires: what follows is the lookup and the password comparison.
   */
  lemma LoginRequiredCheckDead(db: Tables, body: Body, isEmail: string -> bool, bcrypt: Hasher)
    requires !isEmail("")
    requires SafeParse(LoginUserSchema, body, isEmail).Success?
    ensures var email, password := Raw(body, "email"), Raw(body, "password");
      Login(db, body, isEmail, bcrypt)
      == if email !in db.users then Form(LoginPage, Some("Email not registered"), None)
         else if !bcrypt.compare(password, db.users[email].passwordHash) then Form(LoginPage, Some("Incorrect password"), None)
         else SuccessPage(db.users[email].username, db.users[email].email,
                          RowsFor(db.todos, db.users[email].email, db.nextId))
  {
    LoginAcceptedFieldsNonEmpty(body, isEmail);
  }

  /**
   * Login succeeds exactly when the body meets the login rules, its raw
   * email is registered and bcrypt accepts its password for the stored hash.
   */
  lemma LoginSucceedsIff(db: Tables, body: Body, isEmail: string -> bool, bcrypt: Hasher)
    requires !isEmail("")
    ensures Login(db, body, isEmail, bcrypt).SuccessPage? <==>
      && LoginRules(body, isEmail)
      && body["email"].s in db.users
      && bcrypt.compare(body["password"].s, db.users[body["email"].s].passwordHash)
  {
    LoginAcceptsIff(body, isEmail);
    if LoginRules(body, isEmail) {
      LoginRequiredCheckDead(db, body, isEmail, bcrypt);
    }
  }

  /** A successful login shows that user, and exactly that user's todos in id order. */
  lemma LoginShowsOwnTodos(db: Tables, body: Body, isEmail: string -> bool, bcrypt: Hasher)
    requires TablesValid(db)
    requires Login(db, body, isEmail, bcrypt).SuccessPage?
    ensures var out := Login(db, body, isEmail, bcrypt);
      && out.userEmail == Raw(body, "email") && out.userEmail in db.users
      && out.username == db.users[out.userEmail].username
      && (forall row :: row in out.todos <==>
            row.id in db.todos && db.todos[row.id] == Todo(out.userEmail, row.todoText) && row.email == out.userEmail)
      && Ascending(out.todos)
  {
    UserTodosExact(db, Raw(body, "email"));
  }

  /** A password shorter than six UTF-16 code units never logs in, whatever reset stored. */
  lemma ShortPasswordNeverLogsIn(db: Tables, body: Body, isEmail: string -> bool, bcrypt: Hasher)
    requires HasString(body, "password") && JsString.Utf16Length(body["password"].s) < 6
    ensures !Login(db, body, isEmail, bcrypt).SuccessPage?
  {
    LoginAcceptsIff(body, isEmail);
  }

  /**
   * Forgot-password's three replies: an undefined email is "Something went
   * wrong", an unregistered one the "not registered" error, and a registered
   * one a redirect to the reset prefix followed by the encoded email, whose
   * suffix decodes once back to the email.
   */
  lemma ForgotPasswordReplies(db: Tables, email: Option<string>)
    ensures email.None? ==>
      ForgotPassword(db, email) == Form(ForgotPasswordPage, Some("Something went wrong"), None)
    ensures email.Some? && email.value !in db.users ==>
      ForgotPassword(db, email)
      == Form(ForgotPasswordPage, Some("This email is not registered. Please register first."), None)
    ensures email.Some? && email.value in db.users ==>
      && ForgotPassword(db, email) == Redirect(ResetPasswordPrefix + Uri.EncodeURIComponent(email.value))
      && Uri.DecodeURIComponent(ForgotPassword(db, email).location[|ResetPasswordPrefix|..]) == Some(email.value)
  {
    if email.Some? && email.value in db.users {
      var loc := ResetLink(email.value);
      assert loc[|ResetPasswordPrefix|..] == Uri.EncodeURIComponent(email.value);
      Uri.DecodeEncode(email.value);
    }
  }

  /** The reset page, reached through an encoded email, shows that email decoded once. */
  lemma ResetPageOfEncoded(email: string)
    ensures ResetPageEmail(Uri.EncodeURIComponent(email)) == Uri.DecodeURIComponent(email)
  {
    Uri.DecodeEncode(email);
  }

  /**
   * Forgot-password redirects exactly for a registered email, to the reset
   * prefix followed by one path segment. That segment is decoded twice, so
   * the reset page shows the email decoded once more: the email itself
   * exactly when it holds no '%'.
   */
  lemma ForgotPasswordRoundTrip(db: Tables, email: Option<string>)
    ensures ForgotPassword(db, email).Redirect? <==> email.Some? && email.value in db.users
    ensures ForgotPassword(db, email).Redirect? ==>
      var loc, n := ForgotPassword(db, email).location, |ResetPasswordPrefix|;
      && n <= |loc| && loc[..n] == ResetPasswordPrefix
      && (forall i :: n <= i < |loc| ==> loc[i] != '/')
      && ResetPageEmail(loc[n..]) == Uri.DecodeURIComponent(email.value)
      && (ResetPageEmail(loc[n..]) == Some(email.value) <==> '%' !in email.value)
  {
    if email.Some? && email.value in db.users {
      var loc, n := ResetLink(email.value), |ResetPasswordPrefix|;
      var enc := Uri.EncodeURIComponent(email.value);
      assert loc[n..] == enc;
      assert ResetPageEmail(enc) == Uri.DecodeURIComponent(email.value) by {
        ResetPageOfEncoded(email.value);
      }
      assert Uri.DecodeURIComponent(email.value) == Some(email.value) <==> '%' !in email.value by {
        Uri.DecodeIsIdentityIff(email.value);
      }
      forall i | n <= i < |loc| ensures loc[i] != '/' {
        assert loc[i] == enc[i - n];
      }
    }
  }

  // ---------------------------------------------------------------------
  // Handlers in sequence.

  /**
   * After a registration that inserted a user, a login that sends the same
   * email and password succeeds and shows that user's todos.
   */
  lemma RegisteredUserCanLogin(db: Tables, body: Body, login: Body, salt: Salt, isEmail: string -> bool, bcrypt: Hasher)
    requires TablesValid(db) && Sound(bcrypt) && !isEmail("")
    requires SafeParse(RegisterUserSchema, body, isEmail).Success?
    requires Raw(body, "email") !in db.users
    requires "email" in login && "email" in body && login["email"] == body["email"]
    requires "password" in login && "password" in body && login["password"] == body["password"]
    ensures var (after, out) := RegisterOn(db, body, SafeParse(RegisterUserSchema, body, isEmail), salt, bcrypt);
      Login(after, login, isEmail, bcrypt) == out
      && out == SuccessPage(Raw(body, "username"), Raw(body, "email"), RowsFor(db.todos, Raw(body, "email"), db.nextId))
  {
    var parsed := SafeParse(RegisterUserSchema, body, isEmail);
    RegisterCases(db, body, parsed, salt, bcrypt);
    RegisterAcceptsIff(body, isEmail);
    LoginAcceptsIff(login, isEmail);
    var after := RegisterOn(db, body, parsed, salt, bcrypt).0;
    LoginRequiredCheckDead(after, login, isEmail, bcrypt);
  }

  /**
   * After a reset of a registered user's password, a login with that email
   * and the new password succeeds, provided the new password meets the
   * login rules (reset itself does not check them).
   */
  lemma ResetPasswordThenLogin(db: Tables, email: string, password: string, salt: Salt, login: Body,
                               isEmail: string -> bool, bcrypt: Hasher)
    requires TablesValid(db) && Sound(bcrypt) && !isEmail("")
    requires email in db.users
    requires LoginRules(login, isEmail) && login["email"].s == email && login["password"].s == password
    ensures var after := db.(users := db.users[email := db.users[email].(passwordHash := bcrypt.hash(password, salt))]);
      Login(after, login, isEmail, bcrypt) == SuccessPage(db.users[email].username, email, RowsFor(db.todos, email, db.nextId))
  {
    LoginAcceptsIff(login, isEmail);
    var after := db.(users := db.users[email := db.users[email].(passwordHash := bcrypt.hash(password, salt))]);
    LoginRequiredCheckDead(after, login, isEmail, bcrypt);
  }
}
