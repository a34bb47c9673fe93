/**
 * A client of the store: register, log in, add, edit and delete a todo,
 * proved from the handlers' contracts alone.
 */
module Scenario {
  import opened Wrappers
  import opened AuthValidate
  import opened Bcrypt
  import opened AuthRoutes

  /**
   * A new user registers with a body the registration schema accepts, then
   * logs in with the same email and password: both requests land on the
   * user's (still empty) todo page.
   */
  method RegisterThenLogin(bcrypt: Hasher, isEmail: string -> bool, salt: Salt, body: Body, login: Body)
    returns (registered: Outcome, loggedIn: Outcome)
    requires Sound(bcrypt) && !isEmail("")
    requires RegisterRules(body, isEmail)
    requires "email" in login && login["email"] == body["email"]
    requires "password" in login && login["password"] == body["password"]
    ensures registered == SuccessPage(Raw(body, "username"), Raw(body, "email"), [])
    ensures loggedIn == registered
  {
    var store := new Store(bcrypt, isEmail);
    RegisterAcceptsIff(body, isEmail);
    RegisterCases(store.Snapshot(), body, SafeParse(RegisterUserSchema, body, isEmail), salt, bcrypt);
    registered := store.Register(body, salt);
    RegisteredUserCanLogin(Tables(map[], map[], 1), body, login, salt, isEmail, bcrypt);
    loggedIn := Login(store.Snapshot(), login, isEmail, bcrypt);
  }

  /** Adding, editing and deleting alice's first todo, as her todo list shows it. */
  method TodoLifecycle(bcrypt: Hasher, isEmail: string -> bool)
  {
    var store := new Store(bcrypt, isEmail);
    var added := store.AddTodo(Some("alice@x.com"), Some("buy milk"));
    assert added.id == Some(1) && added.todoText == Some("buy milk");
    assert store.todos == map[1 := Todo("alice@x.com", "buy milk")];

    var edited := store.EditTodo(Some(1), Some("buy bread"));
    assert edited.success;
    assert store.todos.Keys == {1};
    assert store.todos[1] == Todo("alice@x.com", "buy bread");
    assert store.todos == map[1 := Todo("alice@x.com", "buy bread")];
    assert RowsFor(store.todos, "alice@x.com", store.nextId) == [TodoRow(1, "alice@x.com", "buy bread")];

    var deleted := store.DeleteTodo(Some(1));
    assert deleted.success && store.todos == map[];
    assert RowsFor(store.todos, "alice@x.com", store.nextId) == [];
  }
}
