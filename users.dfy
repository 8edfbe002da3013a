/**
 * Authentication: the fixed two-account allowlist the login form checks, and
 * the `users` table with insert-or-ignore seeding and a lookup by password
 * hash. The hash function is a parameter of the table, left uninterpreted.
 */
module Users {
  import opened Wrappers

  datatype Credentials = Credentials(username: string, password: string)

  /** The allowlist of `authenticate_by_role_and_username`, keyed by role. */
  const DefaultCredentials: map<string, Credentials> :=
    map["Support" := Credentials("support", "support123"),
        "Client" := Credentials("client", "client123")]

  /** A known role whose fixed username and password both match exactly. */
  function AuthenticateByRole(role: string, username: string, password: string): (ok: bool)
    ensures ok <==>
              (role == "Support" && username == "support" && password == "support123") ||
              (role == "Client" && username == "client" && password == "client123")
  {
    if role in DefaultCredentials then
      username == DefaultCredentials[role].username && password == DefaultCredentials[role].password
    else
      false
  }

  /** Each account logs in only under its own role. */
  lemma AuthenticateByRoleExamples()
    ensures AuthenticateByRole("Support", "support", "support123")
    ensures AuthenticateByRole("Client", "client", "client123")
    ensures !AuthenticateByRole("Support", "client", "client123")
    ensures !AuthenticateByRole("Client", "support", "support123")
    ensures !AuthenticateByRole("Admin", "support", "support123")
  {
  }

  /** One row of `users`, without its key. */
  datatype User = User(hashedPassword: string, role: string)

  type UserMap = map<string, User>

  /** `INSERT OR IGNORE INTO users`: an existing username keeps its row. */
  function AddUserTo(users: UserMap, hash: string -> string, username: string, password: string, role: string): (r: UserMap)
    ensures r.Keys == users.Keys + {username}
    ensures forall k :: k in users ==> r[k] == users[k]
    ensures username !in users ==> r[username] == User(hash(password), role)
  {
    if username in users then users else users[username := User(hash(password), role)]
  }

  /** `create_default_users`: the support account, then the client account. */
  function WithDefaultUsers(users: UserMap, hash: string -> string): (r: UserMap)
    ensures r.Keys == users.Keys + {"support", "client"}
    ensures forall k :: k in users ==> r[k] == users[k]
    ensures "support" !in users ==> r["support"] == User(hash("support123"), "Support")
    ensures "client" !in users ==> r["client"] == User(hash("client123"), "Client")
  {
    AddUserTo(AddUserTo(users, hash, "support", "support123", "Support"), hash, "client", "client123", "Client")
  }

  /** Seeding twice is seeding once. */
  lemma DefaultUsersIdempotent(users: UserMap, hash: string -> string)
    ensures WithDefaultUsers(WithDefaultUsers(users, hash), hash) == WithDefaultUsers(users, hash)
  {
  }

  /** `authenticate_user`: the role of the row with this username and this password's hash. */
  function Authenticate(users: UserMap, hash: string -> string, username: string, password: string): (role: Option<string>)
    ensures role.Some? <==> username in users && users[username].hashedPassword == hash(password)
    ensures role.Some? ==> role.value == users[username].role
  {
    if username in users && users[username].hashedPassword == hash(password) then
      Some(users[username].role)
    else
      None
  }

  ghost predicate Injective(hash: string -> string)
  {
    forall a, b :: hash(a) == hash(b) ==> a == b
  }

  /** A newly added user logs in with the password given, and (for an injective hash) with no other. */
  lemma AuthenticateAfterAdd(users: UserMap, hash: string -> string, username: string, password: string,
                             role: string, attempt: string)
    requires username !in users
    ensures Authenticate(AddUserTo(users, hash, username, password, role), hash, username, password) == Some(role)
    ensures Injective(hash) && attempt != password ==>
              Authenticate(AddUserTo(users, hash, username, password, role), hash, username, attempt) == None
  {
  }

  /**
   * On a freshly seeded table and an injective hash, the table lookup and the
   * fixed allowlist accept the same logins with the same roles.
   */
  lemma SeededLookupMatchesAllowlist(hash: string -> string, role: string, username: string, password: string)
    requires Injective(hash)
    ensures Authenticate(WithDefaultUsers(map[], hash), hash, username, password) == Some(role)
            <==> AuthenticateByRole(role, username, password)
  {
    var users := WithDefaultUsers(map[], hash);
    assert users == map["support" := User(hash("support123"), "Support"),
                        "client" := User(hash("client123"), "Client")];
  }

  class UserTable {
    const hash: string -> string
    var users: UserMap

    /** The empty `users` table, hashing with `hash`. */
    constructor (hash: string -> string)
      ensures this.hash == hash && users == map[]
    {
      this.hash := hash;
      users := map[];
    }

    /** `add_user`: stores the password's hash under a new username; an existing username is left alone. */
    method AddUser(username: string, password: string, role: string)
      modifies this
      ensures users == AddUserTo(old(users), hash, username, password, role)
    {
      if username !in users {
        users := users[username := User(hash(password), role)];
      }
    }

    /** `create_default_users`: adds the two default accounts, keeping any that exist. */
    method CreateDefaultUsers()
      modifies this
      ensures users == WithDefaultUsers(old(users), hash)
    {
      AddUser("support", "support123", "Support");
      AddUser("client", "client123", "Client");
    }
  }
}
