/** The in-memory user table of BookRecomendationApp.py with its login and
    registration handlers. The user-interface notifications and page changes
    are returned as notice values. */
module Auth {
  import opened Wrappers
  import opened Base64
  import opened PasswordUtils

  /** What the login form reports. */
  datatype LoginNotice = Welcome(username: string) | InvalidCredentials
  {
    function Message(): string
    {
      match this
      case Welcome(u) => "Welcome, " + u
      case InvalidCredentials => "Invalid username or password"
    }

    /** The page the browser is sent to afterwards, if any. */
    function Destination(): Option<string>
    {
      if Welcome? then Some("/dashboard") else None
    }
  }

  /** What the registration form reports. */
  datatype RegistrationNotice = EmptyFields | UsernameTaken | Registered(username: string)
  {
    function Message(): string
    {
      match this
      case EmptyFields => "Username and password cannot be empty"
      case UsernameTaken => "Username already exists"
      case Registered(u) => "User " + u + " registered successfully! Please log in."
    }

    function Destination(): Option<string>
    {
      if Registered? then Some("/") else None
    }
  }

  /** A login attempt against the table `users` (user name to stored hash). */
  function HandleLogin(users: map<string, string>, kdf: Kdf, username: string, password: string): (n: LoginNotice)
    ensures n == InvalidCredentials || (n == Welcome(username) && username in users)
  {
    if username in users && VerifyPassword(kdf, password, users[username])
    then Welcome(username)
    else InvalidCredentials
  }

  /** `secrets` names, for every user, the password and salt whose hash is
      stored for that user. */
  ghost predicate HashesOf(users: map<string, string>, secrets: map<string, (string, seq<Byte>)>, kdf: Kdf)
  {
    && users.Keys == secrets.Keys
    && forall u :: u in users ==>
         |secrets[u].1| == SALT_SIZE && users[u] == HashPassword(kdf, secrets[u].0, secrets[u].1)
  }

  /** On a table whose hashes are known, a login succeeds exactly when the user
      exists and the attempt derives the stored key under the stored salt. */
  lemma LoginMatchesStoredKey(users: map<string, string>, secrets: map<string, (string, seq<Byte>)>,
                              kdf: Kdf, username: string, password: string)
    requires HashesOf(users, secrets, kdf)
    ensures HandleLogin(users, kdf, username, password).Welcome?
        <==> username in users
             && kdf(password, secrets[username].1, ITERATIONS) == kdf(secrets[username].0, secrets[username].1, ITERATIONS)
  {
    if username in users {
      VerifyAgainstHash(kdf, password, secrets[username].0, secrets[username].1);
    }
  }

  /** Once (username, password) is stored, logging in with them succeeds. */
  lemma LoginAfterRegistration(users: map<string, string>, kdf: Kdf, username: string, password: string, salt: seq<Byte>)
    requires |salt| == SALT_SIZE
    ensures HandleLogin(users[username := HashPassword(kdf, password, salt)], kdf, username, password)
         == Welcome(username)
  {
    VerifyOwnHash(kdf, password, salt);
  }

  /** The default account of the start-up table logs in with its password. */
  lemma AdminLogsIn(kdf: Kdf, salt: seq<Byte>)
    requires |salt| == SALT_SIZE
    ensures HandleLogin(map["admin" := HashPassword(kdf, "admin123", salt)], kdf, "admin", "admin123")
         == Welcome("admin")
  {
    LoginAfterRegistration(map[], kdf, "admin", "admin123", salt);
  }

  /** The module-level `users` dictionary. */
  class UserTable {
    var users: map<string, string>
    const kdf: Kdf
    /** The password and salt behind each stored hash (never stored by the program). */
    ghost var secrets: map<string, (string, seq<Byte>)>

    ghost predicate Valid()
      reads this
    {
      HashesOf(users, secrets, kdf)
    }

    /** The table at start-up: only the default "admin" account. */
    constructor (kdf: Kdf, adminSalt: seq<Byte>)
      requires |adminSalt| == SALT_SIZE
      ensures Valid() && this.kdf == kdf
      ensures users == map["admin" := HashPassword(kdf, "admin123", adminSalt)]
      ensures "admin" in users
    {
      this.kdf := kdf;
      users := map["admin" := HashPassword(kdf, "admin123", adminSalt)];
      secrets := map["admin" := ("admin123", adminSalt)];
    }

    /** Registers `username` unless a field is empty or the name is taken;
        `salt` is the fresh random salt the hash would use. */
    method HandleRegistration(username: string, password: string, salt: seq<Byte>) returns (n: RegistrationNotice)
      requires Valid() && |salt| == SALT_SIZE
      modifies this
      ensures Valid()
      ensures username == "" || password == "" ==> n == EmptyFields && users == old(users)
      ensures username != "" && password != "" && username in old(users) ==>
                n == UsernameTaken && users == old(users)
      ensures username != "" && password != "" && username !in old(users) ==>
                n == Registered(username) && users == old(users)[username := HashPassword(kdf, password, salt)]
    {
      if username == "" || password == "" {
        return EmptyFields;
      }
      if username in users {
        return UsernameTaken;
      }
      users := users[username := HashPassword(kdf, password, salt)];
      secrets := secrets[username := (password, salt)];
      n := Registered(username);
    }
  }
}
