/**
 * The backend's AuthController: registration validated against the user
 * table, login that issues a token for matching credentials, and logout
 * that invalidates the current token. The user table and the set of valid
 * tokens are the state these operations change. Password hashing, hash
 * checking, the `email` format rule and token signing are library calls,
 * passed in as parameters.
 */
module AuthController {
  import opened Wrappers
  // The request body arrives as JSON, whose values (null, booleans, numbers,
  // strings, objects) are exactly the shapes `Js.Value` has; `Undefined`
  // stands for a key the request does not carry.
  import opened Js

  /** A stored password: what the hasher returned, never the plain text. */
  datatype PasswordHash = PasswordHash(digest: seq<int>)

  datatype User = User(name: string, email: string, password: PasswordHash)

  type Token = string

  /** A JSON response body. */
  datatype Json = JString(s: string) | JList(items: seq<Json>) | JObject(fields: map<string, Json>)

  const CreatedMessage: string := "Usuário criado com sucesso!"
  const InvalidCredentialsMessage: string := "Credenciais inválidas!"
  const LoggedOutMessage: string := "Logout realizado com sucesso!"

  // ---------------------------------------------------------------------------
  // Validation rules of register

  /** The characters PHP's trim() strips. */
  predicate TrimmedChar(c: char)
  {
    c == ' ' || c == '\t' || c == '\n' || c == '\r' || c == 0 as char || c == 11 as char
  }

  /** A string that trims to "". */
  predicate Blank(s: string)
  {
    forall i :: 0 <= i < |s| ==> TrimmedChar(s[i])
  }

  /** Laravel `required`: present, not null, and not a string that trims to "". */
  predicate Required(v: Value)
  {
    !Nullish(v) && !(v.Str? && Blank(v.s))
  }

  /** Laravel `unique:users` on the email column. */
  predicate EmailTaken(users: seq<User>, email: string)
  {
    exists i :: 0 <= i < |users| && users[i].email == email
  }

  /** `required|string|max:255` (length counted in characters). */
  predicate NameValid(v: Value)
  {
    Required(v) && v.Str? && |v.s| <= 255
  }

  /** `required|string|email|max:255|unique:users`. */
  predicate EmailValid(v: Value, users: seq<User>, isEmail: string -> bool)
  {
    Required(v) && v.Str? && isEmail(v.s) && |v.s| <= 255 && !EmailTaken(users, v.s)
  }

  /** `required|string|min:6`. */
  predicate PasswordValid(v: Value)
  {
    Required(v) && v.Str? && |v.s| >= 6
  }

  /** The attributes whose rules fail: the keys of the validator's error bag. */
  function FailedAttributes(request: map<string, Value>, users: seq<User>, isEmail: string -> bool)
    : (errors: set<string>)
    ensures errors <= {"name", "email", "password"}
    ensures "name" in errors <==> !NameValid(Get(request, "name"))
    ensures "email" in errors <==> !EmailValid(Get(request, "email"), users, isEmail)
    ensures "password" in errors <==> !PasswordValid(Get(request, "password"))
  {
    (if NameValid(Get(request, "name")) then {} else {"name"})
    + (if EmailValid(Get(request, "email"), users, isEmail) then {} else {"email"})
    + (if PasswordValid(Get(request, "password")) then {} else {"password"})
  }

  /** A request that passes validation carries three strings: a name, an email and a password of 6 or more characters. */
  lemma ValidatedRequest(request: map<string, Value>, users: seq<User>, isEmail: string -> bool)
    requires FailedAttributes(request, users, isEmail) == {}
    ensures "name" in request && request["name"].Str? && 0 < |request["name"].s| <= 255
    ensures "email" in request && request["email"].Str? && 0 < |request["email"].s| <= 255
    ensures isEmail(request["email"].s) && !EmailTaken(users, request["email"].s)
    ensures "password" in request && request["password"].Str? && |request["password"].s| >= 6
  {
    assert "name" !in FailedAttributes(request, users, isEmail);
    assert "email" !in FailedAttributes(request, users, isEmail);
    assert "password" !in FailedAttributes(request, users, isEmail);
    assert Get(request, "name") != Str("");
    assert Get(request, "email") != Str("");
  }

  /** No two users share an email. */
  predicate EmailsUnique(users: seq<User>)
  {
    forall i, j :: 0 <= i < j < |users| ==> users[i].email != users[j].email
  }

  /** Adding a user whose email is not taken keeps emails unique. */
  lemma AddingFreshEmailKeepsUnique(users: seq<User>, u: User)
    requires EmailsUnique(users) && !EmailTaken(users, u.email)
    ensures EmailsUnique(users + [u])
  {
    var all := users + [u];
    forall i, j | 0 <= i < j < |all| ensures all[i].email != all[j].email {
      if j == |users| {
        assert all[i] == users[i];
      } else {
        assert all[i] == users[i] && all[j] == users[j];
      }
    }
  }

  // ---------------------------------------------------------------------------
  // Response bodies

  /** `['message', 'Usuário criado com sucesso!']` as written: a PHP list, so a JSON array. */
  const CreatedBodyAsWritten: Json := JList([JString("message"), JString(CreatedMessage)])

  /** The body evidently intended, `['message' => 'Usuário criado com sucesso!']`. */
  const CreatedBody: Json := JObject(map["message" := JString(CreatedMessage)])

  predicate IsDecimalIndex(key: string)
  {
    key != [] && (forall i :: 0 <= i < |key| ==> '0' <= key[i] <= '9') && (key == "0" || key[0] != '0')
  }

  function DecimalValue(key: string): nat
    requires forall i :: 0 <= i < |key| ==> '0' <= key[i] <= '9'
  {
    if key == [] then 0
    else 10 * DecimalValue(key[..|key| - 1]) + (key[|key| - 1] as int - '0' as int)
  }

  /** `body.key` on the decoded JSON: an object's member, or an array element at a decimal index. */
  function Property(body: Json, key: string): Option<Json>
  {
    match body
    case JObject(fields) => if key in fields then Some(fields[key]) else None
    case JList(items) =>
      if IsDecimalIndex(key) && DecimalValue(key) < |items| then Some(items[DecimalValue(key)]) else None
    case JString(_) => None
  }

  /** As written, the success body has no `message` property: the text sits at index 1. */
  lemma CreatedBodyAsWrittenHasNoMessage()
    ensures Property(CreatedBodyAsWritten, "message") == None
    ensures Property(CreatedBodyAsWritten, "1") == Some(JString(CreatedMessage))
  {
    assert !IsDecimalIndex("message") by {
      assert !('0' <= "message"[0] <= '9');
    }
    assert IsDecimalIndex("1") && DecimalValue("1") == 1 by {
      assert "1"[..0] == [];
    }
  }

  /** The corrected body carries the message under `message`. */
  lemma CreatedBodyHasMessage()
    ensures Property(CreatedBody, "message") == Some(JString(CreatedMessage))
  {
  }

  /** Neither body carries a token, yet the client reads `token` from it. */
  lemma CreatedBodiesHaveNoToken()
    ensures Property(CreatedBody, "token") == None
    ensures Property(CreatedBodyAsWritten, "token") == None
  {
    assert !IsDecimalIndex("token") by {
      assert !('0' <= "token"[0] <= '9');
    }
  }

  // ---------------------------------------------------------------------------
  // Login

  /** The first user with this email. */
  function FindUser(users: seq<User>, email: string): (u: Option<User>)
    ensures u.Some? <==> EmailTaken(users, email)
    ensures u.Some? ==> u.value in users && u.value.email == email
  {
    if users == [] then None
    else if users[0].email == email then Some(users[0])
    else
      var rest := FindUser(users[1..], email);
      assert rest.Some? ==> rest.value in users;
      assert EmailTaken(users[1..], email) ==> EmailTaken(users, email) by {
        if EmailTaken(users[1..], email) {
          var i :| 0 <= i < |users[1..]| && users[1..][i].email == email;
          assert users[i + 1].email == email;
        }
      }
      rest
  }

  /**
   * JWTAuth::attempt on `only('email', 'password')`: a string email that
   * a user holds, a password that is not null (the user provider refuses a
   * null one before hashing), and the hash check of that password against
   * the user's stored hash. `checkHash` is Hash::check on the request
   * value as PHP coerces it to a string, so a JSON number is checked as
   * its digits.
   */
  function CredentialsMatch(users: seq<User>, request: map<string, Value>, checkHash: (Value, PasswordHash) -> bool)
    : (b: bool)
    ensures b ==> Get(request, "email").Str? && EmailTaken(users, Get(request, "email").s)
    ensures Nullish(Get(request, "password")) ==> !b
    ensures b ==> checkHash(Get(request, "password"), FindUser(users, Get(request, "email").s).value.password)
  {
    var email, password := Get(request, "email"), Get(request, "password");
    email.Str? && !Nullish(password)
    && FindUser(users, email.s).Some?
    && checkHash(password, FindUser(users, email.s).value.password)
  }

  /** A user appended under an email nobody holds is the one a lookup of that email finds. */
  lemma {:induction false} FindAppendedUser(users: seq<User>, u: User)
    requires !EmailTaken(users, u.email)
    ensures FindUser(users + [u], u.email) == Some(u)
  {
    if users == [] {
      assert users + [u] == [u];
    } else {
      assert users[0].email != u.email;
      FindAppendedUser(users[1..], u);
      assert (users + [u])[1..] == users[1..] + [u];
    }
  }

  /**
   * Register then login: once a request passes validation and the user is
   * stored, the same email and password log in, provided the hash checker
   * accepts what the hasher produced.
   */
  lemma RegisteredUserCanLogIn(users: seq<User>, request: map<string, Value>, isEmail: string -> bool,
                               hash: string -> PasswordHash, checkHash: (Value, PasswordHash) -> bool)
    requires FailedAttributes(request, users, isEmail) == {}
    requires checkHash(request["password"], hash(request["password"].s))
    ensures CredentialsMatch(users + [User(request["name"].s, request["email"].s, hash(request["password"].s))],
                             request, checkHash)
  {
    ValidatedRequest(request, users, isEmail);
    FindAppendedUser(users, User(request["name"].s, request["email"].s, hash(request["password"].s)));
  }

  // ---------------------------------------------------------------------------
  // The state the controller changes

  class Accounts {
    var users: seq<User>
    var validTokens: set<Token>

    predicate Valid()
      reads this
    {
      EmailsUnique(users)
    }

    constructor ()
      ensures Valid() && users == [] && validTokens == {}
    {
      users, validTokens := [], {};
    }

    /**
     * register: 400 with the failing attributes and no user created, or
     * 201 after adding exactly one user whose password is the hash of the
     * given one. Emails stay unique.
     */
    method Register(request: map<string, Value>, isEmail: string -> bool, hash: string -> PasswordHash)
      returns (status: int, response: Result<Json, set<string>>)
      requires Valid()
      modifies this
      ensures Valid() && validTokens == old(validTokens)
      ensures var errors := FailedAttributes(request, old(users), isEmail);
        if errors != {} then
          status == 400 && response == Failure(errors) && users == old(users)
        else
          status == 201 && response == Success(CreatedBodyAsWritten)
          && users == old(users) + [User(request["name"].s, request["email"].s, hash(request["password"].s))]
    {
      var errors := FailedAttributes(request, users, isEmail);
      if errors != {} {
        return 400, Failure(errors);
      }
      ValidatedRequest(request, users, isEmail);
      var user := User(request["name"].s, request["email"].s, hash(request["password"].s));
      AddingFreshEmailKeepsUnique(users, user);
      users := users + [user];
      status, response := 201, Success(CreatedBodyAsWritten);
    }

    /**
     * login: 401 with a message and no token when the credentials do not
     * match; otherwise a body holding only the token, which becomes valid.
     * `issued` is the token the JWT library signs.
     */
    method Login(request: map<string, Value>, checkHash: (Value, PasswordHash) -> bool, issued: Token)
      returns (status: int, body: Json)
      modifies this
      ensures users == old(users)
      ensures CredentialsMatch(old(users), request, checkHash) ==>
        status == 200 && body == JObject(map["token" := JString(issued)]) && validTokens == old(validTokens) + {issued}
      ensures !CredentialsMatch(old(users), request, checkHash) ==>
        status == 401 && body == JObject(map["message" := JString(InvalidCredentialsMessage)])
        && validTokens == old(validTokens)
    {
      if !CredentialsMatch(users, request, checkHash) {
        return 401, JObject(map["message" := JString(InvalidCredentialsMessage)]);
      }
      validTokens := validTokens + {issued};
      status, body := 200, JObject(map["token" := JString(issued)]);
    }

    /** logout: the request's token (valid, as the route's auth middleware ensures) is invalidated. */
    method Logout(current: Token) returns (status: int, body: Json)
      requires current in validTokens
      modifies this
      ensures current !in validTokens && validTokens == old(validTokens) - {current}
      ensures users == old(users)
      ensures status == 200 && body == JObject(map["message" := JString(LoggedOutMessage)])
    {
      validTokens := validTokens - {current};
      status, body := 200, JObject(map["message" := JString(LoggedOutMessage)]);
    }
  }
}
