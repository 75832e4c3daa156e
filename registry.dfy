/**
 The user registry: the list of registered users, the two queries on it
 (`isValid`, `authenticatedUser`), registration and login.
 */
module Registry {
  import opened Outcomes

  datatype User = User(username: string, password: string)

  /** `s.filter(keep)`: the records of `s` that `keep` accepts, in order. */
  function Filter(s: seq<User>, keep: User -> bool): (r: seq<User>)
    ensures |r| <= |s|
    ensures forall x :: x in r <==> x in s && keep(x)
    ensures forall x :: multiset(r)[x] == if keep(x) then multiset(s)[x] else 0
    decreases |s|
  {
    if s == [] then []
    else
      var rest := Filter(s[1..], keep);
      assert forall x :: x in s <==> x == s[0] || x in s[1..];
      assert s == [s[0]] + s[1..];
      if keep(s[0]) then [s[0]] + rest else rest
  }

  /** `isValid(username)`: nobody is registered under `username` yet. */
  function IsValid(users: seq<User>, username: string): (r: bool)
    ensures r <==> forall u :: u in users ==> u.username != username
  {
    var sameName := Filter(users, (u: User) => u.username == username);
    if |sameName| > 0 then
      assert sameName[0] in sameName;
      false
    else true
  }

  /** `authenticatedUser(username, password)`: some record matches both fields. */
  function AuthenticatedUser(users: seq<User>, username: string, password: string): (r: bool)
    ensures r <==> User(username, password) in users
  {
    var matching := Filter(users, (u: User) => u.username == username && u.password == password);
    if |matching| > 0 then
      assert matching[0] in matching;
      true
    else false
  }

  /** A user who can authenticate has a taken name. */
  lemma AuthenticatedIsTaken(users: seq<User>, username: string, password: string)
    requires AuthenticatedUser(users, username, password)
    ensures !IsValid(users, username)
  {
  }

  /** No two records share a username. */
  ghost predicate UniqueNames(users: seq<User>)
  {
    forall i, j :: 0 <= i < j < |users| ==> users[i].username != users[j].username
  }

  /** `POST /register`: the outcome and the new user list. */
  function Register(users: seq<User>, username: Option<string>, password: Option<string>): (r: (Result<string>, seq<User>))
    ensures r.0.Ok? <==>
              Truthy(username) && Truthy(password) && forall u :: u in users ==> u.username != username.value
    ensures |r.1| == |users| + (if r.0.Ok? then 1 else 0)
    ensures r.1[..|users|] == users
    ensures r.0.Ok? ==> r.1[|users|] == User(username.value, password.value)
  {
    if Truthy(username) && Truthy(password) then
      if IsValid(users, username.value) then
        (Ok(UserRegistered), users + [User(username.value, password.value)])
      else
        (Err(Conflict(UserExists)), users)
    else
      (Err(BadRequest(UnableToRegister)), users)
  }

  /** A present, free username with a present password is appended as one
      new record; the records before it are the old ones. */
  lemma RegisterAppends(users: seq<User>, username: Option<string>, password: Option<string>)
    requires Truthy(username) && Truthy(password)
    requires forall u :: u in users ==> u.username != username.value
    ensures Register(users, username, password).0 == Ok(UserRegistered)
    ensures |Register(users, username, password).1| == |users| + 1
    ensures Register(users, username, password).1[..|users|] == users
    ensures Register(users, username, password).1[|users|] == User(username.value, password.value)
  {
  }

  /** A taken username is refused and the list is unchanged. */
  lemma RegisterTakenConflicts(users: seq<User>, username: Option<string>, password: Option<string>, other: User)
    requires Truthy(username) && Truthy(password)
    requires other in users && other.username == username.value
    ensures Register(users, username, password) == (Err(Conflict(UserExists)), users)
  {
  }

  /** A missing or empty field is refused, whatever the list holds. */
  lemma RegisterMissingFieldRefused(users: seq<User>, username: Option<string>, password: Option<string>)
    requires !Truthy(username) || !Truthy(password)
    ensures Register(users, username, password) == (Err(BadRequest(UnableToRegister)), users)
  {
  }

  /** Registration keeps usernames pairwise distinct. */
  lemma RegisterKeepsNamesUnique(users: seq<User>, username: Option<string>, password: Option<string>)
    requires UniqueNames(users)
    ensures UniqueNames(Register(users, username, password).1)
  {
  }

  /** Registering the same name twice: the second attempt is a conflict, and
      the list has grown by exactly one record overall. */
  lemma RegisterTwice(users: seq<User>, username: Option<string>, password: Option<string>, password': Option<string>)
    requires Truthy(username) && Truthy(password) && Truthy(password')
    requires IsValid(users, username.value)
    ensures var first := Register(users, username, password);
            var second := Register(first.1, username, password');
            && first.0.Ok?
            && second.0 == Err(Conflict(UserExists))
            && |second.1| == |users| + 1
  {
  }

  /** The token `jwt.sign({data: password}, 'access', {expiresIn: 60 * 60})`
      issues: its claim, the signing secret and the lifetime in seconds. */
  datatype AccessToken = AccessToken(data: string, secret: string, expiresIn: nat)

  /** What a successful login binds to `req.session.authorization`. */
  datatype Authorization = Authorization(accessToken: AccessToken, username: string)

  const TokenSecret := "access"
  const TokenLifetime := 60 * 60

  /** `POST /login`: missing fields are refused before any credential check;
      otherwise the credentials decide. */
  function Login(users: seq<User>, username: Option<string>, password: Option<string>): (r: Result<Authorization>)
    ensures !Truthy(username) || !Truthy(password) ==> r == Err(BadRequest(LoginFailed))
    ensures Truthy(username) && Truthy(password) ==>
              (r.Ok? <==> User(username.value, password.value) in users)
    ensures r.Err? && Truthy(username) && Truthy(password) ==> r.error == InvalidCredentials(InvalidLogin)
    ensures r.Ok? ==> r.value == Authorization(AccessToken(password.value, TokenSecret, TokenLifetime), username.value)
  {
    if !Truthy(username) || !Truthy(password) then
      Err(BadRequest(LoginFailed))
    else if AuthenticatedUser(users, username.value, password.value) then
      Ok(Authorization(AccessToken(password.value, TokenSecret, TokenLifetime), username.value))
    else
      Err(InvalidCredentials(InvalidLogin))
  }

  /** After a successful registration the same credentials log in, and the
      session is bound to that username. */
  lemma RegisterThenLogin(users: seq<User>, username: Option<string>, password: Option<string>)
    requires Register(users, username, password).0.Ok?
    ensures Login(Register(users, username, password).1, username, password).Ok?
    ensures Login(Register(users, username, password).1, username, password).value.username == username.value
  {
  }

  /** With unique names, a registered user logs in only with the password of
      their own record. */
  lemma LoginNeedsOwnPassword(users: seq<User>, i: nat, password: string)
    requires UniqueNames(users)
    requires i < |users| && users[i].username != "" && password != ""
    ensures Login(users, Some(users[i].username), Some(password)).Ok? <==> password == users[i].password
  {
  }
}
