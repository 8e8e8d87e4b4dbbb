/**
 * POST /api/users: the registration checks and what they let through to
 * User.create.
 */
module Users {
  import opened Wrappers
  import opened Text
  import opened Http
  import opened ObjectIds
  import opened Collections
  import opened Models

  /** One field of a JSON body: missing, a string, or a value of another type
      (`truthy` as JavaScript would judge it: null, 0 and false are falsy). */
  datatype Field = Absent | Str(s: string) | Other(truthy: bool)

  datatype RegistrationBody = RegistrationBody(username: Field, password: Field, fullname: Field)

  /** The outcome of the checks: an error, or the values handed to User.create. */
  datatype Verdict =
    | Rejected(error: Raised)
    | Accepted(username: string, password: string, fullname: Option<string>)

  const MissingUsername := "Missing 'username' in request body"
  const MissingPassword := "Missing 'password' in request body"
  const WrongType := "Incorrect field type: expected string"
  const Untrimmed := "Cannot start or end with whitespace"
  const UsernameTooShort := "Field: 'username' must be at least 6 characters long"
  const PasswordTooShort := "Field: 'password' must be at least 8 characters long"
  const PasswordTooLong := "Field: 'password' must be at most 72 characters long"
  const UsernameTaken := "The username already exists"

  const UsernameMin := 6
  const PasswordMin := 8
  const PasswordMax := 72

  function Unprocessable(message: string): Raised {
    WithStatus(422, message)
  }

  /** JavaScript truthiness of a field. */
  predicate Truthy(f: Field) {
    match f
    case Absent => false
    case Str(s) => s != ""
    case Other(t) => t
  }

  /** What the checks accept: both credentials are strings with no surrounding
      whitespace and within their length bounds, and a fullname, if sent, is a
      string. */
  predicate Acceptable(b: RegistrationBody) {
    b.username.Str? && b.password.Str? && !b.fullname.Other?
    && Trimmed(b.username.s) && Trimmed(b.password.s)
    && |b.username.s| >= UsernameMin
    && PasswordMin <= |b.password.s| <= PasswordMax
  }

  /** The chain of 422 checks: missing fields (username first), then types, then
      whitespace, then minimum lengths (username first), then the maximum; the first
      failure is the answer. */
  function FieldCheck(b: RegistrationBody): (r: Option<Raised>)
    ensures r.Some? ==> r.value.WithStatus? && r.value.status == 422
    ensures r.None? <==> Acceptable(b)
    ensures b.username.Absent? ==> r == Some(Unprocessable(MissingUsername))
    ensures !b.username.Absent? && b.password.Absent? ==> r == Some(Unprocessable(MissingPassword))
    ensures !b.username.Absent? && !b.password.Absent?
            && (b.username.Other? || b.password.Other? || b.fullname.Other?)
            ==> r == Some(Unprocessable(WrongType))
    ensures b.username.Str? && b.password.Str? && !b.fullname.Other?
            && !(Trimmed(b.username.s) && Trimmed(b.password.s))
            ==> r == Some(Unprocessable(Untrimmed))
    ensures b.username.Str? && b.password.Str? && !b.fullname.Other?
            && Trimmed(b.username.s) && Trimmed(b.password.s)
            ==> (|b.username.s| < UsernameMin ==> r == Some(Unprocessable(UsernameTooShort)))
                && (|b.username.s| >= UsernameMin && |b.password.s| < PasswordMin
                    ==> r == Some(Unprocessable(PasswordTooShort)))
                && (|b.username.s| >= UsernameMin && |b.password.s| > PasswordMax
                    ==> r == Some(Unprocessable(PasswordTooLong)))
  {
    if b.username.Absent? then Some(Unprocessable(MissingUsername))
    else if b.password.Absent? then Some(Unprocessable(MissingPassword))
    else if !b.username.Str? || !b.password.Str? || b.fullname.Other? then
      Some(Unprocessable(WrongType))
    else
      var username, password := b.username.s, b.password.s;
      if Trim(username) != username || Trim(password) != password then
        Some(Unprocessable(Untrimmed))
      else if |Trim(username)| < UsernameMin then Some(Unprocessable(UsernameTooShort))
      else if |Trim(password)| < PasswordMin then Some(Unprocessable(PasswordTooShort))
      else if |Trim(password)| > PasswordMax then Some(Unprocessable(PasswordTooLong))
      else None
  }

  /** Registration as the route is written: a truthy fullname is trimmed before any
      check (a non-string one has no `trim` and throws), and after the checks
      `fullname.trim()` is called unconditionally, which throws when no fullname
      was sent. */
  function RegistrationAsWritten(b: RegistrationBody): (v: Verdict)
    ensures b.fullname.Other? && b.fullname.truthy ==> v == Rejected(Crash)
    ensures Acceptable(b) && b.fullname.Absent? ==> v == Rejected(Crash)
    ensures v.Accepted? ==> Acceptable(b) && b.fullname.Str?
  {
    if Truthy(b.fullname) && !b.fullname.Str? then Rejected(Crash)
    else
      match FieldCheck(b)
      case Some(e) => Rejected(e)
      case None =>
        if !b.fullname.Str? then Rejected(Crash)
        else
          var early := if Truthy(b.fullname) then Trim(b.fullname.s) else b.fullname.s;
          Accepted(b.username.s, b.password.s, Some(Trim(early)))
  }

  /** Registration as the schema intends it: fullname is optional, a non-string one
      is a type error like any other, and a string one is stored trimmed. */
  function Registration(b: RegistrationBody): (v: Verdict)
    ensures v.Accepted? <==> Acceptable(b)
    ensures v.Rejected? ==> FieldCheck(b) == Some(v.error) && v.error.WithStatus? && v.error.status == 422
    ensures v.Accepted? ==> v.username == b.username.s && v.password == b.password.s
    ensures v.Accepted? ==> v.username != "" && v.password != ""
    ensures v.Accepted? ==> (v.fullname.None? <==> b.fullname.Absent?)
    ensures v.Accepted? && b.fullname.Str? ==> v.fullname == Some(Trim(b.fullname.s))
  {
    match FieldCheck(b)
    case Some(e) => Rejected(e)
    case None =>
      Accepted(b.username.s, b.password.s, if b.fullname.Str? then Some(Trim(b.fullname.s)) else None)
  }

  /** The route after its checks: the digest of the password is stored (an empty
      digest fails the schema's `required`, an error without a status), and the unique
      index on `username` turns a taken name into a 400. */
  function Register(users: seq<User>, b: RegistrationBody, digest: string, id: Id, now: nat)
    : (o: Outcome<User, seq<User>>)
    requires !Has(users, UserId, id)
    ensures Registration(b).Rejected? ==> o == Outcome(Reply(Registration(b).error), users)
    ensures Registration(b).Accepted? && digest == ""
            ==> o == Outcome(Error(500, "Internal Server Error"), users)
    ensures Registration(b).Accepted? && digest != "" && Has(users, Username, b.username.s)
            ==> o == Outcome(Error(400, UsernameTaken), users)
    ensures o.response.Created? <==> Acceptable(b) && digest != "" && !Has(users, Username, b.username.s)
    ensures o.response.Created? ==>
              o.response.body == User(id, b.username.s, digest, Registration(b).fullname, now, now)
              && o.after == users + [o.response.body]
    ensures !o.response.Created? ==> o.after == users
    ensures UsersValid(users) ==> UsersValid(o.after)
  {
    match Registration(b)
    case Rejected(e) => Outcome(Reply(e), users)
    case Accepted(username, _, fullname) =>
      if digest == "" then Outcome(Reply(Crash), users)
      else if Count(users, Username, username) > 0 then Outcome(Reply(BadRequest(UsernameTaken)), users)
      else
        var u := User(id, username, digest, fullname, now, now);
        assert UsersValid(users) ==> UsersValid(users + [u]) by {
          if UsersValid(users) {
            AppendKeepsUsersValid(users, u);
          }
        }
        Outcome(Created(u), users + [u])
  }

  /** The unique indexes and the required fields admit a user with a fresh id, a
      fresh username and non-empty credentials. */
  lemma AppendKeepsUsersValid(users: seq<User>, u: User)
    requires UsersValid(users)
    requires !Has(users, UserId, u.id) && !Has(users, Username, u.username)
    requires u.username != "" && u.password != ""
    ensures UsersValid(users + [u])
  {
    var after := users + [u];
    UniqueAppend(users, u, UserId);
    UniqueAppend(users, u, Username);
    assert forall i :: 0 <= i < |users| ==> after[i] == users[i];
  }

  /** A user that registration created validates exactly the stored digest: the
      plaintext password validates only when the digest is that password itself. */
  lemma RegisteredUserValidatesDigest(users: seq<User>, b: RegistrationBody, digest: string,
                                      id: Id, now: nat, candidate: string)
    requires !Has(users, UserId, id)
    requires Register(users, b, digest, id, now).response.Created?
    ensures ValidatePassword(Register(users, b, digest, id, now).response.body, candidate)
            <==> candidate == digest
    ensures ValidatePassword(Register(users, b, digest, id, now).response.body, b.password.s)
            <==> digest == b.password.s
  {
  }

  /** The two readings disagree exactly on a truthy non-string fullname and on an
      otherwise acceptable body without a fullname; everywhere else the route does
      what the schema intends. */
  lemma AsWrittenDiffersOnlyOnFullname(b: RegistrationBody)
    ensures RegistrationAsWritten(b) != Registration(b)
            <==> (b.fullname.Other? && b.fullname.truthy) || (Acceptable(b) && b.fullname.Absent?)
  {
    if b.fullname.Str? && Acceptable(b) {
      var s := b.fullname.s;
      TrimIdempotent(s);
      assert Trim("") == "" by { assert Trimmed(""); }
    }
  }

  /** Registering with credentials that pass every check but no fullname fails with
      a 500, although the schema makes fullname optional. */
  lemma MissingFullnameCrashes(username: string, password: string)
    requires Acceptable(RegistrationBody(Str(username), Str(password), Absent))
    ensures RegistrationAsWritten(RegistrationBody(Str(username), Str(password), Absent)) == Rejected(Crash)
    ensures Registration(RegistrationBody(Str(username), Str(password), Absent)) == Accepted(username, password, None)
  {
  }

  /** The body of the registration tests passes every check. */
  lemma ExampleCredentialsAcceptable()
    ensures Acceptable(RegistrationBody(Str("exampleUser"), Str("examplePassword"), Absent))
  {
    assert Trimmed("exampleUser") && Trimmed("examplePassword");
  }

  /** A numeric fullname fails with a 500 before the type check could answer 422. */
  lemma NumericFullnameCrashes()
    ensures var b := RegistrationBody(Str("exampleUser"), Str("examplePassword"), Other(true));
            RegistrationAsWritten(b) == Rejected(Crash)
            && Registration(b) == Rejected(Unprocessable(WrongType))
  {
  }
}
