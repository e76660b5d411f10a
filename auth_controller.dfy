/** The user directory: registration and login over the table of users, and the tokens
    they hand out. Hashing and signing are the term models of `UserModel` and `Token`. */
module AuthController {
  import opened Wrappers
  import opened Text
  import opened Http
  import opened UserModel

  const MsgMissingFields := "Please provide all required fields"
  const MsgUserExists := "User with this email or employee ID already exists"
  const MsgMissingCredentials := "Please provide employee ID and password"
  const MsgInvalidCredentials := "Invalid credentials"
  const MsgSecretMissing := "JWT secret key is not configured"
  /** The leading words of a schema validation error's message. */
  const MsgValidationFailed := "User validation failed"

  /** The role given to a new user when the request names none. */
  const DefaultRole := "employee"
  const TokenLifetimeDays := 7

  /** A signed JSON Web Token: its single claim `_id`, the key it was signed with and its
      lifetime in days. */
  datatype Token = Token(subject: Id, key: string, lifetimeDays: nat)

  /** `createToken(_id)`: fails when no secret key is configured (unset or empty);
      otherwise a token whose only claim is the id, signed with the key, valid 7 days. */
  function CreateToken(id: Id, secret: Option<string>): (r: Option<Token>)
    ensures r.None? <==> !Present(secret)
    ensures r.Some? ==> r.value.subject == id && r.value.key == secret.value
                        && r.value.lifetimeDays == TokenLifetimeDays
  {
    if !Present(secret) then None else Some(Token(id, secret.value, TokenLifetimeDays))
  }

  /** A user as sent back to the client: the stored document without its password. */
  datatype UserView = UserView(
    id: Id,
    employeeId: string,
    name: string,
    email: string,
    department: string,
    role: Role)

  /** `user.toObject()` followed by `delete userResponse.password`. */
  function View(id: Id, u: User): UserView {
    UserView(id, u.employeeId, u.name, u.email, u.department, u.role)
  }

  /** The response never reveals anything about the password: two users that differ only
      in their password look the same. */
  lemma ViewOmitsPassword(id: Id, u: User, other: Secret)
    ensures View(id, u) == View(id, u.(password := other))
  {
  }

  /** The body of a successful register or login. */
  datatype Session = Session(token: Token, user: UserView)

  /** The JSON body of a register request; `None` is a field that is absent. */
  datatype RegisterInput = RegisterInput(
    employeeId: Option<string>,
    name: Option<string>,
    email: Option<string>,
    password: Option<string>,
    department: Option<string>,
    role: Option<string>)

  /** The controller's presence check: all five fields truthy. */
  predicate RegisterFieldsPresent(input: RegisterInput) {
    && Present(input.employeeId)
    && Present(input.name)
    && Present(input.email)
    && Present(input.password)
    && Present(input.department)
  }

  /** `User.findOne({ $or: [{ email }, { employeeId }] })` finds a user. The filter values
      are cast by the schema's setters, as stored values were. */
  predicate Taken(users: map<Id, User>, email: string, employeeId: string)
    ensures Taken(users, email, employeeId) <==>
            || FindByEmployeeId(users, Trim(employeeId)).Some?
            || exists id :: id in users && users[id].email == NormalEmail(email)
  {
    exists id :: id in users && (users[id].email == NormalEmail(email) || users[id].employeeId == Trim(employeeId))
  }

  /** `role || 'employee'`. */
  function RequestedRole(input: RegisterInput): string {
    if Present(input.role) then input.role.value else DefaultRole
  }

  /** What the password field is set to in `new User({...})`: the plaintext's bcrypt hash as
      written, or the plaintext itself when the hook is left to hash it. */
  function HandedOver(password: string, hashFirst: bool): Secret {
    if hashFirst then Hash(Plain(password)) else Plain(password)
  }

  function NewUserFields(input: RegisterInput, password: Secret): UserFields {
    UserFields(input.employeeId, input.name, input.email, Some(password), input.department,
               Some(RequestedRole(input)))
  }

  /** A register outcome: the response and the user stored, if any. */
  datatype Registration = Registration(response: Response<Session>, saved: Option<User>)

  /** `register`, with the choice of whether the controller hashes before the document is
      built. The document is validated, then the pre-save hook hashes the password field,
      then the user is stored under `newId`, and only then is the token made, so a missing
      key leaves the user stored behind a 500. */
  function Registering(users: map<Id, User>, newId: Id, input: RegisterInput, secret: Option<string>,
                       hashFirst: bool): (r: Registration)
    ensures !RegisterFieldsPresent(input) ==> r == Registration(BadRequest(MsgMissingFields), None)
    ensures RegisterFieldsPresent(input) && Taken(users, input.email.value, input.employeeId.value)
            ==> r == Registration(BadRequest(MsgUserExists), None)
    ensures r.response.BadRequest? <==>
            !RegisterFieldsPresent(input) || Taken(users, input.email.value, input.employeeId.value)
    ensures r.saved.Some? <==>
            && RegisterFieldsPresent(input)
            && !Taken(users, input.email.value, input.employeeId.value)
            && Validates(NewUserFields(input, HandedOver(input.password.value, hashFirst)))
    ensures r.response.Created? <==> r.saved.Some? && Present(secret)
    ensures r.response.Created? ==>
            r.response.value == Session(Token(newId, secret.value, TokenLifetimeDays), View(newId, r.saved.value))
    ensures r.saved.Some? && !Present(secret) ==> r.response == ServerError(MsgSecretMissing)
    ensures (RegisterFieldsPresent(input) && !Taken(users, input.email.value, input.employeeId.value)
             && r.saved.None?) ==> r.response == ServerError(MsgValidationFailed)
  {
    if !RegisterFieldsPresent(input) then Registration(BadRequest(MsgMissingFields), None)
    else if Taken(users, input.email.value, input.employeeId.value) then
      Registration(BadRequest(MsgUserExists), None)
    else
      match Instantiate(NewUserFields(input, HandedOver(input.password.value, hashFirst)))
      case None => Registration(ServerError(MsgValidationFailed), None)
      case Some(u) =>
        var stored := u.(password := Hash(u.password));
        match CreateToken(newId, secret)
        case None => Registration(ServerError(MsgSecretMissing), Some(stored))
        case Some(t) => Registration(Created(Session(t, View(newId, stored))), Some(stored))
  }

  /** The user register stores: the schema's guarantees hold, the strings are the request's
      after the setters, the role is the requested one or `employee`, the password field is
      the hook's hash of what was handed over (never the plaintext), and neither key is
      already taken. */
  lemma RegisterSavesUser(users: map<Id, User>, newId: Id, input: RegisterInput, secret: Option<string>,
                          hashFirst: bool)
    ensures Registering(users, newId, input, secret, hashFirst).saved.Some? ==>
            && RegisterFieldsPresent(input)
            && var u := Registering(users, newId, input, secret, hashFirst).saved.value;
            && SchemaValid(u)
            && u.employeeId == Trim(input.employeeId.value)
            && u.name == Trim(input.name.value)
            && u.email == Lower(Trim(input.email.value))
            && u.department == Trim(input.department.value)
            && RoleName(u.role) == RequestedRole(input)
            && u.password == Hash(HandedOver(input.password.value, hashFirst))
            && u.password != Plain(input.password.value)
            && (forall id :: id in users ==> users[id].employeeId != u.employeeId && users[id].email != u.email)
  {
  }

  /** `register` as written: the controller hashes the password and the hook hashes it again,
      so the stored field is the hash of a hash, and `minlength` only ever sees a hash. */
  function RegisterResult(users: map<Id, User>, newId: Id, input: RegisterInput, secret: Option<string>): (r: Registration)
    ensures r.saved.Some? ==> RegisterFieldsPresent(input)
                              && r.saved.value.password == Hash(Hash(Plain(input.password.value)))
    ensures r.saved.Some? <==>
            && RegisterFieldsPresent(input)
            && !Taken(users, input.email.value, input.employeeId.value)
            && Present(SetTrimmed(input.employeeId)) && Present(SetTrimmed(input.name))
            && Present(SetEmail(input.email)) && Present(SetTrimmed(input.department))
            && ParseRole(RequestedRole(input)).Some?
  {
    RegisterSavesUser(users, newId, input, secret, true);
    Registering(users, newId, input, secret, true)
  }

  /** `register` with the hashing left to the pre-save hook alone: the stored field is one
      hash of the plaintext, and `minlength` is checked on the plaintext. */
  function IntendedRegisterResult(users: map<Id, User>, newId: Id, input: RegisterInput, secret: Option<string>): (r: Registration)
    ensures r.saved.Some? ==> RegisterFieldsPresent(input)
                              && r.saved.value.password == Hash(Plain(input.password.value))
    ensures r.saved.Some? <==>
            && RegisterFieldsPresent(input)
            && !Taken(users, input.email.value, input.employeeId.value)
            && Present(SetTrimmed(input.employeeId)) && Present(SetTrimmed(input.name))
            && Present(SetEmail(input.email)) && Present(SetTrimmed(input.department))
            && ParseRole(RequestedRole(input)).Some?
            && |input.password.value| >= MinPasswordLength
  {
    RegisterSavesUser(users, newId, input, secret, false);
    Registering(users, newId, input, secret, false)
  }

  /** The ids of the users with employee id `employeeId`. */
  function WithEmployeeId(users: map<Id, User>, employeeId: string): set<Id> {
    set id | id in users && users[id].employeeId == employeeId
  }

  /** A set of ids holding `n` has a least element. */
  lemma {:induction false} LeastExists(ids: set<Id>, n: Id)
    requires n in ids
    ensures exists k :: k in ids && forall j :: j in ids ==> k <= j
    decreases n
  {
    if !forall j :: j in ids ==> n <= j {
      var j :| j in ids && j < n;
      LeastExists(ids, j);
    }
  }

  /** `User.findOne({ employeeId })`: the first user, in the order they were stored, with
      that employee id; under unique keys, the only one. */
  function FindByEmployeeId(users: map<Id, User>, employeeId: string): (r: Option<Id>)
    ensures r.Some? ==> r.value in users && users[r.value].employeeId == employeeId
    ensures r.Some? ==> forall id :: id in users && users[id].employeeId == employeeId ==> r.value <= id
    ensures r.None? <==> forall id :: id in users ==> users[id].employeeId != employeeId
    ensures UniqueKeys(users) ==>
            forall id :: id in users && users[id].employeeId == employeeId ==> r == Some(id)
  {
    var ids := WithEmployeeId(users, employeeId);
    if ids == {} then
      assert forall id :: id in users && users[id].employeeId == employeeId ==> id in ids;
      None
    else
      var some :| some in ids;
      LeastExists(ids, some);
      var id :| id in ids && forall j :: j in ids ==> id <= j;
      assert forall j :: j in users && users[j].employeeId == employeeId ==> j in ids;
      Some(id)
  }

  /** `login`: 400 without both fields; the one 401 "Invalid credentials" whether the
      employee id is unknown or the password is wrong; 500 without a key; else a token. */
  function LoginResult(users: map<Id, User>, employeeId: Option<string>, password: Option<string>,
                       secret: Option<string>): (r: Response<Session>)
    ensures !Present(employeeId) || !Present(password) ==> r == BadRequest(MsgMissingCredentials)
    ensures Present(employeeId) && Present(password)
            && (forall id :: id in users && users[id].employeeId == Trim(employeeId.value)
                             ==> !Compare(password.value, users[id].password))
            ==> r == Unauthorized(MsgInvalidCredentials)
    ensures r.Ok? ==> && Present(employeeId) && Present(password) && Present(secret)
                      && exists id :: && id in users && users[id].employeeId == Trim(employeeId.value)
                                      && Compare(password.value, users[id].password)
                                      && r.value == Session(Token(id, secret.value, TokenLifetimeDays), View(id, users[id]))
  {
    if !Present(employeeId) || !Present(password) then BadRequest(MsgMissingCredentials)
    else
      var e := Trim(employeeId.value);
      var found := FindByEmployeeId(users, e);
      if found.None? then Unauthorized(MsgInvalidCredentials)
      else
        var id := found.value;
        if !Compare(password.value, users[id].password) then Unauthorized(MsgInvalidCredentials)
        else if !Present(secret) then ServerError(MsgSecretMissing)
        else Ok(Session(CreateToken(id, secret).value, View(id, users[id])))
  }

  /** An unknown employee id and a wrong password get the very same response, so a client
      cannot tell which employee ids exist. */
  lemma UnknownIdLooksLikeWrongPassword(users: map<Id, User>, unknown: string, known: string,
                                        p1: string, p2: string, secret: Option<string>)
    requires unknown != "" && known != "" && p1 != "" && p2 != ""
    requires forall id :: id in users ==> users[id].employeeId != Trim(unknown)
    requires exists id :: id in users && users[id].employeeId == Trim(known)
    requires forall id :: id in users && users[id].employeeId == Trim(known) ==> !Compare(p2, users[id].password)
    ensures LoginResult(users, Some(unknown), Some(p1), secret) == LoginResult(users, Some(known), Some(p2), secret)
    ensures LoginResult(users, Some(unknown), Some(p1), secret) == Unauthorized(MsgInvalidCredentials)
  {
  }

  /** Storing a registered user keeps both keys unique. */
  lemma {:induction false} RegisterKeepsKeysUnique(users: map<Id, User>, newId: Id, input: RegisterInput,
                                                   secret: Option<string>, hashFirst: bool)
    requires UniqueKeys(users) && newId !in users
    requires Registering(users, newId, input, secret, hashFirst).saved.Some?
    ensures UniqueKeys(users[newId := Registering(users, newId, input, secret, hashFirst).saved.value])
  {
    RegisterSavesUser(users, newId, input, secret, hashFirst);
    AddKeepsKeysUnique(users, newId, Registering(users, newId, input, secret, hashFirst).saved.value);
  }

  /** The lookup finds a user whose employee id nobody else has. */
  lemma FindsOnlyMatch(users: map<Id, User>, id: Id, employeeId: string)
    requires id in users && users[id].employeeId == employeeId
    requires forall other :: other in users && other != id ==> users[other].employeeId != employeeId
    ensures FindByEmployeeId(users, employeeId) == Some(id)
  {
  }

  /** Logging in under the employee id of a user whom no one else shares depends on that
      user's password field and the key alone. */
  lemma LoginAsOnlyMatch(users: map<Id, User>, newId: Id, u: User, employeeId: string, password: string,
                         secret: Option<string>)
    requires newId !in users && employeeId != "" && password != ""
    requires u.employeeId == Trim(employeeId)
    requires forall id :: id in users ==> users[id].employeeId != u.employeeId
    ensures LoginResult(users[newId := u], Some(employeeId), Some(password), secret)
            == if !Compare(password, u.password) then Unauthorized(MsgInvalidCredentials)
               else if !Present(secret) then ServerError(MsgSecretMissing)
               else Ok(Session(Token(newId, secret.value, TokenLifetimeDays), View(newId, u)))
  {
    FindsOnlyMatch(users[newId := u], newId, u.employeeId);
  }

  /** As written, no password ever logs a newly registered user in: the stored field is
      the hash of the plaintext's hash, and `bcrypt.compare` checks for the hash of the
      plaintext. */
  lemma {:induction false} RegisteredUserCannotLogIn(users: map<Id, User>, newId: Id, input: RegisterInput,
                                                     secret: Option<string>, password: string)
    requires newId !in users
    requires RegisterResult(users, newId, input, secret).saved.Some?
    requires password != ""
    ensures LoginResult(users[newId := RegisterResult(users, newId, input, secret).saved.value],
                        input.employeeId, Some(password), secret)
            == Unauthorized(MsgInvalidCredentials)
  {
    var u := RegisterResult(users, newId, input, secret).saved.value;
    RegisterSavesUser(users, newId, input, secret, true);
    LoginAsOnlyMatch(users, newId, u, input.employeeId.value, password, secret);
  }

  /** As written, the length of the plaintext is never checked: whenever one password is
      accepted, so is any other non-empty one, however short. */
  lemma PasswordLengthIgnored(users: map<Id, User>, newId: Id, input: RegisterInput,
                              secret: Option<string>, other: string)
    requires RegisterResult(users, newId, input, secret).saved.Some?
    requires other != ""
    ensures RegisterResult(users, newId, input.(password := Some(other)), secret).saved.Some?
  {
  }

  /** Any password of one to five characters is accepted as written, for a form whose other
      fields are well-formed and whose keys are unused, while the intended schema refuses
      the same form. */
  lemma ShortPasswordAccepted(users: map<Id, User>, newId: Id, employeeId: string, name: string,
                              email: string, password: string, department: string, secret: Option<string>)
    requires employeeId != "" && Trimmed(employeeId) && name != "" && Trimmed(name)
    requires department != "" && Trimmed(department)
    requires email != "" && Trimmed(email) && LowerCase(email)
    requires 0 < |password| < MinPasswordLength
    requires !Taken(users, email, employeeId)
    ensures var input := RegisterInput(Some(employeeId), Some(name), Some(email), Some(password), Some(department), None);
            RegisterResult(users, newId, input, secret).saved.Some?
            && IntendedRegisterResult(users, newId, input, secret).saved.None?
  {
    var input := RegisterInput(Some(employeeId), Some(name), Some(email), Some(password), Some(department), None);
    TrimFixesTrimmed(employeeId);
    TrimFixesTrimmed(name);
    TrimFixesTrimmed(email);
    TrimFixesTrimmed(department);
    assert |SetEmail(input.email).value| == |email|;
    assert RequestedRole(input) == RoleName(Employee);
  }

  /** With the hashing left to the hook, a newly registered user logs in with the password
      they registered with, and receives their own record. */
  lemma {:induction false} IntendedRegistrationLogsIn(users: map<Id, User>, newId: Id, input: RegisterInput,
                                                      secret: Option<string>)
    requires newId !in users
    requires IntendedRegisterResult(users, newId, input, secret).saved.Some?
    requires Present(secret)
    ensures var u := IntendedRegisterResult(users, newId, input, secret).saved.value;
            LoginResult(users[newId := u], input.employeeId, input.password, secret)
            == Ok(Session(Token(newId, secret.value, TokenLifetimeDays), View(newId, u)))
  {
    var u := IntendedRegisterResult(users, newId, input, secret).saved.value;
    RegisterSavesUser(users, newId, input, secret, false);
    LoginAsOnlyMatch(users, newId, u, input.employeeId.value, input.password.value, secret);
  }

  /** With the hashing left to the hook, a password shorter than 6 characters is refused
      by validation, and nothing is stored. */
  lemma IntendedRegistrationRefusesShortPassword(users: map<Id, User>, newId: Id, input: RegisterInput,
                                                 secret: Option<string>)
    requires RegisterFieldsPresent(input) && !Taken(users, input.email.value, input.employeeId.value)
    requires |input.password.value| < MinPasswordLength
    ensures IntendedRegisterResult(users, newId, input, secret) == Registration(ServerError(MsgValidationFailed), None)
  {
  }

  /** What holds of the user table at all times: ids below the next fresh one, every user
      as the schema guarantees, and both keys unique. */
  predicate DirectoryValid(users: map<Id, User>, nextId: Id) {
    && (forall id :: id in users ==> id < nextId && SchemaValid(users[id]))
    && UniqueKeys(users)
  }

  /** Storing a valid user whose keys are both unused, under the next fresh id, keeps the
      table valid. */
  lemma AddUserKeepsDirectoryValid(users: map<Id, User>, nextId: Id, u: User)
    requires DirectoryValid(users, nextId) && SchemaValid(u)
    requires forall id :: id in users ==> users[id].employeeId != u.employeeId && users[id].email != u.email
    ensures DirectoryValid(users[nextId := u], nextId + 1)
  {
    AddKeepsKeysUnique(users, nextId, u);
  }

  /** Once the presence and duplicate checks pass, register's outcome is decided by the
      validation of the document and by whether a key is configured. */
  lemma RegisterAfterChecks(users: map<Id, User>, newId: Id, input: RegisterInput, secret: Option<string>)
    requires RegisterFieldsPresent(input) && !Taken(users, input.email.value, input.employeeId.value)
    ensures var built := Instantiate(NewUserFields(input, Hash(Plain(input.password.value))));
            RegisterResult(users, newId, input, secret) ==
              if built.None? then Registration(ServerError(MsgValidationFailed), None)
              else
                var stored := built.value.(password := Hash(built.value.password));
                Registration(if Present(secret)
                             then Created(Session(Token(newId, secret.value, TokenLifetimeDays), View(newId, stored)))
                             else ServerError(MsgSecretMissing),
                             Some(stored))
  {
    assert HandedOver(input.password.value, true) == Hash(Plain(input.password.value));
  }

  /** The user table: the stored users, and the next fresh id. */
  class UserDirectory {
    var users: map<Id, User>
    var nextId: Id

    ghost predicate Valid()
      reads this
    {
      DirectoryValid(users, nextId)
    }

    constructor ()
      ensures Valid() && users == map[]
    {
      users := map[];
      nextId := 0;
    }

    /** `user.save()` once validation and the hook have run: the user is stored under the
        next fresh id. */
    method Store(u: User)
      requires Valid() && SchemaValid(u)
      requires forall id :: id in users ==> users[id].employeeId != u.employeeId && users[id].email != u.email
      modifies this
      ensures Valid()
      ensures users == old(users)[old(nextId) := u] && nextId == old(nextId) + 1
    {
      AddUserKeepsDirectoryValid(users, nextId, u);
      users, nextId := users[nextId := u], nextId + 1;
    }

    /** `register` as written: checks, hashes, builds and validates the document, runs its
        pre-save hook, stores it, and then makes the token. */
    method Register(input: RegisterInput, secret: Option<string>) returns (r: Response<Session>)
      requires Valid()
      modifies this
      ensures Valid()
      ensures r == RegisterResult(old(users), old(nextId), input, secret).response
      ensures users == match RegisterResult(old(users), old(nextId), input, secret).saved
                       case None => old(users)
                       case Some(u) => old(users)[old(nextId) := u]
      ensures nextId == old(nextId) + (if RegisterResult(old(users), old(nextId), input, secret).saved.Some? then 1 else 0)
    {
      var table, id := users, nextId;
      if !RegisterFieldsPresent(input) {
        return BadRequest(MsgMissingFields);
      }
      var taken := Taken(table, input.email.value, input.employeeId.value);
      if taken {
        return BadRequest(MsgUserExists);
      }
      RegisterAfterChecks(table, id, input, secret);
      var built := Instantiate(NewUserFields(input, Hash(Plain(input.password.value))));
      if built.None? {
        return ServerError(MsgValidationFailed);
      }
      var doc := new UserDocument(built.value);
      doc.PreSave();
      var stored := doc.user;
      RegisterSavesUser(table, id, input, secret, true);
      Store(stored);
      var token := CreateToken(id, secret);
      if token.None? {
        return ServerError(MsgSecretMissing);
      }
      r := Created(Session(token.value, View(id, stored)));
    }
  }
}
