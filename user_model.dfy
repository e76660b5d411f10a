/** The User schema: the record shape, the role enum and its default, the trim and
    lowercase setters, `required` and `minlength` validation, the two unique keys, and the
    pre-save hook that hashes the password whenever it has been modified. */
module UserModel {
  import opened Wrappers
  import opened Text

  datatype Role = Employee | Manager | Admin

  function RoleName(r: Role): string {
    match r
    case Employee => "employee"
    case Manager => "manager"
    case Admin => "admin"
  }

  /** The `enum` validator of `role`: exactly the three lower-case names are accepted. */
  function ParseRole(s: string): (r: Option<Role>)
    ensures forall role :: r == Some(role) <==> s == RoleName(role)
  {
    if s == "employee" then Some(Employee)
    else if s == "manager" then Some(Manager)
    else if s == "admin" then Some(Admin)
    else None
  }

  /** The value held in a password field: a plaintext as it arrived, or a bcrypt hash of
      some earlier value. Hashing is a free constructor, so a hash equals another hash only
      when their inputs are equal, and never equals a plaintext. */
  datatype Secret = Plain(text: string) | Hashed(preimage: Secret)

  /** `bcrypt.hash(value, salt)`: the salt and the cost factor are not modelled. */
  function Hash(s: Secret): (h: Secret)
    ensures h != s
  {
    HashIsNew(s);
    Hashed(s)
  }

  /** No value is its own hash, however many times it has been hashed already. */
  lemma {:induction false} HashIsNew(s: Secret)
    ensures Hashed(s) != s
  {
    if s.Hashed? {
      HashIsNew(s.preimage);
    }
  }

  /** `bcrypt.compare(candidate, stored)`: true exactly when `stored` is a hash of the
      plaintext `candidate`. */
  predicate Compare(candidate: string, stored: Secret)
    ensures Compare(candidate, stored) ==> StoredLength(stored) == BcryptHashLength && stored != Plain(candidate)
  {
    stored == Hash(Plain(candidate))
  }

  /** In the term model a hash of a plaintext accepts that plaintext and no other; bcrypt
      itself reads only a password's first 72 bytes. */
  lemma CompareIsExact(candidate: string, password: string)
    ensures Compare(candidate, Hash(Plain(password))) <==> candidate == password
  {
  }

  /** In the term model a hash of a hash accepts no plaintext at all; bcrypt would accept
      the inner hash string typed as a password. */
  lemma DoubleHashMatchesNothing(candidate: string, s: Secret)
    ensures !Compare(candidate, Hash(Hash(s)))
  {
    HashIsNew(Plain(candidate));
  }

  /** Every bcrypt hash string is 60 characters long. */
  const BcryptHashLength := 60

  /** The `minlength` of the password field. */
  const MinPasswordLength := 6

  /** The length of the string a password field holds. */
  function StoredLength(s: Secret): nat {
    match s
    case Plain(t) => |t|
    case Hashed(_) => BcryptHashLength
  }

  /** A stored user; `password` is whatever the password field holds when it is written. */
  datatype User = User(
    employeeId: string,
    name: string,
    email: string,
    password: Secret,
    department: string,
    role: Role)

  /** The values handed to the schema's constructor; `None` is a field left undefined. */
  datatype UserFields = UserFields(
    employeeId: Option<string>,
    name: Option<string>,
    email: Option<string>,
    password: Option<Secret>,
    department: Option<string>,
    role: Option<string>)

  /** The setters of `email`: trim, then lowercase. */
  function NormalEmail(s: string): (r: string)
    ensures Trimmed(r) && LowerCase(r)
    ensures r == Lower(Trim(s))
  {
    var t := Trim(s);
    LowerKeepsTrimmed(t);
    Lower(t)
  }

  function SetEmail(x: Option<string>): Option<string> {
    match x
    case None => None
    case Some(s) => Some(NormalEmail(s))
  }

  /** The role a user is created with: the `default: 'employee'` when none is given. */
  function RoleOf(x: Option<string>): Option<Role> {
    match x
    case None => Some(Employee)
    case Some(s) => ParseRole(s)
  }

  /** What the schema guarantees of every stored user: required strings non-empty and
      trimmed, the email also lowercased, and a password field of at least 6 characters. */
  predicate SchemaValid(u: User) {
    && u.employeeId != "" && Trimmed(u.employeeId)
    && u.name != "" && Trimmed(u.name)
    && u.email != "" && Trimmed(u.email) && LowerCase(u.email)
    && StoredLength(u.password) >= MinPasswordLength
    && u.department != "" && Trimmed(u.department)
  }

  /** True when the fields pass validation once the setters have run: `required` fails on
      undefined and on the empty string, `minlength` is checked on the field's own value. */
  predicate Validates(f: UserFields) {
    && Present(SetTrimmed(f.employeeId))
    && Present(SetTrimmed(f.name))
    && Present(SetEmail(f.email))
    && f.password.Some? && StoredLength(f.password.value) >= MinPasswordLength
    && Present(SetTrimmed(f.department))
    && RoleOf(f.role).Some?
  }

  /** Construct and validate a user document, as `new User({...})` followed by the
      validation that runs at `save()` before any pre-save hook. */
  function Instantiate(f: UserFields): (r: Option<User>)
    ensures r.Some? <==> Validates(f)
    ensures r.Some? ==> SchemaValid(r.value)
    ensures r.Some? ==> && Some(r.value.employeeId) == SetTrimmed(f.employeeId)
                        && Some(r.value.name) == SetTrimmed(f.name)
                        && r.value.email == Lower(Trim(f.email.value))
                        && Some(r.value.department) == SetTrimmed(f.department)
                        && Some(r.value.password) == f.password
                        && (f.role.None? ==> r.value.role == Employee)
                        && (f.role.Some? ==> RoleName(r.value.role) == f.role.value)
  {
    if !Validates(f) then None
    else
      Some(User(
        employeeId := SetTrimmed(f.employeeId).value,
        name := SetTrimmed(f.name).value,
        email := SetEmail(f.email).value,
        password := f.password.value,
        department := SetTrimmed(f.department).value,
        role := RoleOf(f.role).value))
  }

  /** The `unique` indexes on `employeeId` and `email`: no two stored users share either. */
  predicate UniqueKeys(users: map<Id, User>) {
    forall i, j {:trigger users[i], users[j]} :: i in users && j in users && i != j ==>
      users[i].employeeId != users[j].employeeId && users[i].email != users[j].email
  }

  /** Adding a user whose keys are both unused keeps the keys unique. */
  lemma AddKeepsKeysUnique(users: map<Id, User>, id: Id, u: User)
    requires UniqueKeys(users) && id !in users
    requires forall k :: k in users ==> users[k].employeeId != u.employeeId && users[k].email != u.email
    ensures UniqueKeys(users[id := u])
  {
  }

  /** A document being saved: its field values and whether `password` has been set since
      it was last stored. */
  class UserDocument {
    var user: User
    var passwordModified: bool

    /** `new User({...})` after validation: every field of a new document counts as modified. */
    constructor (u: User)
      ensures user == u && passwordModified
    {
      user := u;
      passwordModified := true;
    }

    /** The pre-save hook: when the password has been modified, it is replaced in place by
        its hash; nothing else changes. */
    method PreSave()
      modifies this
      ensures passwordModified == old(passwordModified)
      ensures old(passwordModified) ==> user == old(user).(password := Hash(old(user.password)))
      ensures !old(passwordModified) ==> user == old(user)
    {
      if passwordModified {
        user := user.(password := Hash(user.password));
      }
    }
  }

  /** Hashing a field keeps the schema's guarantees: a hash is always long enough. */
  lemma HashKeepsSchemaValid(u: User)
    requires SchemaValid(u)
    ensures SchemaValid(u.(password := Hash(u.password)))
  {
  }
}
