/** The credential store: users loaded from a TOML table of username -> bcrypt hash,
    and the three-way login classification. bcrypt's `verify` is a parameter. */
module Users {
  import opened Wrappers
  import Lists

  /** A stored credential; `password` holds the bcrypt hash. */
  datatype User = User(username: string, password: string)

  datatype Users = Users(users: seq<User>)

  datatype LoginResult = UserNotFound | WrongPassword | Correct

  /** Whatever bcrypt reports for a hash it cannot use. */
  datatype BcryptError = BcryptError(reason: string)

  /** bcrypt's `verify(password, hash)`, left uninterpreted. */
  type Verifier = (string, string) -> Result<bool, BcryptError>

  /** A value of the TOML users table: a string or anything else. */
  datatype TomlValue = TomlString(text: string) | TomlOther

  /** The load-time failure: the value under `key` is not a string. */
  datatype LoadError = NotAString(key: string)

  /** The search predicate of `login`: the user's name is exactly `username`. */
  function NameIs(username: string): User -> bool
  {
    (u: User) => u.username == username
  }

  /** The table -> users mapping of `from_file`, over the table's entries in iteration
      order: one user per entry, failing at the first entry whose value is not a string. */
  function FromTable(entries: seq<(string, TomlValue)>): (r: Result<Users, LoadError>)
    ensures r.Success? <==> forall i :: 0 <= i < |entries| ==> entries[i].1.TomlString?
    ensures r.Success? ==> |r.value.users| == |entries|
    ensures r.Success? ==> forall i :: 0 <= i < |entries| ==>
      r.value.users[i] == User(entries[i].0, entries[i].1.text)
    ensures r.Failure? ==> exists i :: (0 <= i < |entries| && !entries[i].1.TomlString?
                                        && r.error == NotAString(entries[i].0)
                                        && forall j :: 0 <= j < i ==> entries[j].1.TomlString?)
  {
    if |entries| == 0 then Success(Users([]))
    else match entries[0].1
      case TomlOther => Failure(NotAString(entries[0].0))
      case TomlString(hash) =>
        match FromTable(entries[1..])
        case Failure(e) => Failure(e)
        case Success(rest) => Success(Users([User(entries[0].0, hash)] + rest.users))
  }

  /** Classifies a login attempt: the first user whose name equals `username` exactly
      decides; `Correct` only when `verify` answers `Ok(true)` for that user's hash. */
  function Login(u: Users, username: string, password: string, verify: Verifier): (r: LoginResult)
    ensures r.UserNotFound? <==> forall i :: 0 <= i < |u.users| ==> u.users[i].username != username
    ensures r.Correct? <==> exists i :: (Lists.IsFirst(u.users, NameIs(username), i)
                                         && verify(password, u.users[i].password) == Success(true))
    ensures r.WrongPassword? <==> exists i :: (Lists.IsFirst(u.users, NameIs(username), i)
                                               && verify(password, u.users[i].password) != Success(true))
  {
    match Lists.FindFirst(u.users, NameIs(username))
    case None => UserNotFound
    case Some(i) =>
      match verify(password, u.users[i].password)
      case Success(valid) => if valid then Correct else WrongPassword
      case Failure(_) => WrongPassword
  }

  /** With duplicate usernames, only the first entry's hash matters: appending any
      further users does not change the outcome for a name already present. */
  lemma LoginFirstEntryDecides(a: seq<User>, hash: string, b: seq<User>,
                               username: string, password: string, verify: Verifier)
    requires forall j :: 0 <= j < |a| ==> a[j].username != username
    ensures Login(Users(a + [User(username, hash)] + b), username, password, verify)
         == (if verify(password, hash) == Success(true) then Correct else WrongPassword)
  {
    var users := a + [User(username, hash)] + b;
    assert users[|a|] == User(username, hash);
    assert Lists.IsFirst(users, NameIs(username), |a|);
  }

  /** A table with distinct keys yields users with distinct usernames. */
  lemma FromTableUniqueNames(entries: seq<(string, TomlValue)>)
    requires forall i, j :: 0 <= i < j < |entries| ==> entries[i].0 != entries[j].0
    requires FromTable(entries).Success?
    ensures forall i, j :: 0 <= i < j < |FromTable(entries).value.users| ==>
      FromTable(entries).value.users[i].username != FromTable(entries).value.users[j].username
  {
  }

  /** With unique usernames, a name is accepted exactly when its own hash verifies. */
  lemma LoginUniqueNames(u: Users, k: nat, password: string, verify: Verifier)
    requires k < |u.users|
    requires forall i, j :: 0 <= i < j < |u.users| ==> u.users[i].username != u.users[j].username
    ensures Login(u, u.users[k].username, password, verify).Correct?
        <==> verify(password, u.users[k].password) == Success(true)
  {
    assert Lists.IsFirst(u.users, NameIs(u.users[k].username), k);
    forall i | Lists.IsFirst(u.users, NameIs(u.users[k].username), i)
      ensures i == k
    {
    }
  }
}
