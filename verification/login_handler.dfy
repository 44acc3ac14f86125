/** The older, self-contained login handler: it reads the `username` and `password`
    form parameters, looks the username up in a list of plaintext passwords, and
    always answers with a 302 redirect to one of five fixed locations. */
module LoginHandler {
  import opened Wrappers
  import Lists

  /** A stored login; `password` is kept in plaintext. */
  datatype Password = Password(username: string, password: string)

  /** A decoded request parameter: a string, or any other kind of value. */
  datatype ParamValue = StringValue(text: string) | OtherValue

  /** HTTP status 302. */
  const Found: nat := 302

  const NoUsername: string := "/?error=no_username"
  const NoPassword: string := "/?error=no_password"
  const WrongUsername: string := "/?error=wrong_username"
  const CorrectLogin: string := "/?correct"
  const WrongPassword: string := "/?wrong_password"

  datatype Response = Response(status: nat, location: string)

  /** The handler's error type; it is never produced. */
  datatype IronError = IronError(reason: string)

  /** A parameter counts only when it is present and a string. */
  function StringParam(v: Option<ParamValue>): (r: Option<string>)
    ensures r.Some? <==> v.Some? && v.value.StringValue?
    ensures r.Some? ==> r.value == v.value.text
  {
    match v
    case Some(StringValue(text)) => Some(text)
    case _ => None
  }

  /** The search predicate of `process_login`: the stored login is for `username`. */
  function UsernameIs(username: string): Password -> bool
  {
    (p: Password) => username == p.username
  }

  /** `process_login`: one redirect for every combination of parameters. */
  function ProcessLogin(passwords: seq<Password>, username: Option<ParamValue>,
                        password: Option<ParamValue>): (r: Result<Response, IronError>)
    ensures r.Success? && r.value.status == Found
    ensures r.value.location == NoUsername <==> StringParam(username).None?
    ensures r.value.location == NoPassword <==>
      StringParam(username).Some? && StringParam(password).None?
    ensures r.value.location == WrongUsername <==>
      && StringParam(username).Some? && StringParam(password).Some?
      && forall i :: 0 <= i < |passwords| ==> passwords[i].username != StringParam(username).value
    ensures r.value.location == CorrectLogin <==>
      && StringParam(username).Some? && StringParam(password).Some?
      && exists i :: (Lists.IsFirst(passwords, UsernameIs(StringParam(username).value), i)
                      && passwords[i].password == StringParam(password).value)
    ensures r.value.location == WrongPassword <==>
      && StringParam(username).Some? && StringParam(password).Some?
      && exists i :: (Lists.IsFirst(passwords, UsernameIs(StringParam(username).value), i)
                      && passwords[i].password != StringParam(password).value)
  {
    match (StringParam(username), StringParam(password))
    case (None, _) => Success(Response(Found, NoUsername))
    case (Some(_), None) => Success(Response(Found, NoPassword))
    case (Some(u), Some(p)) =>
      match Lists.FindFirst(passwords, UsernameIs(u))
      case None => Success(Response(Found, WrongUsername))
      case Some(i) =>
        assert forall k :: Lists.IsFirst(passwords, UsernameIs(u), k) ==> k == i;
        if passwords[i].password == p then Success(Response(Found, CorrectLogin))
        else Success(Response(Found, WrongPassword))
  }

  /** The five redirect targets, the handler's entire range. */
  lemma ProcessLoginRange(passwords: seq<Password>, username: Option<ParamValue>,
                          password: Option<ParamValue>)
    ensures ProcessLogin(passwords, username, password).value.location
      in {NoUsername, NoPassword, WrongUsername, CorrectLogin, WrongPassword}
  {
  }

  /** Without a string username the password is never looked at. */
  lemma NoUsernameIgnoresPassword(passwords: seq<Password>, username: Option<ParamValue>,
                                  p1: Option<ParamValue>, p2: Option<ParamValue>)
    requires StringParam(username).None?
    ensures ProcessLogin(passwords, username, p1) == ProcessLogin(passwords, username, p2)
  {
  }
}
