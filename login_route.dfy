/** The login endpoint: looks the user up by matricule, checks the password
    against the stored hash, records the time of the login and answers with
    the session's user, never with the hash. */
module LoginRoute {

  import opened Wrappers
  import opened Tables
  import Auth

  const RequiredMessage := "Matricule and password are required"
  const InvalidMessage := "Invalid matricule or password"
  const InternalErrorMessage := "Internal server error"

  /** The fields taken from the parsed request body; an absent or `null`
      field is `None`. */
  datatype LoginBody = LoginBody(matricule: Option<string>, password: Option<string>)

  /** The user part of a successful response: no password hash. */
  datatype SessionUser = SessionUser(id: nat, matricule: string, role: Role, isFirstLogin: bool)

  datatype LoginResponse = LoggedIn(user: SessionUser) | LoginFailure(status: nat, error: string)

  /** Which database statement throws, if any. */
  datatype Fault = NoFault | LookupFault | UpdateFault

  /** JavaScript truthiness of a string field: present and not empty. */
  predicate Present(v: Option<string>)
  {
    v.Some? && v.value != ""
  }

  /** `POST`: `body` is `None` when the request body is JSON `null` or not
      JSON at all, both of which throw (a number, string, boolean or array
      destructures to absent fields, so it is a body with both fields `None`);
      `now` stands for the database's `NOW()`, `kdf` for the key derivation
      behind `verifyPassword`, and `fault` for a statement that throws. */
  method Post(db: Database, body: Option<LoginBody>, kdf: Auth.Kdf, now: int, fault: Fault)
    returns (resp: LoginResponse)
    requires db.Valid()
    modifies db
    ensures db.Valid()
    ensures db.profiles == old(db.profiles) && db.nextUserId == old(db.nextUserId)
    // Validation happens first and reads nothing.
    ensures resp.LoginFailure? && resp.status == 400 <==>
      body.Some? && !(Present(body.value.matricule) && Present(body.value.password))
    ensures resp.LoginFailure? && resp.status == 400 ==> resp.error == RequiredMessage
    // An unknown matricule and a wrong password get the same answer.
    ensures resp.LoginFailure? && resp.status == 401 ==> resp.error == InvalidMessage
    ensures resp.LoginFailure? && resp.status == 401 <==>
      && body.Some? && Present(body.value.matricule) && Present(body.value.password) && fault != LookupFault
      && var found := FindByMatricule(old(db.users), body.value.matricule.value);
         found.None?
         || Auth.VerifyPassword(kdf, body.value.password.value, old(db.users)[found.value].passwordHash) == Auth.Rejected
    ensures resp.LoginFailure? ==> resp.status in {400, 401, 500}
    ensures resp.LoginFailure? && resp.status == 500 ==> resp.error == InternalErrorMessage
    // Only a successful login writes, and then only the matched row's last login.
    ensures resp.LoginFailure? ==> db.users == old(db.users)
    ensures resp.LoggedIn? ==>
      && body.Some? && fault == NoFault
      && var found := FindByMatricule(old(db.users), body.value.matricule.value);
      && found.Some?
      && var row := old(db.users)[found.value];
      && Auth.VerifyPassword(kdf, body.value.password.value, row.passwordHash) == Auth.Accepted
      && db.users == old(db.users)[found.value := row.(lastLoginAt := Some(now))]
      && resp.user == SessionUser(row.id, row.matricule, row.role, row.isFirstLogin)
    ensures resp.LoggedIn? <==>
      && body.Some? && Present(body.value.matricule) && Present(body.value.password) && fault == NoFault
      && var found := FindByMatricule(old(db.users), body.value.matricule.value);
      && found.Some?
      && Auth.VerifyPassword(kdf, body.value.password.value, old(db.users)[found.value].passwordHash) == Auth.Accepted
  {
    if body.None? {
      return LoginFailure(500, InternalErrorMessage);
    }
    var b := body.value;
    if !Present(b.matricule) || !Present(b.password) {
      return LoginFailure(400, RequiredMessage);
    }
    var matricule := b.matricule.value;
    var password := b.password.value;
    if fault == LookupFault {
      return LoginFailure(500, InternalErrorMessage);
    }
    var found := FindByMatricule(db.users, matricule);
    if found.None? {
      return LoginFailure(401, InvalidMessage);
    }
    var user := db.users[found.value];
    var verdict := Auth.VerifyPassword(kdf, password, user.passwordHash);
    if verdict == Auth.Failed {
      // The rejected promise is caught below.
      return LoginFailure(500, InternalErrorMessage);
    }
    if verdict == Auth.Rejected {
      return LoginFailure(401, InvalidMessage);
    }
    if fault == UpdateFault {
      return LoginFailure(500, InternalErrorMessage);
    }
    LastLoginTouchesOneRow(db.users, found.value, now);
    db.SetLastLogin(user.id, now);
    resp := LoggedIn(SessionUser(user.id, matricule, user.role, user.isFirstLogin));
  }
}
