/** The checks the login and registration forms run before they touch the
    session or the user directory. */
module Auth {
  import opened Wrappers
  import opened Lists
  import opened Records
  import opened Text

  datatype LoginError =
    | MissingCredentials   // the trimmed phone or the password is empty
    | InvalidCredentials   // no stored user has this phone and password

  datatype RegisterError =
    | MissingField         // a trimmed name or phone, or a password, is empty
    | PasswordMismatch     // the two passwords differ
    | DuplicatePhone       // a stored user already has the trimmed phone

  predicate Matches(u: User, phone: string, password: string) {
    u.phone == phone && u.password == password
  }

  /** The login form: the phone is trimmed, the password is compared as
      typed, and the first stored user with both wins. */
  function Authenticate(users: seq<User>, phoneInput: string, password: string): (r: Result<User, LoginError>)
    ensures r == Failure(MissingCredentials) <==> Trim(phoneInput) == [] || password == []
    ensures r == Failure(InvalidCredentials) <==>
              Trim(phoneInput) != [] && password != []
              && forall u :: u in users ==> !Matches(u, Trim(phoneInput), password)
    ensures r.Success? ==>
              exists i :: 0 <= i < |users| && users[i] == r.value
                          && Matches(users[i], Trim(phoneInput), password)
                          && forall j :: 0 <= j < i ==> !Matches(users[j], Trim(phoneInput), password)
  {
    var phone := Trim(phoneInput);
    if phone == [] || password == [] then Failure(MissingCredentials)
    else match FindIndex(users, (u: User) => Matches(u, phone, password))
      case None => Failure(InvalidCredentials)
      case Some(i) => Success(users[i])
  }

  /** All four registration fields are filled in (name and phone after trimming). */
  predicate FieldsFilled(fullNameInput: string, phoneInput: string, password: string, password2: string) {
    Trim(fullNameInput) != [] && Trim(phoneInput) != [] && password != [] && password2 != []
  }

  /** The registration form's checks, in the form's order; on success, the
      user record that is appended to the directory. */
  function CheckRegistration(users: seq<User>, id: string, fullNameInput: string, phoneInput: string,
                             password: string, password2: string): (r: Result<User, RegisterError>)
    ensures r == Failure(MissingField) <==> !FieldsFilled(fullNameInput, phoneInput, password, password2)
    ensures r == Failure(PasswordMismatch) <==>
              FieldsFilled(fullNameInput, phoneInput, password, password2) && password != password2
    ensures r == Failure(DuplicatePhone) <==>
              FieldsFilled(fullNameInput, phoneInput, password, password2) && password == password2
              && PhoneTaken(users, Trim(phoneInput))
    ensures r.Success? ==> r.value.id == id && r.value.fullName == Trim(fullNameInput)
                           && r.value.phone == Trim(phoneInput) && r.value.password == password
    ensures r.Success? ==> !PhoneTaken(users, r.value.phone)
  {
    var fullName := Trim(fullNameInput);
    var phone := Trim(phoneInput);
    if fullName == [] || phone == [] || password == [] || password2 == [] then Failure(MissingField)
    else if password != password2 then Failure(PasswordMismatch)
    else if PhoneTaken(users, phone) then Failure(DuplicatePhone)
    else
      Success(User(id, fullName, phone, password))
  }

  /** A filled-in form with matching passwords and an unused phone is
      accepted, and the user who has just registered can log in, typing the
      phone either as at registration or as it was stored. */
  lemma {:induction false} RegisteredUserCanLogIn(users: seq<User>, id: string, fullNameInput: string,
                                                  phoneInput: string, password: string)
    requires FieldsFilled(fullNameInput, phoneInput, password, password)
    requires !PhoneTaken(users, Trim(phoneInput))
    ensures CheckRegistration(users, id, fullNameInput, phoneInput, password, password).Success?
    ensures var u := CheckRegistration(users, id, fullNameInput, phoneInput, password, password).value;
            Authenticate(users + [u], phoneInput, password) == Success(u)
            && Authenticate(users + [u], u.phone, password) == Success(u)
  {
    var u := CheckRegistration(users, id, fullNameInput, phoneInput, password, password).value;
    TrimIdempotent(phoneInput);
    FirstMatchIsNewUser(users, u, phoneInput, password);
    FirstMatchIsNewUser(users, u, u.phone, password);
  }

  lemma FirstMatchIsNewUser(users: seq<User>, u: User, phoneInput: string, password: string)
    requires !PhoneTaken(users, u.phone) && u.phone != [] && password != []
    requires Matches(u, Trim(phoneInput), password)
    ensures Authenticate(users + [u], phoneInput, password) == Success(u)
  {
    var all := users + [u];
    assert all[|users|] == u && u in all;
    var r := Authenticate(all, phoneInput, password);
    var i :| 0 <= i < |all| && all[i] == r.value && Matches(all[i], Trim(phoneInput), password);
    if i < |users| {
      assert all[i] in users;
    }
  }
}
