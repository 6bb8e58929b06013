/** The registration form of the site (`UserCreate`): each field validator either passes its
    value on or rejects it with a message, and the form is accepted only when every field
    passes. Uniqueness is checked against the usernames and emails already registered, passed
    in as sets; whether an email is well formed is decided by a library outside this model and
    arrives as a flag. */
module Schema {
  import opened Outcomes

  const UsernameLengthMessage := "Username must be between 2 and 20 characters"
  const UsernameTakenMessage := "Username already exists"
  const EmailTakenMessage := "Email already exists"
  const EmailInvalidMessage := "Email is not valid"
  const PasswordLengthMessage := "Password must be at least 8 characters"
  const MismatchMessage := "Passwords do not match"

  /** The length rule on usernames. */
  predicate UsernameLengthOk(v: string) {
    2 <= |v| <= 20
  }

  /** `username_valid`: a name of 2 to 20 characters nobody has taken passes unchanged;
      the length is checked before the registry. */
  function UsernameValid(v: string, names: set<string>): (r: Result<string>)
    ensures r.Ok? <==> UsernameLengthOk(v) && v !in names
    ensures r.Ok? ==> r.value == v
    ensures r.Err? ==> r.error == ValueError(if UsernameLengthOk(v) then UsernameTakenMessage else UsernameLengthMessage)
  {
    if |v| < 2 || |v| > 20 then Err(ValueError(UsernameLengthMessage))
    else if v in names then Err(ValueError(UsernameTakenMessage))
    else Ok(v)
  }

  /** `email_valid`: a well-formed address nobody has registered passes unchanged; a malformed
      one is reported as such whether or not it is taken. */
  function EmailValid(v: string, wellFormed: bool, emails: set<string>): (r: Result<string>)
    ensures r.Ok? <==> wellFormed && v !in emails
    ensures r.Ok? ==> r.value == v
    ensures r.Err? ==> r.error == ValueError(if wellFormed then EmailTakenMessage else EmailInvalidMessage)
  {
    if !wellFormed then Err(ValueError(EmailInvalidMessage))
    else if v in emails then Err(ValueError(EmailTakenMessage))
    else Ok(v)
  }

  /** `password_valid`: at least 8 characters, passed on unchanged. */
  function PasswordValid(v: string): (r: Result<string>)
    ensures r.Ok? <==> |v| >= 8
    ensures r.Ok? ==> r.value == v
    ensures r.Err? ==> r.error == ValueError(PasswordLengthMessage)
  {
    if |v| < 8 then Err(ValueError(PasswordLengthMessage)) else Ok(v)
  }

  /** `confirm_password_valid`: compared only with a password that itself passed (one present
      in `values`); the validator returns nothing, so the field's value becomes None. */
  function ConfirmValid(v: string, password: Option<string>): (r: Result<Option<string>>)
    ensures r.Err? <==> password.Some? && v != password.value
    ensures r.Ok? ==> r.value == None
    ensures r.Err? ==> r.error == ValueError(MismatchMessage)
  {
    if password.Some? && v != password.value then Err(ValueError(MismatchMessage)) else Ok(None)
  }

  /** An accepted registration; `confirmPassword` is what its validator returned. */
  datatype UserCreate = UserCreate(username: string, email: string, password: string, confirmPassword: Option<string>)

  /** One rejected field with its message. */
  datatype FieldError = FieldError(field: string, message: string)

  datatype Validation = Accepted(user: UserCreate) | Rejected(errors: seq<FieldError>)

  /** What a failed validator adds to the error list. */
  function ErrorsOf<T>(field: string, r: Result<T>): seq<FieldError> {
    if r.Err? && r.error.ValueError? then [FieldError(field, r.error.message)] else []
  }

  /** Validating a `UserCreate`: the fields in declaration order, each validator seeing the
      fields before it that passed, every failure collected. */
  function ValidateUserCreate(username: string, email: string, password: string, confirm: string,
                              emailWellFormed: bool, names: set<string>, emails: set<string>): (r: Validation)
    ensures r.Accepted? ==> r.user == UserCreate(username, email, password, None)
    ensures r.Rejected? ==> 0 < |r.errors| <= 4
  {
    var u := UsernameValid(username, names);
    var e := EmailValid(email, emailWellFormed, emails);
    var p := PasswordValid(password);
    var c := ConfirmValid(confirm, if p.Ok? then Some(p.value) else None);
    if u.Ok? && e.Ok? && p.Ok? && c.Ok? then Accepted(UserCreate(u.value, e.value, p.value, c.value))
    else Rejected(ErrorsOf("username", u) + ErrorsOf("email", e) + ErrorsOf("password", p) + ErrorsOf("confirm_password", c))
  }

  /** A registration is accepted exactly when every rule holds, and is then stored with the
      given name, email and password and no confirmation value. */
  lemma AcceptedIffAllRulesHold(username: string, email: string, password: string, confirm: string,
                                emailWellFormed: bool, names: set<string>, emails: set<string>)
    ensures var r := ValidateUserCreate(username, email, password, confirm, emailWellFormed, names, emails);
            && (r.Accepted? <==>
                  UsernameLengthOk(username) && username !in names && emailWellFormed && email !in emails
                  && |password| >= 8 && confirm == password)
            && (r.Accepted? ==> r.user == UserCreate(username, email, password, None))
            && (r.Rejected? ==> |r.errors| > 0)
  {
  }

  /** "Passwords do not match" is reported exactly when the password passed and the
      confirmation differs from it; a short password hides any mismatch. */
  lemma MismatchOnlyAfterValidPassword(username: string, email: string, password: string, confirm: string,
                                       emailWellFormed: bool, names: set<string>, emails: set<string>)
    ensures var r := ValidateUserCreate(username, email, password, confirm, emailWellFormed, names, emails);
            (r.Rejected? && FieldError("confirm_password", MismatchMessage) in r.errors)
              <==> |password| >= 8 && confirm != password
  {
    var r := ValidateUserCreate(username, email, password, confirm, emailWellFormed, names, emails);
    var c := ConfirmValid(confirm, if |password| >= 8 then Some(password) else None);
    if |password| >= 8 && confirm != password {
      assert r.Rejected?;
      assert r.errors[|r.errors| - 1] == FieldError("confirm_password", MismatchMessage);
    } else {
      assert c.Ok?;
      assert r.Rejected? ==> forall i :: 0 <= i < |r.errors| ==> r.errors[i].field != "confirm_password";
    }
  }

  /** Each message is reported exactly when its rule fails. */
  lemma MessagePerFailedRule(username: string, email: string, password: string, confirm: string,
                             emailWellFormed: bool, names: set<string>, emails: set<string>)
    ensures var r := ValidateUserCreate(username, email, password, confirm, emailWellFormed, names, emails);
            r.Rejected? ==>
              && (FieldError("username", UsernameLengthMessage) in r.errors <==> !UsernameLengthOk(username))
              && (FieldError("username", UsernameTakenMessage) in r.errors <==> UsernameLengthOk(username) && username in names)
              && (FieldError("email", EmailInvalidMessage) in r.errors <==> !emailWellFormed)
              && (FieldError("email", EmailTakenMessage) in r.errors <==> emailWellFormed && email in emails)
              && (FieldError("password", PasswordLengthMessage) in r.errors <==> |password| < 8)
  {
  }

  /** What one validator adds names its field, at most once. */
  lemma ErrorsOfNamesField<T>(field: string, r: Result<T>)
    ensures |ErrorsOf(field, r)| <= 1
    ensures forall i :: 0 <= i < |ErrorsOf(field, r)| ==> ErrorsOf(field, r)[i].field == field
  {
  }

  /** No field is reported twice, so there are at most four errors. */
  lemma {:induction false} NoFieldTwice(username: string, email: string, password: string, confirm: string,
                                         emailWellFormed: bool, names: set<string>, emails: set<string>)
    ensures var r := ValidateUserCreate(username, email, password, confirm, emailWellFormed, names, emails);
            r.Rejected? ==>
              && |r.errors| <= 4
              && (forall i, j :: 0 <= i < j < |r.errors| ==> r.errors[i].field != r.errors[j].field)
  {
    var u := ErrorsOf("username", UsernameValid(username, names));
    var e := ErrorsOf("email", EmailValid(email, emailWellFormed, emails));
    var p := ErrorsOf("password", PasswordValid(password));
    var c := ErrorsOf("confirm_password", ConfirmValid(confirm, if |password| >= 8 then Some(password) else None));
    ErrorsOfNamesField("username", UsernameValid(username, names));
    ErrorsOfNamesField("email", EmailValid(email, emailWellFormed, emails));
    ErrorsOfNamesField("password", PasswordValid(password));
    ErrorsOfNamesField("confirm_password", ConfirmValid(confirm, if |password| >= 8 then Some(password) else None));
    var all := u + e + p + c;
    // The position of an error in `all` tells which validator produced it.
    forall i | 0 <= i < |all|
      ensures all[i].field == (if i < |u| then "username" else if i < |u| + |e| then "email"
                               else if i < |u| + |e| + |p| then "password" else "confirm_password")
    {
      if i < |u| { assert all[i] == u[i]; }
      else if i < |u| + |e| { assert all[i] == e[i - |u|]; }
      else if i < |u| + |e| + |p| { assert all[i] == p[i - |u| - |e|]; }
      else { assert all[i] == c[i - |u| - |e| - |p|]; }
    }
  }
}
