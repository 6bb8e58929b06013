/** The earlier registration form at the top of the repository: the same length and
    confirmation rules as `Schema`, without the registry lookups. Its password and confirmation
    validators are word for word those of `Schema`, which this module uses. The email field is
    typed with the form library's email type, which checks and normalises the address itself;
    what it makes of the submitted address arrives here as an option. */
module LegacySchema {
  import opened Outcomes
  import Schema

  /** The message of the form library's email type. */
  const EmailStrMessage := "value is not a valid email address"

  /** `username_valid`: only the length rule; a valid name passes unchanged. */
  function UsernameValid(v: string): (r: Result<string>)
    ensures r.Ok? <==> Schema.UsernameLengthOk(v)
    ensures r.Ok? ==> r.value == v
    ensures r.Err? ==> r.error == ValueError(Schema.UsernameLengthMessage)
  {
    if |v| < 2 || |v| > 20 then Err(ValueError(Schema.UsernameLengthMessage)) else Ok(v)
  }

  /** The email field: `normalised` is None when the email type rejects the address, and
      otherwise the address it returns in its place. */
  function EmailField(normalised: Option<string>): (r: Result<string>)
    ensures r.Ok? <==> normalised.Some?
    ensures r.Ok? ==> r.value == normalised.value
    ensures r.Err? ==> r.error == ValueError(EmailStrMessage)
  {
    match normalised
    case None => Err(ValueError(EmailStrMessage))
    case Some(address) => Ok(address)
  }

  /** Validating the form: fields in declaration order (username, email, password,
      confirmation), the confirmation compared only with a password that passed. An accepted
      form carries the address as the email type returned it. */
  function ValidateUserCreate(username: string, email: Option<string>, password: string, confirm: string): (r: Schema.Validation)
    ensures r.Accepted? ==> email.Some? && r.user == Schema.UserCreate(username, email.value, password, None)
    ensures r.Rejected? ==> 0 < |r.errors| <= 4
    ensures r.Accepted? <==> Schema.UsernameLengthOk(username) && email.Some? && |password| >= 8 && confirm == password
  {
    var u := UsernameValid(username);
    var e := EmailField(email);
    var p := Schema.PasswordValid(password);
    var c := Schema.ConfirmValid(confirm, if p.Ok? then Some(p.value) else None);
    if u.Ok? && e.Ok? && p.Ok? && c.Ok? then Schema.Accepted(Schema.UserCreate(u.value, e.value, p.value, c.value))
    else Schema.Rejected(Schema.ErrorsOf("username", u) + Schema.ErrorsOf("email", e)
                         + Schema.ErrorsOf("password", p) + Schema.ErrorsOf("confirm_password", c))
  }

  /** With nobody registered yet, the old username rule is the new one. */
  lemma UsernameAgreesOnEmptyRegistry(v: string)
    ensures UsernameValid(v) == Schema.UsernameValid(v, {})
  {
  }

  /** With nobody registered yet and an address both email checks accept, the email type
      returning it unchanged, the old form accepts and rejects exactly what the new one does,
      with the same messages. */
  lemma AgreesOnEmptyRegistry(username: string, email: string, password: string, confirm: string)
    ensures ValidateUserCreate(username, Some(email), password, confirm)
         == Schema.ValidateUserCreate(username, email, password, confirm, true, {}, {})
  {
    UsernameAgreesOnEmptyRegistry(username);
  }

  /** With nobody registered yet and an address both email checks reject, both forms are
      rejected with the same errors in the same order, except that the email error carries
      the email type's message. */
  lemma AgreesOnRejectedEmail(username: string, email: string, password: string, confirm: string)
    ensures var legacy := ValidateUserCreate(username, None, password, confirm);
            var current := Schema.ValidateUserCreate(username, email, password, confirm, false, {}, {});
            && legacy.Rejected? && current.Rejected?
            && |legacy.errors| == |current.errors|
            && (forall i :: 0 <= i < |legacy.errors| ==> legacy.errors[i].field == current.errors[i].field)
            && (forall i :: 0 <= i < |legacy.errors| && legacy.errors[i].field != "email" ==> legacy.errors[i] == current.errors[i])
            && (forall i :: 0 <= i < |legacy.errors| && legacy.errors[i].field == "email" ==> legacy.errors[i].message == EmailStrMessage)
  {
    UsernameAgreesOnEmptyRegistry(username);
  }

  /** A taken name the new form turns away still passes the old one. */
  lemma TakenNameStillPasses(v: string, names: set<string>)
    requires Schema.UsernameLengthOk(v) && v in names
    ensures UsernameValid(v).Ok? && Schema.UsernameValid(v, names).Err?
  {
  }
}
