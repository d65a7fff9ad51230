/**
 * The registration form: an email, a password and its confirmation; the
 * confirmation check, and saving the new user with or without committing
 * it to the store.
 */
module AccountForms {
  import opened Wrappers
  import opened Chars
  import opened Models
  import opened FormFields

  /** The email column's default length limit. */
  const EmailMaxLength: nat := 254

  const PasswordMismatchCode: string := "password_mismatch"
  const PasswordMismatchMessage: string := "The passwords didn't match."
  const DuplicateEmailMessage: string := "User with this Email already exists."

  const RegisterFieldNames: set<string> := {"email", "password", "confirming_password"}

  /** Python truthiness of a cleaned value: present and not empty. */
  predicate Truthy(v: Option<string>) {
    v.Some? && v.value != ""
  }

  /** `clean_confirming_password`, given the cleaned password and
      confirmation (None when that field failed): a mismatch is reported
      only when both are non-empty; otherwise the confirmation is kept. */
  function CleanConfirmingPassword(password: Option<string>, confirming: Option<string>): (r: Result<Option<string>, ValidationError>)
    ensures r.Ok? ==> r.value == confirming
    ensures r.Err? ==> r.error == ValidationError(PasswordMismatchMessage, PasswordMismatchCode)
    ensures r.Err? <==> Truthy(password) && Truthy(confirming) && password != confirming
  {
    if Truthy(password) && Truthy(confirming) && password != confirming then
      Err(ValidationError(PasswordMismatchMessage, PasswordMismatchCode))
    else
      Ok(confirming)
  }

  /** Equal passwords always pass, and the confirmation comes back. */
  lemma MatchingPasswordsConfirm(p: string)
    ensures CleanConfirmingPassword(Some(p), Some(p)) == Ok(Some(p))
  {
  }

  /** An empty or failed password or confirmation never yields the mismatch error. */
  lemma EmptyNeverMismatches(password: Option<string>, confirming: Option<string>)
    requires !Truthy(password) || !Truthy(confirming)
    ensures CleanConfirmingPassword(password, confirming) == Ok(confirming)
  {
  }

  /** A registration that passed the form. */
  datatype Registration = Registration(email: string, password: string)

  predicate EmailTaken(st: Store, email: string) {
    exists u :: u in st.users && st.users[u].email == email
  }

  /** The email field's own checks: stripped, it is non-empty, fits the
      column and holds no NUL character. */
  predicate EmailFits(e: string) {
    0 < |e| <= EmailMaxLength && '\0' !in e
  }

  /** An email passes when, stripped, it fits the field and belongs to no
      user yet. */
  predicate EmailAccepted(st: Store, raw: Option<string>) {
    var e := Strip(raw.GetOr(""));
    EmailFits(e) && !EmailTaken(st, e)
  }

  /** The email field, then the model's uniqueness check on it. */
  function CleanEmail(st: Store, data: PostData): (r: Cleaned<string>)
    ensures r.Ok? <==> EmailAccepted(st, Get(data, "email"))
    ensures r.Ok? ==> r.value == Strip(Get(data, "email").GetOr(""))
    ensures r.Ok? ==> !EmailTaken(st, r.value) && EmailFits(r.value)
    ensures r.Err? ==>
              var e := Strip(Get(data, "email").GetOr(""));
              (r.error == [DuplicateEmailMessage] <==> EmailFits(e) && EmailTaken(st, e))
  {
    var email := CleanText(Get(data, "email"), true, true, Some(EmailMaxLength));
    if email.Ok? && EmailTaken(st, email.value) then Err([DuplicateEmailMessage])
    else
      FieldNeverDuplicate(Get(data, "email"));
      email
  }

  /** The email field's own messages are never the uniqueness message. */
  lemma FieldNeverDuplicate(raw: Option<string>)
    ensures var email := CleanText(raw, true, true, Some(EmailMaxLength));
            email.Err? ==> DuplicateEmailMessage !in email.error
  {
  }

  /** A password field passes when it is submitted, non-empty and free of
      NUL characters; it is not stripped. */
  predicate PasswordAccepted(v: Option<string>) {
    Truthy(v) && '\0' !in v.value
  }

  function CleanPassword(data: PostData, field: string): (r: Cleaned<string>)
    ensures r.Ok? <==> PasswordAccepted(Get(data, field))
    ensures r.Ok? ==> Get(data, field) == Some(r.value)
    ensures r.Err? && !Truthy(Get(data, field)) ==> r.error == [RequiredMessage]
    ensures r.Err? && Truthy(Get(data, field)) ==> r.error == [NullCharactersMessage]
  {
    CleanText(Get(data, field), true, false, None)
  }

  /** The confirmation field: required, then checked against the password
      when the password itself passed. */
  function CleanConfirmation(password: Cleaned<string>, confirming: Cleaned<string>): (r: Cleaned<string>)
    ensures r.Ok? ==> confirming == Ok(r.value)
    ensures r.Ok? && password.Ok? && password.value != "" && r.value != "" ==> r.value == password.value
    ensures r.Ok? <==> confirming.Ok? &&
                       (password.Err? || password.value == "" || confirming.value == "" || password.value == confirming.value)
    ensures confirming.Err? ==> r == confirming
    ensures confirming.Ok? && r.Err? ==> r.error == [PasswordMismatchMessage]
  {
    if confirming.Err? then confirming
    else
      var p := if password.Ok? then Some(password.value) else None;
      match CleanConfirmingPassword(p, Some(confirming.value))
      case Ok(_) => confirming
      case Err(e) => Err([e.message])
  }

  /** The form's outcome from its three cleaned fields: a registration
      when all passed, otherwise the errors of those that failed. */
  function Combine(email: Cleaned<string>, password: Cleaned<string>, confirming: Cleaned<string>): (r: Result<Registration, Errors>)
    ensures r.Ok? <==> email.Ok? && password.Ok? && confirming.Ok?
    ensures r.Ok? ==> r.value == Registration(email.value, password.value)
    ensures r.Err? ==> r.error != map[] && r.error.Keys <= RegisterFieldNames
    ensures r.Err? ==> r.error == FieldErrors("email", email) + FieldErrors("password", password) + FieldErrors("confirming_password", confirming)
  {
    if email.Ok? && password.Ok? && confirming.Ok? then
      Ok(Registration(email.value, password.value))
    else
      var e := FieldErrors("email", email) + FieldErrors("password", password) + FieldErrors("confirming_password", confirming);
      assert "email" in e || "password" in e || "confirming_password" in e;
      Err(e)
  }

  /** The whole form: email (stripped, required, at most 254 characters,
      not yet registered), password and confirmation (required, not
      stripped, equal), none of them holding a NUL character. */
  function CleanRegisterForm(st: Store, data: PostData): (r: Result<Registration, Errors>)
    ensures r.Ok? <==> EmailAccepted(st, Get(data, "email")) && PasswordAccepted(Get(data, "password")) &&
                       Get(data, "confirming_password") == Get(data, "password")
    ensures r.Ok? ==> r.value.email == Strip(Get(data, "email").GetOr(""))
    ensures r.Ok? ==> Get(data, "password") == Some(r.value.password) && r.value.password != ""
    ensures r.Ok? ==> Get(data, "confirming_password") == Some(r.value.password)
    ensures r.Ok? ==> !EmailTaken(st, r.value.email) && EmailFits(r.value.email) && '\0' !in r.value.password
    ensures r.Err? ==> r.error != map[] && r.error.Keys <= RegisterFieldNames
  {
    var password := CleanPassword(data, "password");
    var confirming := CleanConfirmation(password, CleanPassword(data, "confirming_password"));
    Combine(CleanEmail(st, data), password, confirming)
  }

  lemma ConfirmingErrorKept(email: Cleaned<string>, password: Cleaned<string>, confirming: Cleaned<string>)
    requires confirming.Err?
    ensures Combine(email, password, confirming).Err?
    ensures "confirming_password" in Combine(email, password, confirming).error
    ensures Combine(email, password, confirming).error["confirming_password"] == confirming.error
  {
  }

  lemma PasswordErrorKept(email: Cleaned<string>, password: Cleaned<string>, confirming: Cleaned<string>)
    requires password.Err?
    ensures Combine(email, password, confirming).Err?
    ensures "password" in Combine(email, password, confirming).error
    ensures Combine(email, password, confirming).error["password"] == password.error
  {
  }

  lemma MismatchMessage(p: string, c: string)
    requires p != "" && c != "" && p != c
    ensures CleanConfirmation(Ok(p), Ok(c)) == Err([PasswordMismatchMessage])
  {
  }

  /** Two different non-empty passwords put the mismatch message on the
      confirmation field. A NUL character instead fails the field holding
      it; when that is the password, the mismatch is not checked at all. */
  lemma MismatchRejected(st: Store, data: PostData, p: string, c: string)
    requires Get(data, "password") == Some(p) && Get(data, "confirming_password") == Some(c)
    requires p != "" && c != "" && p != c
    ensures CleanRegisterForm(st, data).Err?
    ensures '\0' !in p && '\0' !in c ==>
              CleanRegisterForm(st, data).error["confirming_password"] == [PasswordMismatchMessage]
    ensures '\0' in c ==> CleanRegisterForm(st, data).error["confirming_password"] == [NullCharactersMessage]
    ensures '\0' in p ==> CleanRegisterForm(st, data).error["password"] == [NullCharactersMessage]
    ensures '\0' in p && '\0' !in c ==> "confirming_password" !in CleanRegisterForm(st, data).error
  {
    assert CleanPassword(data, "password") == PasswordField(p);
    assert CleanPassword(data, "confirming_password") == PasswordField(c);
    MismatchCases(CleanEmail(st, data), p, c);
  }

  /** A non-empty password field: the value, or the NUL message. */
  function PasswordField(v: string): Cleaned<string> {
    if '\0' in v then Err([NullCharactersMessage]) else Ok(v)
  }

  lemma MismatchCases(email: Cleaned<string>, p: string, c: string)
    requires p != "" && c != "" && p != c
    ensures var r := Combine(email, PasswordField(p), CleanConfirmation(PasswordField(p), PasswordField(c)));
      && r.Err?
      && ('\0' !in p && '\0' !in c ==> r.error["confirming_password"] == [PasswordMismatchMessage])
      && ('\0' in c ==> r.error["confirming_password"] == [NullCharactersMessage])
      && ('\0' in p ==> r.error["password"] == [NullCharactersMessage])
      && ('\0' in p && '\0' !in c ==> "confirming_password" !in r.error)
  {
    var password := PasswordField(p);
    var confirming := CleanConfirmation(password, PasswordField(c));
    if '\0' !in p && '\0' !in c {
      MismatchMessage(p, c);
    }
    if confirming.Err? {
      ConfirmingErrorKept(email, password, confirming);
    }
    if password.Err? {
      PasswordErrorKept(email, password, confirming);
    }
  }

  /** An empty password is a required-field error on `password`, and the
      confirmation never reports a mismatch: it carries only the errors of
      its own field. */
  lemma EmptyPasswordRequired(st: Store, data: PostData)
    requires Get(data, "password") in {None, Some("")}
    ensures CleanRegisterForm(st, data).Err?
    ensures CleanRegisterForm(st, data).error["password"] == [RequiredMessage]
    ensures "confirming_password" in CleanRegisterForm(st, data).error <==>
              !PasswordAccepted(Get(data, "confirming_password"))
    ensures "confirming_password" in CleanRegisterForm(st, data).error ==>
              CleanRegisterForm(st, data).error["confirming_password"] == CleanPassword(data, "confirming_password").error
  {
    assert CleanPassword(data, "password") == Err([RequiredMessage]);
    EmptyPasswordCases(CleanEmail(st, data), CleanPassword(data, "confirming_password"));
  }

  lemma EmptyPasswordCases(email: Cleaned<string>, own: Cleaned<string>)
    ensures var password: Cleaned<string> := Err([RequiredMessage]);
            var r := Combine(email, password, CleanConfirmation(password, own));
      && r.Err?
      && r.error["password"] == [RequiredMessage]
      && ("confirming_password" in r.error <==> own.Err?)
      && (own.Err? ==> r.error["confirming_password"] == own.error)
  {
    var password: Cleaned<string> := Err([RequiredMessage]);
    var confirming := CleanConfirmation(password, own);
    assert confirming == own;
    PasswordErrorKept(email, password, confirming);
    if own.Err? {
      ConfirmingErrorKept(email, password, confirming);
    }
  }

  /** An empty confirmation is a required-field error on `confirming_password`. */
  lemma EmptyConfirmationRequired(st: Store, data: PostData)
    requires Get(data, "confirming_password") in {None, Some("")}
    ensures CleanRegisterForm(st, data).Err?
    ensures CleanRegisterForm(st, data).error["confirming_password"] == [RequiredMessage]
  {
    var password := CleanPassword(data, "password");
    var confirming := CleanConfirmation(password, CleanPassword(data, "confirming_password"));
    assert confirming == Err([RequiredMessage]);
    ConfirmingErrorKept(CleanEmail(st, data), password, confirming);
  }

  /** The user `save` returns, and the store after it. */
  datatype SavedUser = SavedUser(store: Store, user: User)

  /** `UserRegisterForm.save`: the user gets the email and a credential made
      from the password field; only a committing save stores it. */
  function SaveRegistration(st: Store, reg: Registration, commit: bool): (r: SavedUser)
    ensures r.user.email == reg.email && r.user.password == PasswordHash(reg.password)
    ensures !commit ==> r.store == st
    ensures commit ==> r.store == st.(users := st.users[st.nextUser := r.user], nextUser := st.nextUser + 1)
  {
    var user := User(reg.email, PasswordHash(reg.password));
    if commit then
      SavedUser(st.(users := st.users[st.nextUser := user], nextUser := st.nextUser + 1), user)
    else
      SavedUser(st, user)
  }

  /** No two users share an email. */
  predicate EmailsUnique(st: Store) {
    forall a, b :: a in st.users && b in st.users && a != b ==> st.users[a].email != st.users[b].email
  }

  /** A committed registration adds exactly one user, under a fresh id,
      holding the submitted email and a credential from the `password`
      field; nothing else in the store changes. */
  lemma RegisterAddsOneUser(st: Store, data: PostData)
    requires Valid(st)
    requires CleanRegisterForm(st, data).Ok?
    ensures var reg := CleanRegisterForm(st, data).value;
            var r := SaveRegistration(st, reg, true).store;
            && |r.users| == |st.users| + 1
            && st.nextUser !in st.users && st.nextUser in r.users
            && r.users[st.nextUser] == User(reg.email, PasswordHash(reg.password))
            && Get(data, "password") == Some(reg.password)
            && r.worktables == st.worktables && r.categories == st.categories && r.notes == st.notes
  {
  }

  lemma NewEmailStaysUnique(st: Store, email: string, password: Credential)
    requires IdsIssued(st) && EmailsUnique(st) && !EmailTaken(st, email)
    ensures EmailsUnique(st.(users := st.users[st.nextUser := User(email, password)], nextUser := st.nextUser + 1))
  {
  }

  /** Registering keeps emails unique and the store valid. */
  lemma RegisterKeepsStoreValid(st: Store, data: PostData)
    requires Valid(st) && EmailsUnique(st)
    requires CleanRegisterForm(st, data).Ok?
    ensures var r := SaveRegistration(st, CleanRegisterForm(st, data).value, true).store;
            Valid(r) && EmailsUnique(r)
  {
    var reg := CleanRegisterForm(st, data).value;
    var r := SaveRegistration(st, reg, true).store;
    InsertUserValid(st, User(reg.email, PasswordHash(reg.password)));
    NewEmailStaysUnique(st, reg.email, PasswordHash(reg.password));
  }

  /** A non-committing save leaves the store as it was. */
  lemma DryRunStoresNothing(st: Store, reg: Registration)
    ensures SaveRegistration(st, reg, false).store.users == st.users
    ensures SaveRegistration(st, reg, false).user == User(reg.email, PasswordHash(reg.password))
  {
  }
}
