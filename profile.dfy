/**
 * The profile form: edits to name, email and password, the update request
 * that carries only the changed fields, and cancelling.
 */
module Profile {
  import opened Wrappers

  /** The signed-in user, reduced to the fields the form compares against. */
  datatype User = User(name: string, email: string)

  datatype Form = Form(name: string, email: string, password: string)

  /** The `name` attribute of the input that changed. */
  datatype Field = NameField | EmailField | PasswordField

  /** The update request body; an absent field is not sent. */
  datatype Payload = Payload(name: Option<string>, email: Option<string>, password: Option<string>)

  /** `Object.keys(updateData).length === 0`. */
  predicate IsEmptyPayload(p: Payload) {
    p.name.None? && p.email.None? && p.password.None?
  }

  /** `user?.name`, which is `undefined` when nobody is signed in. */
  function StoredName(user: Option<User>): Option<string> {
    if user.Some? then Some(user.value.name) else None
  }

  function StoredEmail(user: Option<User>): Option<string> {
    if user.Some? then Some(user.value.email) else None
  }

  /**
   * `updateData`: name and email when they differ from the stored user's,
   * and the password when one was typed.
   */
  function UpdatePayload(form: Form, user: Option<User>): (p: Payload)
    ensures p.name.Some? <==> Some(form.name) != StoredName(user)
    ensures p.email.Some? <==> Some(form.email) != StoredEmail(user)
    ensures p.password.Some? <==> form.password != ""
    ensures p.name.Some? ==> p.name.value == form.name
    ensures p.email.Some? ==> p.email.value == form.email
    ensures p.password.Some? ==> p.password.value == form.password
  {
    Payload(
      if Some(form.name) != StoredName(user) then Some(form.name) else None,
      if Some(form.email) != StoredEmail(user) then Some(form.email) else None,
      if form.password != "" then Some(form.password) else None)
  }

  /** The form a page starts with, and returns to on cancel. */
  function InitialForm(user: Option<User>): (f: Form)
    ensures f.password == ""
    ensures user.Some? ==> f.name == user.value.name && f.email == user.value.email
    ensures user.None? ==> f.name == "" && f.email == ""
  {
    if user.Some? then Form(user.value.name, user.value.email, "") else Form("", "", "")
  }

  /** A freshly reset form sends nothing: there is nothing to update. */
  lemma InitialFormSendsNothing(user: User)
    ensures IsEmptyPayload(UpdatePayload(InitialForm(Some(user)), Some(user)))
  {
  }

  /** `handleInputChange`: the named field takes the new value, the others are kept. */
  function WithField(form: Form, field: Field, value: string): (f: Form)
    ensures field == NameField ==> f.name == value && f.email == form.email && f.password == form.password
    ensures field == EmailField ==> f.email == value && f.name == form.name && f.password == form.password
    ensures field == PasswordField ==> f.password == value && f.name == form.name && f.email == form.email
  {
    match field
    case NameField => form.(name := value)
    case EmailField => form.(email := value)
    case PasswordField => form.(password := value)
  }

  /** Changing only the password sends only the password. */
  lemma PasswordOnlyChange(user: User, password: string)
    requires password != ""
    ensures UpdatePayload(WithField(InitialForm(Some(user)), PasswordField, password), Some(user))
      == Payload(None, None, Some(password))
  {
  }

  class ProfileEditor {
    var form: Form
    var isEditing: bool

    constructor (user: Option<User>)
      ensures form == InitialForm(user) && !isEditing
    {
      form := InitialForm(user);
      isEditing := false;
    }

    /** The edit button. */
    method BeginEdit()
      modifies this
      ensures isEditing && form == old(form)
    {
      isEditing := true;
    }

    method InputChange(field: Field, value: string)
      modifies this
      ensures form == WithField(old(form), field, value) && isEditing == old(isEditing)
    {
      form := WithField(form, field, value);
    }

    /**
     * `handleSubmit`. An empty payload makes no request and leaves edit
     * mode. Otherwise the payload is sent (`sent`); on success edit mode ends
     * and the password field is cleared, on failure nothing changes.
     */
    method Submit(user: Option<User>, updateSucceeds: bool) returns (sent: Option<Payload>)
      modifies this
      ensures var p := UpdatePayload(old(form), user);
        && (IsEmptyPayload(p) ==> sent == None && !isEditing && form == old(form))
        && (!IsEmptyPayload(p) ==> sent == Some(p))
        && (!IsEmptyPayload(p) && updateSucceeds ==> !isEditing && form == old(form).(password := ""))
        && (!IsEmptyPayload(p) && !updateSucceeds ==> isEditing == old(isEditing) && form == old(form))
    {
      var p := UpdatePayload(form, user);
      if IsEmptyPayload(p) {
        isEditing := false;
        return None;
      }
      sent := Some(p);
      if updateSucceeds {
        isEditing := false;
        form := form.(password := "");
      }
    }

    /** The cancel button: leave edit mode and reset the form to the user's values. */
    method Cancel(user: Option<User>)
      modifies this
      ensures !isEditing && form == InitialForm(user)
    {
      isEditing := false;
      form := InitialForm(user);
    }
  }
}
