/** The profile page: its form starts from the signed-in user, holds exactly
    the four editable fields, and on submit overwrites those fields of the
    stored user and signs in again with the stored email and password. */
module Profile {
  import opened Wrappers
  import opened Store
  import opened Auth

  /** The form state. Only these four fields exist in it, whatever the user
      record holds. */
  datatype ProfileForm = ProfileForm(firstname: Value, lastname: Value, birthdate: Value, userType: Value)

  /** The form before any user is known. */
  const EmptyForm: ProfileForm := ProfileForm(Str(""), Str(""), Str(""), Str(""))

  /** JavaScript truthiness of a stored value. */
  predicate Truthy(v: Value) {
    match v
    case Str(s) => s != ""
    case Num(n) => n != 0
    case Ids(_) => true
  }

  /** `x || fallback` for a possibly missing field. */
  function Or(v: Option<Value>, fallback: Value): (r: Value)
    ensures v.Some? && Truthy(v.value) ==> r == v.value
    ensures !(v.Some? && Truthy(v.value)) ==> r == fallback
  {
    if v.Some? && Truthy(v.value) then v.value else fallback
  }

  /** `user.f` for what the session holds; a bare string has no fields. */
  function HeldField(h: Held, f: string): Option<Value> {
    match h
    case Rec(r) => Field(r, f)
    case Bare(_) => None
  }

  /** The effect that fills the form from the session user: each text field
      is copied, or "" when missing or empty, and the user type defaults to
      "Student". With nobody signed in the form keeps its empty start. */
  function InitialForm(user: Option<Held>): (f: ProfileForm)
    ensures user.None? ==> f == EmptyForm
    ensures user.Some? ==> Truthy(f.userType)
    ensures user.Some? ==>
              (forall k :: k in {"firstname", "lastname", "birthdate"} ==>
                 (HeldField(user.value, k).Some? && Truthy(HeldField(user.value, k).value) ==>
                    FormValue(f, k) == HeldField(user.value, k).value) &&
                 (!(HeldField(user.value, k).Some? && Truthy(HeldField(user.value, k).value)) ==>
                    FormValue(f, k) == Str("")))
    ensures user.Some? ==>
              (!(HeldField(user.value, "userType").Some? && Truthy(HeldField(user.value, "userType").value)) ==>
                 f.userType == Str("Student"))
  {
    match user
    case None => EmptyForm
    case Some(h) =>
      ProfileForm(Or(HeldField(h, "firstname"), Str("")), Or(HeldField(h, "lastname"), Str("")),
                  Or(HeldField(h, "birthdate"), Str("")), Or(HeldField(h, "userType"), Str("Student")))
  }

  /** The names of the editable fields. */
  const Editable: set<string> := {"firstname", "lastname", "birthdate", "userType"}

  /** The form as the object it is in the source. */
  function FormFields(f: ProfileForm): (m: Record)
    ensures m.Keys == Editable
  {
    map["firstname" := f.firstname, "lastname" := f.lastname, "birthdate" := f.birthdate,
        "userType" := f.userType]
  }

  function FormValue(f: ProfileForm, k: string): Value
    requires k in Editable
  {
    FormFields(f)[k]
  }

  /** `{ ...user, ...profileData }`: the user with the four editable fields
      taken from the form and every other field kept. */
  function Merged(u: Record, f: ProfileForm): (r: Record)
    ensures r.Keys == u.Keys + Editable
    ensures forall k :: k in u && k !in Editable ==> r[k] == u[k]
    ensures forall k :: k in Editable ==> r[k] == FormValue(f, k)
  {
    u + FormFields(f)
  }

  /** Why a profile submit does not happen: the form is only shown to a
      signed-in user. */
  datatype ProfileError = NotSignedIn

  /** The users table and the session after a submit, and whether the update
      found the user's id and wrote the merged record. */
  datatype Saved = Saved(users: Table, session: Session, written: bool)

  /** The record the session holds, when it holds one. */
  function SignedIn(s: Session): Option<Record> {
    if s.user.Some? && s.user.value.Rec? then Some(s.user.value.record) else None
  }

  /** `usersApi.update(user.id, updatedUser)`: the table with the merged user
      stored under its id, or None when the update writes nothing (the session
      holds no record with a string id, or that id is not stored). */
  function StoreMerged(users: Table, h: Held, form: ProfileForm): (w: Option<Table>)
    ensures w.Some? <==> h.Rec? && IdOf(h.record).Some? && GetById(users, IdOf(h.record).value).Some?
    ensures w.Some? ==>
              var id := IdOf(h.record).value;
              |w.value| == |users| &&
              forall j :: 0 <= j < |users| ==>
                w.value[j] == (if FindIndex(users, ById(id)) == Some(j) then Merged(h.record, form) else users[j])
  {
    match h
    case Bare(_) => None
    case Rec(u) =>
      match IdOf(u)
      case None => None
      case Some(id) =>
        match Update(users, id, Merged(u, form))
        case Failure(_) => None
        case Success(t) =>
          assert IdOf(Merged(u, form)) == Some(id);
          StampOwnId(id, Merged(u, form));
          Some(t)
  }

  /** `handleSubmit`: store the merged user under its id, then sign in again
      with the email and password the session user holds. The sign-in runs
      whether or not the update found the id: a miss writes nothing and
      raises nothing. */
  function SubmitProfile(users: Table, s: Session, form: ProfileForm): (r: Result<Saved, ProfileError>)
    ensures r.Failure? <==> s.user.None?
    ensures r.Failure? ==> r.error == NotSignedIn
    ensures r.Success? ==>
              var h := s.user.value;
              r.value.session == Login(r.value.users, s, HeldField(h, "email"), HeldField(h, "password")).session
    ensures r.Success? ==>
              (r.value.written <==> SignedIn(s).Some? && IdOf(SignedIn(s).value).Some? &&
                                    GetById(users, IdOf(SignedIn(s).value).value).Some?)
    ensures r.Success? && !r.value.written ==> r.value.users == users
    ensures r.Success? && r.value.written ==>
              var u := SignedIn(s).value;
              var id := IdOf(u).value;
              |r.value.users| == |users| &&
              forall j :: 0 <= j < |users| ==>
                r.value.users[j] == (if FindIndex(users, ById(id)) == Some(j) then Merged(u, form) else users[j])
  {
    match s.user
    case None => Failure(NotSignedIn)
    case Some(h) =>
      var w := StoreMerged(users, h, form);
      var t := if w.Some? then w.value else users;
      Success(Saved(t, Login(t, s, HeldField(h, "email"), HeldField(h, "password")).session, w.Some?))
  }

  /** A submit never changes the stored user's id, email or password: the
      form has no such fields. */
  lemma SubmitKeepsIdentity(users: Table, s: Session, form: ProfileForm, u: Record, id: string, i: nat)
    requires s.user == Some(Rec(u)) && IdOf(u) == Some(id)
    requires FindIndex(users, ById(id)) == Some(i)
    ensures var r := SubmitProfile(users, s, form);
            r.Success? && r.value.written && i < |r.value.users| &&
            var t := r.value.users;
            Field(t[i], "id") == Field(u, "id") &&
            Field(t[i], "email") == Field(u, "email") &&
            Field(t[i], "password") == Field(u, "password")
  {
    SubmitWrites(users, s, form, u, id, i);
    MergedKeepsIdentity(u, form);
  }

  /** The submit stores the merged user at the position of its id. */
  lemma SubmitWrites(users: Table, s: Session, form: ProfileForm, u: Record, id: string, i: nat)
    requires s.user == Some(Rec(u)) && IdOf(u) == Some(id)
    requires FindIndex(users, ById(id)) == Some(i)
    ensures var r := SubmitProfile(users, s, form);
            r.Success? && r.value.written && i < |r.value.users| && r.value.users[i] == Merged(u, form)
  {
    ByIdIff(id);
    assert GetById(users, id).Some? by {
      assert IdOf(users[i]) == Some(id);
    }
    assert SignedIn(s) == Some(u);
  }

  /** The fields the form does not hold keep their values through the merge. */
  lemma MergedKeepsIdentity(u: Record, f: ProfileForm)
    ensures Field(Merged(u, f), "id") == Field(u, "id")
    ensures Field(Merged(u, f), "email") == Field(u, "email")
    ensures Field(Merged(u, f), "password") == Field(u, "password")
  {
    assert "id" !in Editable && "email" !in Editable && "password" !in Editable;
  }

  /** When no other user shares the email, the re-login signs in exactly the
      record just stored. */
  lemma SubmitThenSessionIsStored(users: Table, s: Session, form: ProfileForm, u: Record, id: string, i: nat)
    requires s.user == Some(Rec(u)) && IdOf(u) == Some(id)
    requires FindIndex(users, ById(id)) == Some(i)
    requires forall j :: 0 <= j < |users| && j != i ==> Field(users[j], "email") != Field(u, "email")
    ensures SubmitProfile(users, s, form).Success?
    ensures var t := SubmitProfile(users, s, form).value;
            t.session.user == Some(Rec(t.users[i])) && t.users[i] == Merged(u, form)
  {
    SubmitKeepsIdentity(users, s, form, u, id, i);
    var t := SubmitProfile(users, s, form).value;
    assert SignedIn(s) == Some(u);
    assert t.session == Login(t.users, s, Field(u, "email"), Field(u, "password")).session by {
      assert HeldField(s.user.value, "email") == Field(u, "email");
      assert HeldField(s.user.value, "password") == Field(u, "password");
    }
    forall j | 0 <= j < |users| && j != i
      ensures Field(t.users[j], "email") != Field(u, "email")
    {
      assert FindIndex(users, ById(id)) != Some(j);
      assert t.users[j] == users[j];
    }
    LoginUniqueEmail(t.users, s, i, Field(u, "email"), Field(u, "password"));
  }

  /** As written, registration leaves a session from which the profile page
      cannot save: the submit writes nothing, and the form starts empty. */
  lemma AsWrittenRegisterBlocksProfile(users: Table, s: Session, email: string, password: string,
                                       firstname: string, lastname: string, birthdate: string,
                                       roll: nat, form: ProfileForm)
    requires roll < IdRange
    requires !EmailTaken(users, email)
    ensures var r := RegisterAsWritten(users, s, email, password, firstname, lastname, birthdate, roll);
            var p := SubmitProfile(r.users, r.session, form);
            p.Success? && !p.value.written && p.value.users == r.users &&
            InitialForm(r.session.user) == ProfileForm(Str(""), Str(""), Str(""), Str("Student"))
  {
  }

  /** With the corrected registration the new user can save a profile at
      once, and the form starts from the registered names. */
  lemma RegisterThenProfileSaves(users: Table, s: Session, email: string, password: string,
                                 firstname: string, lastname: string, birthdate: string,
                                 roll: nat, form: ProfileForm)
    requires roll < IdRange
    requires !EmailTaken(users, email)
    ensures var r := Register(users, s, email, password, firstname, lastname, birthdate, roll);
            SubmitProfile(r.users, r.session, form).Success? &&
            SubmitProfile(r.users, r.session, form).value.written &&
            InitialForm(r.session.user).userType == Str("Student")
  {
    var r := Register(users, s, email, password, firstname, lastname, birthdate, roll);
    var u := r.users[|users|];
    var id := NewId(roll);
    assert IdOf(u) == Some(id);
    assert GetById(r.users, id).Some? by {
      assert IdOf(r.users[|users|]) == Some(id);
    }
  }
}
