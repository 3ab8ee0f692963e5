/** Session logic of `AuthContext`: a linear-scan login over the `users`
    table, registration with an email-uniqueness check, logout, and the
    startup restore of the saved session snapshot. The snapshot written to
    `localStorage["user"]` is always the value put in the session, so the
    session's `user` stands for both. */
module Auth {
  import opened Wrappers
  import opened Store

  /** The context state: the signed-in user (None for `null`) and whether the
      startup restore is still pending. */
  datatype Session = Session(user: Option<Held>, loading: bool)

  /** The state before the startup effect runs. */
  const Start: Session := Session(None, true)

  /** The startup effect: a saved snapshot, when there is one, becomes the
      session; loading ends either way. */
  function Restore(s: Session, saved: Option<Held>): (r: Session)
    ensures !r.loading
    ensures saved.Some? ==> r.user == saved
    ensures saved.None? ==> r.user == s.user
  {
    match saved
    case Some(h) => Session(Some(h), false)
    case None => Session(s.user, false)
  }

  /** Restoring from the start state either leaves nobody signed in or signs
      in the saved snapshot. */
  lemma RestoreFromStart(saved: Option<Held>)
    ensures Restore(Start, saved).user == saved
    ensures !Restore(Start, saved).loading
  {
  }

  /** `user && user.userType === "Teacher"`. */
  predicate IsTeacher(user: Option<Held>) {
    user.Some? && user.value.Rec? && Field(user.value.record, "userType") == Some(Str("Teacher"))
  }

  /** `u => u.email === email && u.password === password`. */
  function Credentials(email: Option<Value>, password: Option<Value>): Query {
    Both(FieldEq("email", email), FieldEq("password", password))
  }

  lemma CredentialsIff(email: Option<Value>, password: Option<Value>)
    ensures forall u :: Matches(u, Credentials(email, password)) <==>
                        Field(u, "email") == email && Field(u, "password") == password
  {
  }

  /** What `login` returns and the session it leaves. */
  datatype LoginResult = LoginResult(ok: bool, session: Session)

  /** `login(email, password)`: the first user whose email and password are
      both strictly equal to the arguments becomes the session; with no such
      user the result is false and the session is untouched. */
  function Login(users: Table, s: Session, email: Option<Value>, password: Option<Value>): (r: LoginResult)
    ensures r.ok <==> exists i :: 0 <= i < |users| &&
                        Field(users[i], "email") == email && Field(users[i], "password") == password
    ensures r.ok ==> exists i :: 0 <= i < |users| && r.session.user == Some(Rec(users[i])) &&
                        Field(users[i], "email") == email && Field(users[i], "password") == password &&
                        forall j :: 0 <= j < i ==>
                          !(Field(users[j], "email") == email && Field(users[j], "password") == password)
    ensures !r.ok ==> r.session == s
    ensures r.session.loading == s.loading
  {
    CredentialsIff(email, password);
    match Find(users, Credentials(email, password))
    case None => LoginResult(false, s)
    case Some(u) => LoginResult(true, Session(Some(Rec(u)), s.loading))
  }

  /** With an email no other user holds, a login with the matching password
      signs in exactly that user. */
  lemma LoginUniqueEmail(users: Table, s: Session, i: nat, email: Option<Value>, password: Option<Value>)
    requires i < |users|
    requires Field(users[i], "email") == email && Field(users[i], "password") == password
    requires forall j :: 0 <= j < |users| && j != i ==> Field(users[j], "email") != email
    ensures Login(users, s, email, password) == LoginResult(true, Session(Some(Rec(users[i])), s.loading))
  {
    var l := Login(users, s, email, password);
    assert l.ok;
    var k :| 0 <= k < |users| && l.session.user == Some(Rec(users[k])) && Field(users[k], "email") == email;
    assert k == i;
  }

  /** `logout()`: nobody is signed in. */
  function Logout(s: Session): (r: Session)
    ensures r.user.None?
    ensures r.loading == s.loading
  {
    Session(None, s.loading)
  }

  /** The record `register` creates, before the id is added. */
  function NewUser(email: string, password: string, firstname: string, lastname: string,
                   birthdate: string): (u: Record)
    ensures u.Keys == {"email", "password", "firstname", "lastname", "birthdate", "userType"}
    ensures u["userType"] == Str("Student")
  {
    map["email" := Str(email), "password" := Str(password), "firstname" := Str(firstname),
        "lastname" := Str(lastname), "birthdate" := Str(birthdate), "userType" := Str("Student")]
  }

  /** What `register` returns, the users table it leaves and the session. */
  datatype Registered = Registered(ok: bool, users: Table, session: Session)

  predicate EmailTaken(users: Table, email: string) {
    GetByField(users, "email", Some(Str(email))).Some?
  }

  /** `register(...)` as the source writes it: the session receives what
      `create` returns, which is the new id string, not the new record. */
  function RegisterAsWritten(users: Table, s: Session, email: string, password: string,
                             firstname: string, lastname: string, birthdate: string,
                             roll: nat): (r: Registered)
    requires roll < IdRange
    ensures !r.ok <==> EmailTaken(users, email)
    ensures !r.ok ==> r.users == users && r.session == s
    ensures r.ok ==> r.session.user == Some(Bare(NewId(roll)))
    ensures r.ok ==> |r.users| == |users| + 1 && r.users[..|users|] == users &&
                     r.users[|users|] == Stamp(NewId(roll), NewUser(email, password, firstname, lastname, birthdate))
    ensures r.session.loading == s.loading
  {
    if EmailTaken(users, email) then Registered(false, users, s)
    else
      var c := Create(users, roll, NewUser(email, password, firstname, lastname, birthdate));
      Registered(true, c.table, Session(Some(Bare(c.id)), s.loading))
  }

  /** As written, a successful registration leaves a session that is not the
      stored user: it holds no email, no name and no user type, so the
      application cannot tell who is signed in or whether they teach. */
  lemma RegisterAsWrittenLosesUser(users: Table, s: Session, email: string, password: string,
                                   firstname: string, lastname: string, birthdate: string, roll: nat)
    requires roll < IdRange
    requires !EmailTaken(users, email)
    ensures var r := RegisterAsWritten(users, s, email, password, firstname, lastname, birthdate, roll);
            r.ok && r.session.user != Some(Rec(r.users[|users|])) && !IsTeacher(r.session.user) &&
            r.session.user.value.Bare?
  {
  }

  /** `register(...)` as evidently intended: a new user with the five given
      fields and user type "Student" is appended, and that record becomes the
      session. An email already in use changes nothing. */
  function Register(users: Table, s: Session, email: string, password: string,
                    firstname: string, lastname: string, birthdate: string,
                    roll: nat): (r: Registered)
    requires roll < IdRange
    ensures !r.ok <==> EmailTaken(users, email)
    ensures !r.ok ==> r.users == users && r.session == s
    ensures r.ok ==> |r.users| == |users| + 1 && r.users[..|users|] == users
    ensures r.ok ==> r.session.user == Some(Rec(r.users[|users|]))
    ensures r.ok ==> var u := r.users[|users|];
              u.Keys == {"id", "email", "password", "firstname", "lastname", "birthdate", "userType"} &&
              u["email"] == Str(email) && u["password"] == Str(password) &&
              u["firstname"] == Str(firstname) && u["lastname"] == Str(lastname) &&
              u["birthdate"] == Str(birthdate) && u["userType"] == Str("Student") &&
              IdOf(u) == Some(NewId(roll))
    ensures r.session.loading == s.loading
  {
    if EmailTaken(users, email) then Registered(false, users, s)
    else
      var c := Create(users, roll, NewUser(email, password, firstname, lastname, birthdate));
      NewUserStamped(c.id, email, password, firstname, lastname, birthdate);
      Registered(true, c.table, Session(Some(Rec(c.table[|users|])), s.loading))
  }

  /** The created account holds its id and the six registered fields. */
  lemma NewUserStamped(id: string, email: string, password: string, firstname: string, lastname: string,
                       birthdate: string)
    ensures var u := Stamp(id, NewUser(email, password, firstname, lastname, birthdate));
            u.Keys == {"id", "email", "password", "firstname", "lastname", "birthdate", "userType"} &&
            u["email"] == Str(email) && u["password"] == Str(password) &&
            u["firstname"] == Str(firstname) && u["lastname"] == Str(lastname) &&
            u["birthdate"] == Str(birthdate) && u["userType"] == Str("Student") &&
            IdOf(u) == Some(id)
  {
    assert "id" !in NewUser(email, password, firstname, lastname, birthdate);
  }

  /** Email uniqueness makes the fresh account the one a login with its
      credentials finds: registering and then logging in yields the same
      session. */
  lemma RegisterThenLogin(users: Table, s: Session, email: string, password: string,
                          firstname: string, lastname: string, birthdate: string, roll: nat)
    requires roll < IdRange
    requires !EmailTaken(users, email)
    ensures var r := Register(users, s, email, password, firstname, lastname, birthdate, roll);
            Login(r.users, s, Some(Str(email)), Some(Str(password))) == LoginResult(true, r.session)
  {
    var r := Register(users, s, email, password, firstname, lastname, birthdate, roll);
    var l := Login(r.users, s, Some(Str(email)), Some(Str(password)));
    assert Field(r.users[|users|], "email") == Some(Str(email));
    assert forall j :: 0 <= j < |users| ==> r.users[j] == users[j];
    assert l.ok;
    var i :| 0 <= i < |r.users| && l.session.user == Some(Rec(r.users[i])) &&
             Field(r.users[i], "email") == Some(Str(email)) &&
             Field(r.users[i], "password") == Some(Str(password));
    assert i == |users|;
  }
}
