/** The account directory and the session: `register` and `login` of
    LisaBeautyCorner/app.js as functions from the stored user list to the
    new user list or the new session. */
module Accounts {
  import opened Results
  import opened Errors
  import Text

  /** A stored user; the password is kept as given, in plain text. */
  datatype User = User(id: string, name: string, email: string, password: string)

  /** The stored session, denormalised from the user who logged in. */
  datatype Session = Session(userId: string, name: string, email: string)

  function SessionOf(u: User): Session {
    Session(u.id, u.name, u.email)
  }

  /** The directory invariant: stored emails are in normal form and pairwise
      distinct, and user ids are pairwise distinct. */
  ghost predicate DirectoryValid(users: seq<User>) {
    && (forall i :: 0 <= i < |users| ==> Text.IsNormalEmail(users[i].email))
    && (forall i, j :: 0 <= i < j < |users| ==> users[i].email != users[j].email)
    && (forall i, j :: 0 <= i < j < |users| ==> users[i].id != users[j].id)
  }

  /** What `uid()` is trusted to deliver: an id no stored user has. */
  ghost predicate FreshUserId(users: seq<User>, id: string) {
    forall i :: 0 <= i < |users| ==> users[i].id != id
  }

  /** A session that names a stored user. */
  ghost predicate SessionValid(users: seq<User>, session: Option<Session>) {
    session.Some? ==> SessionOfSome(users, session.value)
  }

  /** `s` is the session of one of `users`: the existential
      `exists i :: 0 <= i < |users| && SessionOf(users[i]) == s`, written as
      a recursion from the end of the list so that SessionOfStored and
      SessionOfSomeAppend can proceed by induction and by one unfolding. */
  ghost predicate SessionOfSome(users: seq<User>, s: Session)
    decreases |users|
  {
    users != [] && (SessionOf(users[|users| - 1]) == s || SessionOfSome(users[..|users| - 1], s))
  }

  /** The session of any stored user names a stored user. */
  lemma {:induction false} SessionOfStored(users: seq<User>, i: int)
    requires 0 <= i < |users|
    ensures SessionOfSome(users, SessionOf(users[i]))
    decreases |users|
  {
    if i < |users| - 1 {
      var init := users[..|users| - 1];
      assert init[i] == users[i];
      SessionOfStored(init, i);
    }
  }

  /** SessionOfSome is the existential its comment gives. */
  lemma {:induction false} SessionOfSomeIsExists(users: seq<User>, s: Session)
    ensures SessionOfSome(users, s) <==> exists i :: 0 <= i < |users| && SessionOf(users[i]) == s
    decreases |users|
  {
    if exists i :: 0 <= i < |users| && SessionOf(users[i]) == s {
      var i :| 0 <= i < |users| && SessionOf(users[i]) == s;
      SessionOfStored(users, i);
    }
    if SessionOfSome(users, s) {
      var n := |users| - 1;
      if SessionOf(users[n]) != s {
        var init := users[..n];
        SessionOfSomeIsExists(init, s);
        var i :| 0 <= i < |init| && SessionOf(init[i]) == s;
        assert users[i] == init[i];
      }
    }
  }

  /** Appending a user keeps every stored session stored. */
  lemma SessionOfSomeAppend(users: seq<User>, u: User, s: Session)
    requires SessionOfSome(users, s)
    ensures SessionOfSome(users + [u], s)
  {
    assert (users + [u])[..|users|] == users;
  }

  /** `users.some(u => u.email === email)`. */
  function HasEmail(users: seq<User>, email: string): (b: bool)
    ensures b <==> exists i :: 0 <= i < |users| && users[i].email == email
  {
    if users == [] then false
    else if users[0].email == email then true
    else
      var b := HasEmail(users[1..], email);
      assert forall i :: 1 <= i < |users| ==> users[i] == users[1..][i - 1];
      b
  }

  predicate Matches(u: User, email: string, password: string) {
    u.email == email && u.password == password
  }

  /** `i` is the position of the first user with this email and password. */
  ghost predicate FirstMatch(users: seq<User>, i: int, email: string, password: string) {
    && 0 <= i < |users|
    && Matches(users[i], email, password)
    && forall j :: 0 <= j < i ==> !Matches(users[j], email, password)
  }

  /** `users.find(u => u.email === email && u.password === password)`, as
      the position of the user found. */
  function FindUser(users: seq<User>, email: string, password: string): (r: Option<nat>)
    ensures r.Some? ==> FirstMatch(users, r.value, email, password)
    ensures r.None? ==> forall j :: 0 <= j < |users| ==> !Matches(users[j], email, password)
  {
    if users == [] then None
    else if Matches(users[0], email, password) then Some(0)
    else match FindUser(users[1..], email, password)
      case None =>
        assert forall j :: 1 <= j < |users| ==> users[j] == users[1..][j - 1];
        None
      case Some(k) =>
        assert forall j :: 1 <= j < k + 1 ==> users[j] == users[1..][j - 1];
        Some(k + 1)
  }

  /** register(name, email, password) with `id` standing for `uid()`: fails
      when a stored user already has the normalised email, and otherwise
      appends one user with the trimmed name and the normalised email. */
  function Register(users: seq<User>, name: string, email: string, password: string, id: string)
    : (r: Result<seq<User>, Error>)
    ensures r.Failure? <==> exists i :: 0 <= i < |users| && users[i].email == Text.NormalizeEmail(email)
    ensures r.Failure? ==> r.error == EmailAlreadyRegistered
    ensures r.Success? ==> |r.value| == |users| + 1 && r.value[..|users|] == users
    ensures r.Success? ==> r.value[|users|] == User(id, Text.Trim(name), Text.NormalizeEmail(email), password)
  {
    var e := Text.NormalizeEmail(email);
    if HasEmail(users, e) then Failure(EmailAlreadyRegistered)
    else Success(users + [User(id, Text.Trim(name), e, password)])
  }

  /** login(email, password): succeeds exactly when some stored user has
      the normalised email and the very same password, and then yields the
      session of the first such user. */
  function Login(users: seq<User>, email: string, password: string): (r: Result<Session, Error>)
    ensures r.Success? <==> exists i :: 0 <= i < |users| && Matches(users[i], Text.NormalizeEmail(email), password)
    ensures r.Failure? ==> r.error == InvalidCredentials
    ensures r.Success? ==>
      exists i :: FirstMatch(users, i, Text.NormalizeEmail(email), password) && r.value == SessionOf(users[i])
  {
    var e := Text.NormalizeEmail(email);
    match FindUser(users, e, password)
    case None => Failure(InvalidCredentials)
    case Some(i) =>
      assert FirstMatch(users, i, e, password);
      Success(SessionOf(users[i]))
  }

  /** Registration keeps the directory invariant: the new email is in normal
      form and differs from every stored one. */
  lemma RegisterKeepsDirectoryValid(users: seq<User>, name: string, email: string, password: string, id: string)
    requires DirectoryValid(users)
    requires FreshUserId(users, id)
    ensures Register(users, name, email, password, id).Success? ==>
      DirectoryValid(Register(users, name, email, password, id).value)
  {
    var r := Register(users, name, email, password, id);
    if r.Success? {
      var u := r.value[|users|];
      assert r.value == users + [u];
      AppendKeepsDirectoryValid(users, u);
    }
  }

  lemma AppendKeepsDirectoryValid(users: seq<User>, u: User)
    requires DirectoryValid(users)
    requires Text.IsNormalEmail(u.email)
    requires forall i :: 0 <= i < |users| ==> users[i].id != u.id && users[i].email != u.email
    ensures DirectoryValid(users + [u])
  {
    var us := users + [u];
    forall i, j | 0 <= i < j < |us| ensures us[i].id != us[j].id && us[i].email != us[j].email {
      assert us[i] == users[i];
      if j < |users| { assert us[j] == users[j]; }
    }
  }

  /** Registration never changes the session nor invalidates it: the user
      it names stays stored. */
  lemma RegisterKeepsSessionValid(users: seq<User>, session: Option<Session>, name: string, email: string, password: string, id: string)
    requires SessionValid(users, session)
    ensures Register(users, name, email, password, id).Success? ==>
      SessionValid(Register(users, name, email, password, id).value, session)
  {
    var r := Register(users, name, email, password, id);
    if r.Success? && session.Some? {
      RegisterAppends(users, name, email, password, id);
      SessionOfSomeAppend(users, r.value[|users|], session.value);
    }
  }

  /** One register step, as the stateful layer performs it: the outcome,
      and the invariants of the new user list. */
  lemma RegisterStep(users: seq<User>, session: Option<Session>, name: string, email: string, password: string, id: string)
    requires DirectoryValid(users) && SessionValid(users, session) && FreshUserId(users, id)
    ensures HasEmail(users, Text.NormalizeEmail(email)) ==>
      Register(users, name, email, password, id) == Failure(EmailAlreadyRegistered)
    ensures !HasEmail(users, Text.NormalizeEmail(email)) ==>
      var us := users + [User(id, Text.Trim(name), Text.NormalizeEmail(email), password)];
      Register(users, name, email, password, id) == Success(us) && DirectoryValid(us) && SessionValid(us, session)
  {
    if !HasEmail(users, Text.NormalizeEmail(email)) {
      RegisterKeepsDirectoryValid(users, name, email, password, id);
      RegisterKeepsSessionValid(users, session, name, email, password, id);
      RegisterAppends(users, name, email, password, id);
    }
  }

  /** A second registration with the same email, in any letter case and with
      any surrounding white space, fails and leaves the directory as it was. */
  lemma SecondRegistrationFails(users: seq<User>, name: string, email: string, password: string, id: string,
                                name2: string, email2: string, password2: string, id2: string, pre: string, post: string)
    requires Register(users, name, email, password, id).Success?
    requires Text.ToLower(email2) == Text.ToLower(email)
    requires Text.AllSpace(pre) && Text.AllSpace(post)
    ensures Register(Register(users, name, email, password, id).value, name2, pre + email2 + post, password2, id2)
      == Failure(EmailAlreadyRegistered)
  {
    var us := Register(users, name, email, password, id).value;
    Text.NormalizeEmailIgnoresCaseAndPadding(email2, email, pre, post);
    assert us[|users|].email == Text.NormalizeEmail(pre + email2 + post);
  }

  /** Right after a registration, logging in with that email (in any letter
      case) and the same password yields the new user's session. */
  lemma RegisterThenLogin(users: seq<User>, name: string, email: string, password: string, id: string, email2: string)
    requires Register(users, name, email, password, id).Success?
    requires Text.ToLower(email2) == Text.ToLower(email)
    ensures Login(Register(users, name, email, password, id).value, email2, password)
      == Success(Session(id, Text.Trim(name), Text.NormalizeEmail(email)))
  {
    var u := User(id, Text.Trim(name), Text.NormalizeEmail(email), password);
    RegisterAppends(users, name, email, password, id);
    assert Text.NormalizeEmail(email2) == u.email;
    LoginAfterAppend(users, u, email2, password);
  }

  lemma LoginAfterAppend(users: seq<User>, u: User, email: string, password: string)
    requires u.email == Text.NormalizeEmail(email) && u.password == password
    requires forall j :: 0 <= j < |users| ==> users[j].email != u.email
    ensures Login(users + [u], email, password) == Success(SessionOf(u))
  {
    FindUserUnique(users + [u], |users|, u.email, password);
  }

  lemma RegisterAppends(users: seq<User>, name: string, email: string, password: string, id: string)
    requires Register(users, name, email, password, id).Success?
    ensures Register(users, name, email, password, id).value
      == users + [User(id, Text.Trim(name), Text.NormalizeEmail(email), password)]
    ensures forall j :: 0 <= j < |users| ==> users[j].email != Text.NormalizeEmail(email)
  {
  }

  /** When no other user has the email, find stops at the one that has it. */
  lemma FindUserUnique(users: seq<User>, i: nat, email: string, password: string)
    requires i < |users| && Matches(users[i], email, password)
    requires forall j :: 0 <= j < |users| && j != i ==> users[j].email != email
    ensures FindUser(users, email, password) == Some(i)
  {
  }

  /** Under the directory invariant the first match is the only one: login
      yields the session of the one user with that email, if the password
      is right. */
  lemma LoginFindsTheUser(users: seq<User>, i: nat, email: string, password: string)
    requires DirectoryValid(users)
    requires i < |users| && users[i].email == Text.NormalizeEmail(email) && users[i].password == password
    ensures Login(users, email, password) == Success(SessionOf(users[i]))
  {
    FindUserUnique(users, i, users[i].email, password);
  }

  /** The example scenario: register Ann, then log in with the email in another
      case (succeeds with her record) and with a wrong password (fails). */
  lemma AnnScenario(id: string)
    ensures Register([], "Ann", "a@x.com", "pw1", id).Success?
    ensures var us := Register([], "Ann", "a@x.com", "pw1", id).value;
      && Login(us, "A@X.com", "pw1") == Success(Session(id, "Ann", "a@x.com"))
      && Login(us, "a@x.com", "wrong") == Failure(InvalidCredentials)
  {
    AnnText();
    RegisterThenLogin([], "Ann", "a@x.com", "pw1", id, "A@X.com");
    RegisterAppends([], "Ann", "a@x.com", "pw1", id);
    var us := [User(id, "Ann", "a@x.com", "pw1")];
    assert FindUser(us, "a@x.com", "wrong") == None;
  }

  lemma AnnText()
    ensures Text.Trim("Ann") == "Ann"
    ensures Text.NormalizeEmail("a@x.com") == "a@x.com"
    ensures Text.ToLower("A@X.com") == Text.ToLower("a@x.com")
  {
    AnnName();
    AnnEmail();
    AnnEmailLower();
    AnnEmailUpper();
  }

  lemma AnnName()
    ensures Text.Trim("Ann") == "Ann"
  {
    var name := "Ann";
    assert name[0] == 'A' && !Text.IsSpace(name[0]);
    assert name[|name| - 1] == 'n' && !Text.IsSpace(name[|name| - 1]);
    assert Text.TrimStart(name) == name;
  }

  lemma AnnEmail()
    ensures Text.NormalizeEmail("a@x.com") == "a@x.com"
  {
    var lower := "a@x.com";
    assert Text.IsNormalEmail(lower) by {
      assert Text.NoUpper(lower);
      assert lower[0] == 'a' && !Text.IsSpace(lower[0]);
      assert lower[|lower| - 1] == 'm' && !Text.IsSpace(lower[|lower| - 1]);
    }
    Text.NormalizeEmailFixesNormal(lower);
  }

  lemma AnnEmailLower()
    ensures Text.ToLower("a@x.com") == "a@x.com"
  {
    var lower := "a@x.com";
    assert Text.NoUpper(lower);
    Text.ToLowerOfLower(lower);
  }

  lemma AnnEmailUpper()
    ensures Text.ToLower("A@X.com") == "a@x.com"
  {
    var upper := "A@X.com";
    var r := Text.ToLower(upper);
    assert r[0] == 'a' && r[2] == 'x';
    assert forall i :: 0 <= i < 7 && i != 0 && i != 2 ==> upper[i] == "a@x.com"[i];
  }
}
