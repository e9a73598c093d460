/**
 * The user service: users are registered with an email no other user has, patched
 * field by field, read and removed.
 */
module UserService {
  import opened Common
  import opened Seqs
  import opened Domain
  import opened Database

  /** Every stored user has an email, and no two stored users share one. */
  ghost predicate DistinctEmails(users: seq<User>) {
    && (forall i :: 0 <= i < |users| ==> users[i].email.Some?)
    && (forall i, j :: 0 <= i < j < |users| ==> users[i].email != users[j].email)
  }

  /** Some stored user has this email. */
  ghost predicate EmailTaken(users: seq<User>, email: string) {
    exists u :: u in users && u.email == Some(email)
  }

  /**
   * emailValidation: the stream compares every stored user's email, so a stored user without
   * an email makes it throw (Internal); otherwise an email held by a stored user is a Conflict.
   * A missing email matches nobody.
   */
  function EmailValidation(users: seq<User>, email: Option<string>): (r: Outcome)
    ensures r == Fail(Internal) <==> exists u :: u in users && u.email.None?
    ensures r == Fail(Conflict) <==>
              (forall u :: u in users ==> u.email.Some?) && email.Some? && EmailTaken(users, email.value)
    ensures r.Fail? ==> r.error == Internal || r.error == Conflict
  {
    if Select(users, (u: User) => u.email.None?) != [] then
      assert forall u :: u in users && u.email.None? ==> u in Select(users, (u: User) => u.email.None?);
      Fail(Internal)
    else if Select(users, (u: User) => u.email == email) != [] then
      var s := Select(users, (u: User) => u.email == email);
      assert s[0] in s;
      Fail(Conflict)
    else
      assert forall u :: u in users && u.email == email ==> u in Select(users, (u: User) => u.email == email);
      Pass
  }

  /** While every stored user has an email, emailValidation does not throw. */
  lemma EmailValidationIsTotal(users: seq<User>, email: Option<string>)
    requires DistinctEmails(users)
    ensures EmailValidation(users, email) != Fail(Internal)
  {
    forall u | u in users ensures u.email.Some? {
      var i :| 0 <= i < |users| && users[i] == u;
    }
  }

  /** getAllUsers: every stored user. */
  function GetAllUsers(users: seq<User>): (r: seq<User>)
    ensures forall u :: u in r <==> u in users
    ensures |r| == |users|
  {
    users
  }

  /** getUserById: the stored user, or NotFound. */
  function GetUserById(users: seq<User>, userId: int): (r: Result<User>)
    ensures r.Err? <==> !Known(users, userId)
    ensures r.Err? ==> r.error == NotFound
    ensures r.Ok? ==> r.value in users && r.value.id == userId
  {
    match Find(users, UserId, userId)
    case None => Err(NotFound)
    case Some(u) => Ok(u)
  }

  /**
   * addUser: a missing email is Validation, then emailValidation decides; the saved user gets
   * a fresh id. The name is not checked.
   */
  function AddUserOutcome(users: seq<User>, d: UserDraft): (r: Result<User>)
    ensures d.email.None? ==> r == Err(Validation)
    ensures (DistinctEmails(users) && d.email.Some? && EmailTaken(users, d.email.value)) ==> r == Err(Conflict)
    ensures r.Ok? ==> d.email.Some? && !EmailTaken(users, d.email.value)
    ensures r.Ok? ==> r.value == User(NextKey(users, UserId), d.name, d.email)
    ensures (DistinctEmails(users) && d.email.Some? && !EmailTaken(users, d.email.value)) ==> r.Ok?
  {
    if d.email.None? then Err(Validation)
    else
      match EmailValidation(users, d.email)
      case Fail(e) => Err(e)
      case Pass => Ok(User(NextKey(users, UserId), d.name, d.email))
  }

  /** Adding a user keeps ids unique and emails present and distinct. */
  lemma AddKeepsDistinctEmails(users: seq<User>, d: UserDraft)
    requires UniqueKeys(users, UserId) && DistinctEmails(users)
    requires AddUserOutcome(users, d).Ok?
    ensures var us := users + [AddUserOutcome(users, d).value];
            UniqueKeys(us, UserId) && DistinctEmails(us)
  {
    var u := AddUserOutcome(users, d).value;
    AppendKeepsUnique(users, UserId, u);
    var us := users + [u];
    forall i, j | 0 <= i < j < |us| ensures us[i].email != us[j].email {
      if j == |users| {
        assert users[i] in users;
      }
    }
  }

  /**
   * updateUser: NotFound for an unknown user; then the patch's email goes through
   * emailValidation against all stored users, the updated one included; a field the patch
   * leaves out keeps its value. The id the patch carries is not used.
   */
  function UpdateUserOutcome(users: seq<User>, userId: int, d: UserDraft): (r: Result<User>)
    ensures !Known(users, userId) ==> r == Err(NotFound)
    ensures r.Ok? ==> exists u :: u in users && u.id == userId &&
                                  r.value == User(userId, if d.name.Some? then d.name else u.name,
                                                          if d.email.Some? then d.email else u.email)
    ensures r.Ok? && d.email.Some? ==> !EmailTaken(users, d.email.value)
    ensures (DistinctEmails(users) && Known(users, userId) && d.email.Some? && EmailTaken(users, d.email.value))
            ==> r == Err(Conflict)
    ensures (DistinctEmails(users) && Known(users, userId) && (d.email.None? || !EmailTaken(users, d.email.value)))
            ==> r.Ok?
  {
    match Find(users, UserId, userId)
    case None => Err(NotFound)
    case Some(u) =>
      match EmailValidation(users, d.email)
      case Fail(e) => Err(e)
      case Pass => Ok(u.(name := if d.name.Some? then d.name else u.name,
                         email := if d.email.Some? then d.email else u.email))
  }

  /** Resubmitting one's own email is a Conflict. */
  lemma OwnEmailConflicts(users: seq<User>, u: User, name: Option<string>)
    requires DistinctEmails(users) && u in users && u.email.Some?
    ensures UpdateUserOutcome(users, u.id, UserDraft(None, name, u.email)) == Err(Conflict)
  {
  }

  /** Updating a user keeps ids unique and emails present and distinct. */
  lemma UpdateKeepsDistinctEmails(users: seq<User>, userId: int, d: UserDraft)
    requires UniqueKeys(users, UserId) && DistinctEmails(users)
    requires UpdateUserOutcome(users, userId, d).Ok?
    ensures var us := Put(users, UserId, UpdateUserOutcome(users, userId, d).value);
            UniqueKeys(us, UserId) && DistinctEmails(us)
  {
    var nu := UpdateUserOutcome(users, userId, d).value;
    var m :| 0 <= m < |users| && users[m].id == userId;
    PutKeepsKeys(users, UserId, nu);
    var us := Put(users, UserId, nu);
    assert forall i :: 0 <= i < |users| && i != m ==> us[i] == users[i];
    assert us[m] == nu;
    forall i, j | 0 <= i < j < |us| ensures us[i].email != us[j].email {
      if i == m && d.email.Some? {
        assert users[j] in users;
      } else if j == m && d.email.Some? {
        assert users[i] in users;
      }
    }
  }

  /** removeUserById: NotFound for an unknown user, else the table without that user. */
  function RemoveUserById(users: seq<User>, userId: int): (r: Result<seq<User>>)
    ensures r.Err? <==> !Known(users, userId)
    ensures r.Err? ==> r.error == NotFound
    ensures r.Ok? ==> forall u :: u in r.value <==> u in users && u.id != userId
  {
    if Find(users, UserId, userId).None? then Err(NotFound)
    else Ok(Select(users, (u: User) => u.id != userId))
  }

  /** Register the user that `AddUserOutcome` decides on. */
  method AddUser(db: Store, d: UserDraft) returns (r: Result<User>)
    requires db.Valid()
    modifies db`users
    ensures r == AddUserOutcome(old(db.users), d)
    ensures db.users == if r.Ok? then old(db.users) + [r.value] else old(db.users)
    ensures db.Valid()
    ensures DistinctEmails(old(db.users)) ==> DistinctEmails(db.users)
  {
    r := AddUserOutcome(db.users, d);
    if r.Ok? {
      AppendKeepsUnique(db.users, UserId, r.value);
      if DistinctEmails(db.users) {
        AddKeepsDistinctEmails(db.users, d);
      }
      db.users := db.users + [r.value];
    }
  }

  /** Save the user that `UpdateUserOutcome` produces. */
  method UpdateUser(db: Store, userId: int, d: UserDraft) returns (r: Result<User>)
    requires db.Valid()
    modifies db`users
    ensures r == UpdateUserOutcome(old(db.users), userId, d)
    ensures db.users == if r.Ok? then Put(old(db.users), UserId, r.value) else old(db.users)
    ensures db.Valid()
    ensures DistinctEmails(old(db.users)) ==> DistinctEmails(db.users)
  {
    r := UpdateUserOutcome(db.users, userId, d);
    if r.Ok? {
      PutKeepsKeys(db.users, UserId, r.value);
      if DistinctEmails(db.users) {
        UpdateKeepsDistinctEmails(db.users, userId, d);
      }
      db.users := Put(db.users, UserId, r.value);
    }
  }

  /** Delete the user, as `RemoveUserById` decides. */
  method RemoveUser(db: Store, userId: int) returns (r: Outcome)
    requires db.Valid()
    modifies db`users
    ensures var t := RemoveUserById(old(db.users), userId);
            (t.Err? ==> r == Fail(t.error) && db.users == old(db.users)) && (t.Ok? ==> r == Pass && db.users == t.value)
    ensures db.Valid()
  {
    var t := RemoveUserById(db.users, userId);
    if t.Ok? {
      SelectKeepsUnique(db.users, UserId, (u: User) => u.id != userId);
      db.users := t.value;
      r := Pass;
    } else {
      r := Fail(t.error);
    }
  }

  /** removeAllUsers: the users table becomes empty. */
  method RemoveAllUsers(db: Store)
    requires db.Valid()
    modifies db`users
    ensures db.users == []
    ensures db.Valid()
  {
    db.users := [];
  }
}
