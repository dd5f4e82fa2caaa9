/** The user store (`UserService`): accounts whose usernames and emails are
    unique ignoring case. Password hashing and checking are the functions
    `hash` and `verify` the registry is built with. */
module Users {
  import opened Common
  import opened Text
  import opened Queries

  datatype Role = Customer | Staff | Admin

  datatype User = User(id: int, username: string, email: string, passwordHash: string, role: Role)

  function UserKey(u: User): int { u.id }

  function UsernameKey(u: User): string { u.username }

  predicate UserExists(us: seq<User>, id: int) {
    exists j :: 0 <= j < |us| && us[j].id == id
  }

  /** Some user, other than `exclude`, has this username ignoring case. */
  predicate UsernameTaken(us: seq<User>, username: string, exclude: Option<int>) {
    exists i :: 0 <= i < |us| && Lower(us[i].username) == Lower(username)
                              && (exclude.None? || us[i].id != exclude.value)
  }

  /** Some user, other than `exclude`, has this email ignoring case. */
  predicate EmailTaken(us: seq<User>, email: string, exclude: Option<int>) {
    exists i :: 0 <= i < |us| && Lower(us[i].email) == Lower(email)
                              && (exclude.None? || us[i].id != exclude.value)
  }

  /** No two users share a username or an email, ignoring case. */
  ghost predicate UniqueLogins(us: seq<User>) {
    forall i, j :: 0 <= i < |us| && 0 <= j < |us| && i != j ==>
      Lower(us[i].username) != Lower(us[j].username) && Lower(us[i].email) != Lower(us[j].email)
  }

  /** `GetUserAsync`: the user with this id, if stored. */
  function Find(us: seq<User>, id: int): (r: Option<User>)
    ensures r.Some? ==> r.value in us && r.value.id == id
    ensures r.None? <==> !UserExists(us, id)
  {
    match IndexOfKey(us, UserKey, id)
    case None => None
    case Some(k) => Some(us[k])
  }

  /** `GetUserByUsernameAsync`: the first user whose username is exactly
      `username`. */
  function FindByUsername(us: seq<User>, username: string): (r: Option<User>)
    ensures r.Some? ==> r.value in us && r.value.username == username
    ensures r.None? <==> forall i :: 0 <= i < |us| ==> us[i].username != username
  {
    match IndexOfKey(us, UsernameKey, username)
    case None => None
    case Some(k) => Some(us[k])
  }

  /** With unique logins every stored user is found by its own username. */
  lemma FindByOwnUsername(us: seq<User>, k: nat)
    requires k < |us| && UniqueLogins(us)
    ensures FindByUsername(us, us[k].username) == Some(us[k])
  {
    assert UsernameKey(us[k]) == us[k].username;
    assert forall j :: 0 <= j < |us| && j != k ==> Lower(us[j].username) != Lower(us[k].username);
  }

  /** `VerifyPasswordAsync`: the user named `username` exists, has a hash,
      and `verify` accepts the password against it. */
  predicate VerifyPassword(us: seq<User>, verify: (string, string) -> bool, username: string, password: string) {
    match FindByUsername(us, username)
    case None => false
    case Some(u) => u.passwordHash != [] && verify(password, u.passwordHash)
  }

  lemma VerifiedUserExists(us: seq<User>, verify: (string, string) -> bool, username: string, password: string)
    requires VerifyPassword(us, verify, username, password)
    ensures FindByUsername(us, username).Some?
    ensures exists i :: 0 <= i < |us| && us[i].username == username
  {
    assert FindByUsername(us, username).value in us;
  }

  /** `AddUserAsync`'s checks: a password that is not blank and has at
      least six characters, and a username and an email no stored user has
      ignoring case. */
  predicate AddUserAccepts(us: seq<User>, user: User, plainPassword: string) {
    && !IsBlank(plainPassword) && |plainPassword| >= 6
    && !UsernameTaken(us, user.username, None)
    && !EmailTaken(us, user.email, None)
  }

  /** The row `AddUserAsync` stores: the user under the id the store
      assigns, with the password's hash. */
  function Registered(user: User, id: int, passwordHash: string): User {
    user.(id := id, passwordHash := passwordHash)
  }

  lemma {:induction false} AddKeepsUniqueLogins(us: seq<User>, user: User, plainPassword: string, id: int, passwordHash: string)
    requires UniqueLogins(us) && AddUserAccepts(us, user, plainPassword)
    ensures UniqueLogins(us + [Registered(user, id, passwordHash)])
  {
    var us' := us + [Registered(user, id, passwordHash)];
    forall i, j | 0 <= i < |us'| && 0 <= j < |us'| && i != j
      ensures Lower(us'[i].username) != Lower(us'[j].username) && Lower(us'[i].email) != Lower(us'[j].email)
    {
      if i < |us| && j < |us| {
        assert us'[i] == us[i] && us'[j] == us[j];
      } else if i < |us| {
        assert us'[i] == us[i];
      } else {
        assert us'[j] == us[j];
      }
    }
  }

  /** A user that registration accepted can log in with the password it gave,
      provided `verify` accepts every password against its own non-empty
      hash. */
  lemma {:induction false} RegisteredUserCanLogIn(us: seq<User>, user: User, plainPassword: string, id: int,
                                                  hash: string -> string, verify: (string, string) -> bool)
    requires AddUserAccepts(us, user, plainPassword)
    requires hash(plainPassword) != [] && verify(plainPassword, hash(plainPassword))
    ensures FindByUsername(us + [Registered(user, id, hash(plainPassword))], user.username)
            == Some(Registered(user, id, hash(plainPassword)))
    ensures VerifyPassword(us + [Registered(user, id, hash(plainPassword))], verify, user.username, plainPassword)
  {
    var stored := Registered(user, id, hash(plainPassword));
    var us' := us + [stored];
    forall i | 0 <= i < |us| ensures UsernameKey(us'[i]) != user.username {
      assert us'[i] == us[i];
      assert Lower(us[i].username) != Lower(user.username);
    }
    assert UsernameKey(us'[|us|]) == user.username;
  }

  /** `DoesEmailExistForAnotherUserAsync`: a blank email never clashes;
      otherwise some user other than `currentUserId` has it ignoring case. */
  predicate EmailExistsForAnotherUser(us: seq<User>, email: string, currentUserId: int) {
    !IsBlank(email) && EmailTaken(us, email, Some(currentUserId))
  }

  /** A user's own email never counts as another user's. */
  lemma OwnEmailNeverClashes(us: seq<User>, k: nat)
    requires k < |us| && KeysDistinct(us, UserKey) && UniqueLogins(us)
    ensures !EmailExistsForAnotherUser(us, us[k].email, us[k].id)
  {
    forall i | 0 <= i < |us| && us[i].id != us[k].id ensures Lower(us[i].email) != Lower(us[k].email) {
      assert i != k;
    }
  }

  /** The edited row: the trimmed username and the trimmed, lowered email;
      id, hash and role kept. */
  function Edited(existing: User, user: User): User {
    existing.(username := Trim(user.username), email := Lower(Trim(user.email)))
  }

  /** `UpdateUserAsync` as written: `None` for a refused edit, otherwise the
      new rows. The uniqueness checks run only for a value that differs from
      the stored one, and compare the incoming value before it is trimmed. */
  function UpdateAsWritten(us: seq<User>, user: User): (r: Option<seq<User>>)
    ensures r.Some? <==>
              && user.id > 0 && Find(us, user.id).Some?
              && !(Find(us, user.id).value.username != user.username && UsernameTaken(us, user.username, Some(user.id)))
              && !(Find(us, user.id).value.email != user.email && EmailTaken(us, user.email, Some(user.id)))
    ensures r.Some? ==>
              exists k :: (0 <= k < |us| && us[k].id == user.id &&
                           r.value == us[k := us[k].(username := Trim(user.username), email := Lower(Trim(user.email)))])
  {
    if user.id <= 0 then None
    else match IndexOfKey(us, UserKey, user.id)
      case None => None
      case Some(k) =>
        var edited := Edited(us[k], user);
        var nameClash := us[k].username != user.username && UsernameTaken(us, user.username, Some(user.id));
        var emailClash := us[k].email != user.email && EmailTaken(us, user.email, Some(user.id));
        if nameClash || emailClash then None
        else Some(us[k := edited])
  }

  lemma TrimmedBob()
    ensures Trim(" bob") == "bob"
  {
    assert " bob"[1..] == "bob";
    assert TrimStart("bob") == "bob";
    assert TrimStart(" bob") == "bob";
    assert TrimEnd("bob") == "bob";
  }

  /** Two users, "bob" and "ann", with distinct logins. */
  const SampleUsers: seq<User> := [User(1, "bob", "b@x", "h", Customer), User(2, "ann", "a@x", "h", Customer)]

  /** The edit that renames "ann" to " bob". */
  const SampleRename: User := User(2, " bob", "a@x", "", Customer)

  lemma SampleUsersUnique()
    ensures UniqueLogins(SampleUsers)
  {
    assert Lower("bob")[0] == 'b' && Lower("ann")[0] == 'a';
    assert Lower("b@x")[0] == 'b' && Lower("a@x")[0] == 'a';
  }

  /** No other user has the untrimmed " bob" (it is one character longer
      than "bob"), and the email is unchanged, so the edit as written goes
      through. */
  lemma SampleRenamePassesCheck()
    ensures UpdateAsWritten(SampleUsers, SampleRename) == Some(SampleUsers[1 := Edited(SampleUsers[1], SampleRename)])
  {
    assert IndexOfKey(SampleUsers, UserKey, 2) == Some(1);
    assert |Lower(" bob")| == 4 && |Lower("bob")| == 3 && |Lower("ann")| == 3;
    assert !UsernameTaken(SampleUsers, SampleRename.username, Some(2));
  }

  /** The edit as written lets a second "bob" in: renaming "ann" to " bob"
      passes the check and then stores the trimmed "bob". */
  lemma UpdateAsWrittenBreaksUniqueLogins()
    ensures UniqueLogins(SampleUsers)
    ensures UpdateAsWritten(SampleUsers, SampleRename).Some?
    ensures !UniqueLogins(UpdateAsWritten(SampleUsers, SampleRename).value)
  {
    SampleUsersUnique();
    SampleRenamePassesCheck();
    TrimmedBob();
    var r := SampleUsers[1 := Edited(SampleUsers[1], SampleRename)];
    assert r[0].username == "bob";
    assert r[1].username == Trim(" bob");
    assert Lower(r[0].username) == Lower(r[1].username);
    assert !UniqueLogins(r) by {
      assert 0 < |r| && 1 < |r|;
    }
  }

  /** The intended edit: the trimmed, lowered values are checked against
      every other user, whether or not they changed. */
  function UpdateNormalized(us: seq<User>, user: User): (r: Option<seq<User>>)
    ensures r.Some? <==>
              && user.id > 0 && UserExists(us, user.id)
              && !UsernameTaken(us, Trim(user.username), Some(user.id))
              && !EmailTaken(us, Lower(Trim(user.email)), Some(user.id))
    ensures r.Some? ==>
              exists k :: (0 <= k < |us| && us[k].id == user.id &&
                           r.value == us[k := us[k].(username := Trim(user.username), email := Lower(Trim(user.email)))])
  {
    if user.id <= 0 then None
    else match IndexOfKey(us, UserKey, user.id)
      case None => None
      case Some(k) =>
        var edited := Edited(us[k], user);
        if UsernameTaken(us, edited.username, Some(user.id)) || EmailTaken(us, edited.email, Some(user.id)) then None
        else Some(us[k := edited])
  }

  /** With a stored id and a username free for it, the intended edit is
      refused exactly when `DoesEmailExistForAnotherUserAsync` reports the
      stored (trimmed, lowered) form of a non-blank email as another
      user's. */
  lemma EmailCheckDecidesEdit(us: seq<User>, user: User)
    requires user.id > 0 && UserExists(us, user.id) && !UsernameTaken(us, Trim(user.username), Some(user.id))
    requires !IsBlank(user.email)
    ensures UpdateNormalized(us, user).None? <==> EmailExistsForAnotherUser(us, Lower(Trim(user.email)), user.id)
  {
    TrimEmptyIffBlank(user.email);
    var t := Trim(user.email);
    assert !IsWhiteSpace(Lower(t)[0]);
  }

  /** The intended edit keeps usernames and emails unique ignoring case. */
  lemma {:induction false} UpdateNormalizedKeepsUniqueLogins(us: seq<User>, user: User)
    requires KeysDistinct(us, UserKey) && UniqueLogins(us)
    requires UpdateNormalized(us, user).Some?
    ensures UniqueLogins(UpdateNormalized(us, user).value)
  {
    var k := IndexOfKey(us, UserKey, user.id).value;
    var edited := Edited(us[k], user);
    var us' := us[k := edited];
    assert UpdateNormalized(us, user).value == us';
    forall i, j | 0 <= i < |us'| && 0 <= j < |us'| && i != j
      ensures Lower(us'[i].username) != Lower(us'[j].username) && Lower(us'[i].email) != Lower(us'[j].email)
    {
      if i == k {
        assert us[j].id != user.id by { assert UserKey(us[j]) != UserKey(us[k]); }
        LowerIdempotent(Trim(user.email));
      } else if j == k {
        assert us[i].id != user.id by { assert UserKey(us[i]) != UserKey(us[k]); }
        LowerIdempotent(Trim(user.email));
      }
    }
  }

  /** A stored user's own username and email are not taken by anyone else. */
  lemma OwnLoginNotTaken(us: seq<User>, k: nat)
    requires k < |us| && KeysDistinct(us, UserKey) && UniqueLogins(us)
    ensures !UsernameTaken(us, us[k].username, Some(us[k].id))
    ensures !EmailTaken(us, us[k].email, Some(us[k].id))
  {
    forall i | 0 <= i < |us| && us[i].id != us[k].id
      ensures Lower(us[i].username) != Lower(us[k].username) && Lower(us[i].email) != Lower(us[k].email)
    {
      assert i != k;
    }
  }

  /** Looking an email up ignoring case does not depend on its case. */
  lemma EmailTakenIgnoresCase(us: seq<User>, email: string, exclude: Option<int>)
    ensures EmailTaken(us, Lower(email), exclude) == EmailTaken(us, email, exclude)
  {
    LowerIdempotent(email);
  }

  /** Where the incoming username and email carry no surrounding white space
      and the store already has unique logins, the corrected edit decides
      exactly as the source does. */
  lemma UpdateNormalizedAgreesOnTrimmedInput(us: seq<User>, user: User)
    requires KeysDistinct(us, UserKey) && UniqueLogins(us)
    requires Trim(user.username) == user.username && Trim(user.email) == user.email
    ensures UpdateNormalized(us, user) == UpdateAsWritten(us, user)
  {
    var found := IndexOfKey(us, UserKey, user.id);
    if user.id > 0 && found.Some? {
      var k := found.value;
      assert us[k].id == user.id;
      OwnLoginNotTaken(us, k);
      EmailTakenIgnoresCase(us, user.email, Some(user.id));
      var edited := Edited(us[k], user);
      assert edited.username == user.username && edited.email == Lower(user.email);
      var nameTaken := UsernameTaken(us, user.username, Some(user.id));
      var emailTaken := EmailTaken(us, user.email, Some(user.id));
      assert UsernameTaken(us, edited.username, Some(user.id)) == nameTaken;
      assert EmailTaken(us, edited.email, Some(user.id)) == emailTaken;
      assert nameTaken == (us[k].username != user.username && nameTaken);
      assert emailTaken == (us[k].email != user.email && emailTaken);
    }
  }

  class UserRegistry {
    var users: seq<User>
    var nextId: int
    /** The password hash (`BCrypt.HashPassword`). */
    const hash: string -> string
    /** The password check (`BCrypt.Verify`). */
    const verify: (string, string) -> bool

    ghost predicate Valid()
      reads this
    {
      && nextId > 0
      && (forall i :: 0 <= i < |users| ==> 0 < users[i].id < nextId)
      && KeysDistinct(users, UserKey)
      && UniqueLogins(users)
    }

    constructor (hash: string -> string, verify: (string, string) -> bool)
      ensures Valid() && users == [] && nextId == 1
      ensures this.hash == hash && this.verify == verify
    {
      users := [];
      nextId := 1;
      this.hash := hash;
      this.verify := verify;
    }

    /** `AddUserAsync`: refuses a short or blank password, or a username or
        email already used ignoring case; otherwise stores the user under a
        fresh id with the password's hash. */
    method AddUser(user: User, plainPassword: string) returns (ok: bool)
      requires Valid()
      modifies this
      ensures Valid()
      ensures ok <==> AddUserAccepts(old(users), user, plainPassword)
      ensures ok ==> users == old(users) + [Registered(user, old(nextId), hash(plainPassword))]
                     && nextId == old(nextId) + 1
      ensures !ok ==> users == old(users) && nextId == old(nextId)
    {
      if IsBlank(plainPassword) || |plainPassword| < 6 {
        return false;
      }
      if UsernameTaken(users, user.username, None) {
        return false;
      }
      if EmailTaken(users, user.email, None) {
        return false;
      }
      var stored := Registered(user, nextId, hash(plainPassword));
      AddKeepsUniqueLogins(users, user, plainPassword, nextId, hash(plainPassword));
      users := users + [stored];
      nextId := nextId + 1;
      ok := true;
    }

    /** `UpdateUserAsync`, with the uniqueness checks run on the values it
        stores: refuses a non-positive or unknown id, or a trimmed username
        or trimmed, lowered email another user has ignoring case; otherwise
        the row takes those values. */
    method UpdateUser(user: User) returns (ok: bool)
      requires Valid()
      modifies this
      ensures Valid() && nextId == old(nextId)
      ensures ok == UpdateNormalized(old(users), user).Some?
      ensures ok <==> && user.id > 0 && UserExists(old(users), user.id)
                      && !UsernameTaken(old(users), Trim(user.username), Some(user.id))
                      && !EmailTaken(old(users), Lower(Trim(user.email)), Some(user.id))
      ensures ok ==> users == UpdateNormalized(old(users), user).value
      ensures ok ==>
                exists k :: (0 <= k < |old(users)| && old(users)[k].id == user.id &&
                             users == old(users)[k := old(users)[k].(username := Trim(user.username),
                                                                     email := Lower(Trim(user.email)))])
      ensures !ok ==> users == old(users)
    {
      var r := UpdateNormalized(users, user);
      if r.None? {
        return false;
      }
      UpdateNormalizedKeepsUniqueLogins(users, user);
      users := r.value;
      ok := true;
    }
  }
}
