/** The session (`AuthService`): who is logged in, changed by login and
    logout, and self-registration on top of the user store. */
module Auth {
  import opened Common
  import opened Text
  import opened Users

  /** The account `RegisterAsync` asks the store to create: the trimmed
      username, the trimmed, lowered email and the chosen role. */
  function NewAccount(username: string, email: string, role: Role): User {
    User(0, Trim(username), Lower(Trim(email)), [], role)
  }

  /** `RegisterAsync` succeeds: no blank field, not the Admin role, and the
      store accepts the new account. */
  predicate RegistrationAccepted(us: seq<User>, username: string, email: string, password: string, role: Role) {
    && !IsBlank(username) && !IsBlank(email) && !IsBlank(password) && role != Admin
    && AddUserAccepts(us, NewAccount(username, email, role), password)
  }

  class AuthSession {
    const registry: UserRegistry
    var currentUser: Option<User>

    /** `IsLoggedIn`: some user is current. */
    predicate IsLoggedIn()
      reads this
    {
      currentUser.Some?
    }

    ghost predicate Valid()
      reads this, registry
    {
      registry.Valid()
    }

    constructor (registry: UserRegistry)
      ensures this.registry == registry && currentUser == None && !IsLoggedIn()
    {
      this.registry := registry;
      currentUser := None;
    }

    /** `LoginAsync`: a blank username or password is refused without
        touching the session; otherwise the session holds the user found by
        that username when the password verifies, and nobody when it does
        not. */
    method Login(username: string, password: string) returns (ok: bool)
      modifies this
      ensures IsBlank(username) || IsBlank(password) ==> !ok && currentUser == old(currentUser)
      ensures !IsBlank(username) && !IsBlank(password) ==>
                && ok == VerifyPassword(registry.users, registry.verify, username, password)
                && currentUser == (if ok then FindByUsername(registry.users, username) else None)
      ensures ok <==> IsLoggedIn() && !IsBlank(username) && !IsBlank(password)
      ensures ok ==> currentUser.value in registry.users && currentUser.value.username == username
    {
      if IsBlank(username) || IsBlank(password) {
        return false;
      }
      var isValid := VerifyPassword(registry.users, registry.verify, username, password);
      if isValid {
        // a verified password implies the user is found, so the fallback of
        // AuthService.cs:46-52 that clears the session cannot run
        currentUser := FindByUsername(registry.users, username);
        ok := currentUser.Some?;
      } else {
        currentUser := None;
        ok := false;
      }
    }

    /** `LogoutAsync`: nobody is current afterwards. */
    method Logout()
      modifies this
      ensures currentUser == None && !IsLoggedIn()
    {
      currentUser := None;
    }

    /** `RegisterAsync`: blank fields or the Admin role are refused with no
        user created; otherwise the trimmed username, the trimmed, lowered
        email and the chosen role go to `AddUser` with the password, and its
        answer is the answer. */
    method Register(username: string, email: string, password: string, role: Role) returns (ok: bool)
      requires Valid()
      modifies registry
      ensures Valid() && currentUser == old(currentUser)
      ensures ok == RegistrationAccepted(old(registry.users), username, email, password, role)
      ensures ok ==> registry.users == old(registry.users) + [Registered(NewAccount(username, email, role), old(registry.nextId), registry.hash(password))]
                     && registry.nextId == old(registry.nextId) + 1
      ensures !ok ==> registry.users == old(registry.users) && registry.nextId == old(registry.nextId)
    {
      if IsBlank(username) || IsBlank(email) || IsBlank(password) {
        return false;
      }
      if role == Admin {
        return false;
      }
      ok := registry.AddUser(NewAccount(username, email, role), password);
    }
  }
}
