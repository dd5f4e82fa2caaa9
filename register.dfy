/** The registration form (`RegisterViewModel`): the roles it offers, when
    its Register command is enabled, and what a registration attempt does
    to the form and to the user store. */
module Register {
  import opened Common
  import opened Text
  import opened Queries
  import U = Users
  import A = Auth

  /** The values of the role enumeration (`Enum.GetValues`). */
  const AllRoles: seq<U.Role> := [U.Customer, U.Staff, U.Admin]

  /** `roles` lists every value of the role enumeration. */
  predicate HoldsEveryRole(roles: seq<U.Role>) {
    forall role :: role in roles
  }

  lemma AllRolesHoldsEveryRole()
    ensures HoldsEveryRole(AllRoles)
  {
    forall role ensures role in AllRoles {
      match role
      case Customer => assert AllRoles[0] == role;
      case Staff => assert AllRoles[1] == role;
      case Admin => assert AllRoles[2] == role;
    }
  }

  predicate NotAdmin(role: U.Role) {
    role != U.Admin
  }

  /** `AvailableRoles`: the enumeration's values except Admin
      (`Where(role => role != Admin)`), in their order. */
  function AvailableRoles(roles: seq<U.Role>): seq<U.Role> {
    Filter(roles, NotAdmin)
  }

  /** Admin is never offered; every other role is. */
  lemma AvailableRolesExcludeOnlyAdmin(roles: seq<U.Role>)
    requires HoldsEveryRole(roles)
    ensures forall role :: role in AvailableRoles(roles) <==> role != U.Admin
  {
    forall role ensures role in AvailableRoles(roles) <==> role != U.Admin {
      FilterMembership(roles, NotAdmin, role);
    }
  }

  const PasswordsDoNotMatch: string := "Passwords do not match."
  const RegistrationFailed: string := "Registration failed. Username or email might already exist, or an error occurred."

  /** `CanRegister` apart from the busy flag. */
  predicate FormReady(username: string, email: string, password: string, confirmPassword: string) {
    && !IsBlank(username) && !IsBlank(email)
    && !IsBlank(password) && |password| >= 6
    && password == confirmPassword
  }

  /** A form the gate lets through, with an offered role (any but Admin, by
      `AvailableRolesExcludeOnlyAdmin`), passes every check
      of registration except uniqueness: it then fails exactly when the
      username or the email is already taken ignoring case. */
  lemma GateLeavesOnlyUniqueness(us: seq<U.User>, username: string, email: string, password: string,
                                 confirmPassword: string, role: U.Role)
    requires FormReady(username, email, password, confirmPassword) && role != U.Admin
    ensures A.RegistrationAccepted(us, username, email, password, role) <==>
              !U.UsernameTaken(us, Trim(username), None) && !U.EmailTaken(us, Lower(Trim(email)), None)
  {
  }

  class RegisterViewModel {
    const auth: A.AuthSession
    var username: string
    var email: string
    var password: string
    var confirmPassword: string
    var errorMessage: string
    var hasError: bool
    var selectedRole: U.Role
    var availableRoles: seq<U.Role>
    var isBusy: bool

    /** The fields start empty, the role offered by default is Customer,
        and the role list is the enumeration's values `roles`
        (`Enum.GetValues`) without Admin. */
    constructor (auth: A.AuthSession, roles: seq<U.Role>)
      requires HoldsEveryRole(roles)
      ensures this.auth == auth
      ensures username == [] && email == [] && password == [] && confirmPassword == []
      ensures errorMessage == [] && !hasError && !isBusy
      ensures selectedRole == U.Customer && selectedRole in availableRoles
      ensures availableRoles == AvailableRoles(roles) && U.Admin !in availableRoles
    {
      this.auth := auth;
      username := [];
      email := [];
      password := [];
      confirmPassword := [];
      errorMessage := [];
      hasError := false;
      selectedRole := U.Customer;
      availableRoles := AvailableRoles(roles);
      isBusy := false;
      AvailableRolesExcludeOnlyAdmin(roles);
    }

    /** `CanRegister`. */
    predicate CanRegister()
      reads this
    {
      FormReady(username, email, password, confirmPassword) && !isBusy
    }

    /** `RegisterAsync`: mismatched passwords set the error without asking
        the session; otherwise the session registers the form's values and
        a refusal sets the error. The form is never left busy. */
    method Register() returns (ok: bool)
      requires auth.Valid()
      modifies this`isBusy, this`hasError, this`errorMessage, auth.registry
      ensures auth.Valid() && !isBusy && hasError == !ok
      ensures FormReady(username, email, password, confirmPassword) ==>
                ok == A.RegistrationAccepted(old(auth.registry.users), username, email, password, selectedRole)
      ensures password != confirmPassword ==>
                && !ok && errorMessage == PasswordsDoNotMatch
                && auth.registry.users == old(auth.registry.users) && auth.registry.nextId == old(auth.registry.nextId)
      ensures password == confirmPassword ==>
                && ok == A.RegistrationAccepted(old(auth.registry.users), username, email, password, selectedRole)
                && errorMessage == (if ok then [] else RegistrationFailed)
      ensures password == confirmPassword && ok ==>
                auth.registry.users == old(auth.registry.users) +
                  [U.Registered(A.NewAccount(username, email, selectedRole), old(auth.registry.nextId), auth.registry.hash(password))]
      ensures !ok ==> auth.registry.users == old(auth.registry.users) && auth.registry.nextId == old(auth.registry.nextId)
    {
      isBusy := true;
      hasError := false;
      errorMessage := [];
      if password != confirmPassword {
        errorMessage := PasswordsDoNotMatch;
        hasError := true;
        isBusy := false;
        return false;
      }
      ok := auth.Register(username, email, password, selectedRole);
      if !ok {
        errorMessage := RegistrationFailed;
        hasError := true;
      }
      isBusy := false;
    }
  }

  /** An enabled Register command with an offered role asks the session to
      register (it never takes the mismatch branch), and that registration
      fails exactly when the username or the email is already taken
      ignoring case. */
  lemma EnabledRegisterFailsOnlyOnUniqueness(vm: RegisterViewModel, us: seq<U.User>)
    requires vm.CanRegister() && vm.selectedRole != U.Admin
    ensures vm.password == vm.confirmPassword
    ensures A.RegistrationAccepted(us, vm.username, vm.email, vm.password, vm.selectedRole) <==>
              !U.UsernameTaken(us, Trim(vm.username), None) && !U.EmailTaken(us, Lower(Trim(vm.email)), None)
  {
    GateLeavesOnlyUniqueness(us, vm.username, vm.email, vm.password, vm.confirmPassword, vm.selectedRole);
  }
}
