/** The client-side auth store: a user (or `null`) and a logged-in flag, with
    a mock `login` that accepts any non-empty email and password, and
    `logout`. */
module AuthStore {
  import opened JsValues

  /** The stored user object `{ email }`: the password has no field here. */
  datatype User = User(email: string)

  datatype AuthState = AuthState(user: Option<User>, isLoggedIn: bool)

  const Initial := AuthState(None, false)

  /** The flag agrees with the presence of a user. */
  predicate Consistent(s: AuthState) {
    s.isLoggedIn <==> s.user.Some?
  }

  /** `login(email, password)`: the returned boolean and the next state. */
  function Login(s: AuthState, email: string, password: string): (r: (bool, AuthState))
    ensures r.0 <==> email != "" && password != ""
    ensures r.0 ==> r.1.isLoggedIn && r.1.user == Some(User(email))
    ensures !r.0 ==> r.1 == s
  {
    if email != "" && password != "" then (true, AuthState(Some(User(email)), true))
    else (false, s)
  }

  /** `logout()`. */
  function Logout(s: AuthState): (r: AuthState)
    ensures r == Initial && !r.isLoggedIn && r.user.None?
  {
    AuthState(None, false)
  }

  /** Both transitions keep the flag and the user in agreement. */
  lemma TransitionsKeepConsistent(s: AuthState, email: string, password: string)
    requires Consistent(s)
    ensures Consistent(Login(s, email, password).1)
    ensures Consistent(Logout(s))
  {
  }

  /** The password only gates the login: any two non-empty passwords give the
      same result and state, so nothing of it is kept. */
  lemma PasswordNotStored(s: AuthState, email: string, p1: string, p2: string)
    requires p1 != "" && p2 != ""
    ensures Login(s, email, p1) == Login(s, email, p2)
  {
  }

  /** A second successful login replaces the user with the new email. */
  lemma SecondLoginOverwrites(s: AuthState, e1: string, p1: string, e2: string, p2: string)
    requires e2 != "" && p2 != ""
    ensures Login(Login(s, e1, p1).1, e2, p2).1 == AuthState(Some(User(e2)), true)
  {
  }

  /** Logging out after logging in returns to the initial state. */
  lemma LogoutAfterLogin(s: AuthState, email: string, password: string)
    ensures Logout(Login(s, email, password).1) == Initial
  {
  }
}
