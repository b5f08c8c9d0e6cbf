/** The login status a page asks for: whether someone is signed in, who,
    and the one link that fits (sign in or sign out). */
module Login {

  /** A value that may be absent (a Java `null`). */
  datatype Option<T> = None | Some(value: T)

  /** The user service, seen only through its two URL builders, each a
      function of the path to return to afterwards. */
  datatype UserService = UserService(createLoginUrl: string -> string, createLogoutUrl: string -> string)

  /** The path both links return to. */
  const ReturnPath: string := "/"

  /** An immutable login status. */
  datatype LoginStatus = LoginStatus(loggedIn: bool, userEmail: Option<string>,
                                     loginUrl: Option<string>, logoutUrl: Option<string>)
  {
    /** What the constructor establishes: signed in exactly when an email is
        present, and exactly one of the two links, the one that fits. */
    predicate Valid() {
      loggedIn == userEmail.Some?
      && loginUrl.Some? == !loggedIn
      && logoutUrl.Some? == loggedIn
    }

    function GetLoggedIn(): (b: bool)
      ensures Valid() ==> (b <==> userEmail.Some?)
    {
      loggedIn
    }

    function GetUserEmail(): (e: Option<string>)
      ensures Valid() ==> (e.Some? <==> loggedIn)
    {
      userEmail
    }

    function GetLoginUrl(): (u: Option<string>)
      ensures Valid() ==> (u.Some? <==> !loggedIn)
    {
      loginUrl
    }

    function GetLogoutUrl(): (u: Option<string>)
      ensures Valid() ==> (u.Some? <==> loggedIn)
    {
      logoutUrl
    }
  }

  /** Builds the status for `userEmail` (absent when nobody is signed in). */
  function NewLoginStatus(userEmail: Option<string>, service: UserService): (s: LoginStatus)
    ensures s.Valid()
    ensures s.userEmail == userEmail
    ensures s.loggedIn <==> userEmail.Some?
    ensures userEmail.None? ==> s.loginUrl == Some(service.createLoginUrl(ReturnPath)) && s.logoutUrl == None
    ensures userEmail.Some? ==> s.logoutUrl == Some(service.createLogoutUrl(ReturnPath)) && s.loginUrl == None
    ensures s.loginUrl.Some? != s.logoutUrl.Some?
  {
    if userEmail.None? then
      LoginStatus(false, userEmail, Some(service.createLoginUrl(ReturnPath)), None)
    else
      LoginStatus(true, userEmail, None, Some(service.createLogoutUrl(ReturnPath)))
  }

  /** `Valid` describes exactly the statuses the constructor can build: every
      valid status is what some user service yields for its own email. */
  lemma ValidIsConstructible(s: LoginStatus)
    requires s.Valid()
    ensures exists service :: NewLoginStatus(s.userEmail, service) == s
  {
    var url := if s.loggedIn then s.logoutUrl.value else s.loginUrl.value;
    var service := UserService(path => url, path => url);
    assert NewLoginStatus(s.userEmail, service) == s;
  }

  /** The fields are never changed after construction, so each getter gives
      back what the constructor stored. */
  lemma GettersReturnConstructedValues(userEmail: Option<string>, service: UserService)
    ensures NewLoginStatus(userEmail, service).GetUserEmail() == userEmail
    ensures NewLoginStatus(userEmail, service).GetLoggedIn() == userEmail.Some?
    ensures NewLoginStatus(userEmail, service).GetLoginUrl()
            == if userEmail.None? then Some(service.createLoginUrl(ReturnPath)) else None
    ensures NewLoginStatus(userEmail, service).GetLogoutUrl()
            == if userEmail.Some? then Some(service.createLogoutUrl(ReturnPath)) else None
  {
  }
}
