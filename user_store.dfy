/** The front end's user store: the session token, the user's record and role, kept in
    the store's state and mirrored to the browser's local storage so that a reload
    restores the session. */
module UserSession {
  import opened Common

  /** The user record the server sends; the store reads its name and role, and `role`
      may be absent (undefined). */
  datatype UserInfo = UserInfo(username: Option<string>, role: Option<string>)

  /** The three state fields. `userRole` is None when it was set from a record without
      a role (undefined). */
  datatype State = State(token: string, userInfo: Option<UserInfo>, userRole: Option<string>)

  const LoggedOut: State := State("", None, Some(""))

  /** `safeJSONParse`: an absent or empty string gives the default, and so does a string
      `parse` rejects (None stands for JSON.parse throwing). */
  function SafeJsonParse(str: Option<string>, parse: string -> Option<UserInfo>,
                         default: Option<UserInfo>): (r: Option<UserInfo>)
    ensures !Truthy(str) ==> r == default
    ensures Truthy(str) && parse(str.value).None? ==> r == default
    ensures Truthy(str) && parse(str.value).Some? ==> r == parse(str.value)
  {
    if !Truthy(str) then default
    else match parse(str.value)
      case None => default
      case Some(v) => Some(v)
  }

  /** `localStorage.getItem`: None (null) for a missing key. */
  function Get(storage: map<string, string>, key: string): (r: Option<string>)
    ensures r.Some? <==> key in storage
    ensures r.Some? ==> r.value == storage[key]
  {
    if key in storage then Some(storage[key]) else None
  }

  /** `localStorage.setItem` turns its value into a string: undefined becomes 'undefined'. */
  function Stored(v: Option<string>): (s: string)
    ensures v.Some? ==> s == v.value
    ensures v.None? ==> s == "undefined"
  {
    if v.Some? then v.value else "undefined"
  }

  /** The store's initial state, read from storage: `getItem(...) || ''` for the token
      and role, and the parsed user record. */
  function Restore(storage: map<string, string>, parse: string -> Option<UserInfo>): (s: State)
    ensures s.token == (if Truthy(Get(storage, "token")) then storage["token"] else "")
    ensures s.userRole == Some(if Truthy(Get(storage, "userRole")) then storage["userRole"] else "")
    ensures s.userInfo == SafeJsonParse(Get(storage, "userInfo"), parse, None)
  {
    var token := Get(storage, "token");
    var role := Get(storage, "userRole");
    State(if Truthy(token) then token.value else "",
          SafeJsonParse(Get(storage, "userInfo"), parse, None),
          Some(if Truthy(role) then role.value else ""))
  }

  /** The getters. */
  predicate IsLoggedIn(s: State)
  {
    s.token != ""
  }

  predicate IsAdmin(s: State)
  {
    s.userRole == Some("admin")
  }

  function Username(s: State): Option<string>
  {
    if s.userInfo.Some? then s.userInfo.value.username else None
  }

  /** The storage after a successful login. */
  function Saved(storage: map<string, string>, token: string, info: UserInfo,
                 stringify: UserInfo -> string): map<string, string>
  {
    storage["token" := token]["userInfo" := stringify(info)]["userRole" := Stored(info.role)]
  }

  /** The storage after the three keys are removed. */
  function Cleared(storage: map<string, string>): map<string, string>
  {
    storage - {"token", "userInfo", "userRole"}
  }

  /** What the login request gave: the response body, which may be empty (None), or
      the error the request was rejected with. */
  datatype LoginReply =
    | Answered(body: Option<LoginBody>)
    | Rejected(error: string)

  datatype LoginBody = LoginBody(token: Option<string>, userInfo: Option<UserInfo>)

  /** What the verification request gave: the body, or a rejection. */
  datatype VerifyReply =
    | VerifyAnswered(body: Option<VerifyBody>)
    | VerifyRejected

  datatype VerifyBody = VerifyBody(valid: bool, userInfo: Option<UserInfo>)

  /** `login` either returns true or throws, after clearing the session. */
  datatype LoginOutcome = LoggedIn | Threw(message: string)

  /** Whether a login reply carries what the store needs. */
  predicate WellFormed(reply: LoginReply)
  {
    reply.Answered? && reply.body.Some? && Truthy(reply.body.value.token) && reply.body.value.userInfo.Some?
  }

  /** The message a failed login throws with: the format error of line 41, or the
      request's own error. */
  function LoginError(reply: LoginReply): (m: string)
    requires !WellFormed(reply)
    ensures reply.Rejected? ==> m == reply.error
    ensures reply.Answered? ==> m == "服务器响应格式错误"
  {
    if reply.Rejected? then reply.error else "服务器响应格式错误"
  }

  /** The store: its three fields, the local storage it mirrors them to, and the paths
      pushed onto the router. */
  class UserStore {
    var token: string
    var userInfo: Option<UserInfo>
    var userRole: Option<string>
    var storage: map<string, string>
    var pushed: seq<string>

    function Current(): State
      reads this
    {
      State(token, userInfo, userRole)
    }

    /** The store as created on page load. */
    constructor(saved: map<string, string>, parse: string -> Option<UserInfo>)
      ensures Current() == Restore(saved, parse)
      ensures storage == saved && pushed == []
    {
      var s := Restore(saved, parse);
      token := s.token;
      userInfo := s.userInfo;
      userRole := s.userRole;
      storage := saved;
      pushed := [];
    }

    /** `login`: a reply with a token and a user record starts the session and stores
      it; any other reply, and a rejected request, clears the session and throws. */
    method Login(reply: LoginReply, stringify: UserInfo -> string) returns (outcome: LoginOutcome)
      modifies this
      ensures pushed == old(pushed)
      ensures outcome == LoggedIn <==> WellFormed(reply)
      ensures WellFormed(reply) ==>
        var body := reply.body.value;
        && Current() == State(body.token.value, body.userInfo, body.userInfo.value.role)
        && storage == Saved(old(storage), body.token.value, body.userInfo.value, stringify)
      ensures !WellFormed(reply) ==>
        && outcome == Threw(LoginError(reply))
        && Current() == LoggedOut
        && storage == Cleared(old(storage))
    {
      if WellFormed(reply) {
        var body := reply.body.value;
        var info := body.userInfo.value;
        token := body.token.value;
        userInfo := Some(info);
        userRole := info.role;
        storage := storage["token" := token];
        storage := storage["userInfo" := stringify(info)];
        storage := storage["userRole" := Stored(info.role)];
        outcome := LoggedIn;
      } else {
        ClearSession();
        outcome := Threw(LoginError(reply));
      }
    }

    /** `verifyToken`: a valid answer refreshes the user record and role and keeps the
      token; an invalid one, an empty body, a valid answer without a record (reading
      its role throws) and a rejected request all log out. */
    method VerifyToken(reply: VerifyReply, stringify: UserInfo -> string) returns (ok: bool)
      modifies this
      ensures ok <==> reply.VerifyAnswered? && reply.body.Some? && reply.body.value.valid
                      && reply.body.value.userInfo.Some?
      ensures ok ==>
        var info := reply.body.value.userInfo.value;
        && Current() == State(old(token), Some(info), info.role)
        && storage == old(storage)["userInfo" := stringify(info)]["userRole" := Stored(info.role)]
        && pushed == old(pushed)
      ensures !ok ==>
        && Current() == LoggedOut
        && storage == Cleared(old(storage))
        && pushed == old(pushed) + ["/login"]
    {
      if reply.VerifyAnswered? && reply.body.Some? && reply.body.value.valid && reply.body.value.userInfo.Some? {
        var info := reply.body.value.userInfo.value;
        userInfo := Some(info);
        userRole := info.role;
        storage := storage["userInfo" := stringify(info)];
        storage := storage["userRole" := Stored(info.role)];
        ok := true;
      } else {
        Logout();
        ok := false;
      }
    }

    /** `logout`: clears the session and goes to the login page. */
    method Logout()
      modifies this
      ensures Current() == LoggedOut
      ensures storage == Cleared(old(storage))
      ensures pushed == old(pushed) + ["/login"]
    {
      ClearSession();
      pushed := pushed + ["/login"];
    }

    /** The three assignments and three removals that `login`'s catch and `logout` share. */
    method ClearSession()
      modifies this
      ensures Current() == LoggedOut
      ensures storage == Cleared(old(storage))
      ensures pushed == old(pushed)
    {
      token := "";
      userInfo := None;
      userRole := Some("");
      storage := storage - {"token"};
      storage := storage - {"userInfo"};
      storage := storage - {"userRole"};
    }
  }

  /** After a login with a record that has a role, reloading the page restores the same
      session, provided parsing undoes stringifying (JSON of an object is never empty). */
  lemma LoginSurvivesReload(storage: map<string, string>, token: string, info: UserInfo,
                            parse: string -> Option<UserInfo>, stringify: UserInfo -> string)
    requires token != "" && info.role.Some?
    requires stringify(info) != "" && parse(stringify(info)) == Some(info)
    ensures Restore(Saved(storage, token, info, stringify), parse) == State(token, Some(info), info.role)
  {
    var saved := Saved(storage, token, info, stringify);
    assert Get(saved, "token") == Some(token);
    assert Get(saved, "userInfo") == Some(stringify(info));
    assert Get(saved, "userRole") == info.role;
  }

  /** A record without a role leaves the role undefined until a reload, which reads back
      the text 'undefined'; either way the user is no administrator. */
  lemma MissingRoleAfterReload(storage: map<string, string>, token: string, info: UserInfo,
                               parse: string -> Option<UserInfo>, stringify: UserInfo -> string)
    requires info.role.None?
    ensures Restore(Saved(storage, token, info, stringify), parse).userRole == Some("undefined")
    ensures !IsAdmin(Restore(Saved(storage, token, info, stringify), parse))
    ensures !IsAdmin(State(token, Some(info), info.role))
  {
    assert Get(Saved(storage, token, info, stringify), "userRole") == Some("undefined");
  }

  /** After a logout, or a failed login, a reload finds no session. */
  lemma LogoutSurvivesReload(storage: map<string, string>, parse: string -> Option<UserInfo>)
    ensures Restore(Cleared(storage), parse) == LoggedOut
    ensures !IsLoggedIn(Restore(Cleared(storage), parse)) && !IsAdmin(Restore(Cleared(storage), parse))
  {
    assert Get(Cleared(storage), "token") == None;
    assert Get(Cleared(storage), "userInfo") == None;
    assert Get(Cleared(storage), "userRole") == None;
  }

  /** A successful login leaves the user logged in, an administrator exactly when the
      record's role is 'admin', with the record's username. */
  lemma LoginGetters(token: string, info: UserInfo)
    requires token != ""
    ensures var s := State(token, Some(info), info.role);
      IsLoggedIn(s) && (IsAdmin(s) <==> info.role == Some("admin")) && Username(s) == info.username
  {
  }

  /** The logged-out state answers no to every getter. */
  lemma LoggedOutGetters()
    ensures !IsLoggedIn(LoggedOut) && !IsAdmin(LoggedOut) && Username(LoggedOut).None?
  {
  }
}
