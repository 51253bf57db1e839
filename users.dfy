/** The user-management routes. Password hashing and comparison are parameters standing
    for bcrypt. Usernames stay unique, and the routes never delete an admin account nor
    accept the status 'inactive' for one. */
module Users {
  import opened Common
  import opened Tables
  import opened Schema
  import opened Sorting
  import opened Filters

  /** `CASE WHEN status = 0 THEN 'inactive' ELSE 'active' END`. */
  function StatusText(status: int): (t: string)
    ensures t == "inactive" <==> status == 0
    ensures t == "active" <==> status != 0
  {
    if status == 0 then "inactive" else "active"
  }

  /** The stored status for a requested one: 1 for 'active', 0 for anything else. */
  function StatusValue(status: Option<string>): (v: int)
    ensures v == 1 <==> status == Some("active")
    ensures v == 0 <==> status != Some("active")
  {
    if status == Some("active") then 1 else 0
  }

  /** A user as the listing reports it: no password, the status as text, and the last
      login rendered by `toIso` when there is one. */
  datatype UserView = UserView(id: int, username: string, role: string, status: string, lastLogin: Option<string>)

  function ViewOf(u: User, toIso: string -> string): UserView
  {
    UserView(u.id, u.username, u.role, StatusText(u.status),
             if Truthy(u.lastLogin) then Some(toIso(u.lastLogin.value)) else None)
  }

  function Views(us: seq<User>, toIso: string -> string): (r: seq<UserView>)
    ensures |r| == |us|
    ensures forall i :: 0 <= i < |us| ==> r[i] == ViewOf(us[i], toIso)
    decreases |us|
  {
    if us == [] then [] else [ViewOf(us[0], toIso)] + Views(us[1..], toIso)
  }

  function ViewName(v: UserView): string { v.username }

  /** GET /api/users: one view per user, ordered by username. */
  method ListUsers(db: Db, toIso: string -> string) returns (rows: seq<UserView>)
    ensures multiset(rows) == multiset(Views(db.users, toIso))
    ensures Sorted(rows, AscBy(ViewName))
    ensures forall v :: v in rows ==> v.status == "inactive" || v.status == "active"
  {
    AscByPreorder(ViewName);
    SortSorted(Views(db.users, toIso), AscBy(ViewName));
    rows := Sort(Views(db.users, toIso), AscBy(ViewName));
    forall v | v in rows ensures v.status == "inactive" || v.status == "active" {
      assert v in multiset(Views(db.users, toIso));
    }
  }

  const NameTaken := "用户名已存在"
  const NoSuchUser := "用户不存在"

  predicate NameExists(us: seq<User>, name: string)
  {
    exists i :: 0 <= i < |us| && us[i].username == name
  }

  /** POST /api/users: a username already on file is a 400. A missing password makes the
      hash throw, and a missing username or role breaks NOT NULL (500 either way).
      Otherwise the user is stored active, with the hashed password. */
  method CreateUser(db: Db, username: Option<string>, password: Option<string>, role: Option<string>,
                    hash: string -> string)
    returns (status: int, message: string, created: Option<UserView>)
    requires db.Valid()
    modifies db`users, db`nextUserId
    ensures db.Valid()
    ensures status == 400 <==> username.Some? && NameExists(old(db.users), username.value)
    ensures status == 400 ==> message == NameTaken
    ensures status == 500 <==> !(username.Some? && NameExists(old(db.users), username.value))
                               && (password.None? || username.None? || role.None?)
    ensures status != 201 ==> db.users == old(db.users) && db.nextUserId == old(db.nextUserId)
    ensures status == 201 ==>
      && var u := User(old(db.nextUserId), username.value, hash(password.value), role.value, 1, None);
      && db.users == old(db.users) + [u]
      && created == Some(UserView(u.id, u.username, u.role, "active", None))
    ensures status == 201 || status == 400 || status == 500
  {
    if username.Some? && Find(db.users, UsernameOf, username.value).Some? {
      return 400, NameTaken, None;
    }
    if password.None? || username.None? || role.None? {
      return 500, "", None;
    }
    var u := User(db.nextUserId, username.value, hash(password.value), role.value, 1, None);
    AppendFreshKey(db.users, UserKey, db.nextUserId, u);
    AppendFreshText(db.users, UsernameOf, u);
    db.users := db.users + [u];
    db.nextUserId := db.nextUserId + 1;
    return 201, "", Some(UserView(u.id, u.username, u.role, StatusText(1), None));
  }

  /** PUT /api/users/:id: 404 for an unknown id; a new username another user holds is a
      400; a missing username or role breaks NOT NULL (500). Otherwise username and role
      are overwritten and the reply reports the unchanged status. */
  method UpdateUser(db: Db, id: int, username: Option<string>, role: Option<string>)
    returns (status: int, message: string, reply: Option<UserView>)
    requires db.Valid()
    modifies db`users
    ensures db.Valid()
    ensures status == 404 <==> Find(old(db.users), UserKey, id).None?
    ensures status == 404 ==> message == NoSuchUser
    ensures status == 400 <==>
      Find(old(db.users), UserKey, id).Some? && username.Some?
      && exists i :: 0 <= i < |old(db.users)| && old(db.users)[i].id != id && old(db.users)[i].username == username.value
    ensures status == 400 ==> message == NameTaken
    ensures status == 500 <==>
      && Find(old(db.users), UserKey, id).Some? && (username.None? || role.None?)
      && !(username.Some? && exists i :: 0 <= i < |old(db.users)| && old(db.users)[i].id != id && old(db.users)[i].username == username.value)
    ensures status != 200 ==> db.users == old(db.users)
    ensures status == 200 ==>
      username.Some? && role.Some? &&
      var k := Find(old(db.users), UserKey, id).value;
      var u := old(db.users)[k].(username := username.value, role := role.value);
      && db.users == old(db.users)[k := u]
      && reply == Some(UserView(id, username.value, role.value, StatusText(u.status), None))
    ensures status == 200 || status == 400 || status == 404 || status == 500
  {
    var k := Find(db.users, UserKey, id);
    if k.None? {
      return 404, NoSuchUser, None;
    }
    var user := db.users[k.value];
    if username.Some? && username.value != user.username
       && exists i :: 0 <= i < |db.users| && db.users[i].id != id && db.users[i].username == username.value {
      return 400, NameTaken, None;
    }
    if username.None? || role.None? {
      return 500, "", None;
    }
    var u := user.(username := username.value, role := role.value);
    ReplaceKeepsRows(db.users, UserKey, db.nextUserId, k.value, u);
    forall i | 0 <= i < |db.users| && i != k.value ensures db.users[i].username != u.username {
      assert db.users[i].id != id;
    }
    ReplaceFreshText(db.users, UsernameOf, k.value, u);
    db.users := db.users[k.value := u];
    return 200, "", Some(UserView(id, u.username, u.role, StatusText(u.status), None));
  }

  /** Every admin row is still present. */
  predicate AdminsKept(before: seq<User>, after: seq<User>)
  {
    forall i :: 0 <= i < |before| && before[i].role == "admin" ==> before[i] in after
  }

  /** PATCH /api/users/:id/status: 404 for an unknown id; 'inactive' for an admin is a 403;
      otherwise the stored status becomes 1 for 'active' and 0 for any other value. */
  method SetStatus(db: Db, id: int, requested: Option<string>) returns (status: int, message: string)
    requires db.Valid()
    modifies db`users
    ensures db.Valid()
    ensures status == 404 <==> Find(old(db.users), UserKey, id).None?
    ensures status == 403 <==>
      Find(old(db.users), UserKey, id).Some? && old(db.users)[Find(old(db.users), UserKey, id).value].role == "admin"
      && requested == Some("inactive")
    ensures status == 403 ==> message == "不能禁用管理员账户"
    ensures status != 200 ==> db.users == old(db.users)
    ensures status == 200 ==>
      var k := Find(old(db.users), UserKey, id).value;
      db.users == old(db.users)[k := old(db.users)[k].(status := StatusValue(requested))]
    ensures status == 200 || status == 403 || status == 404
  {
    var k := Find(db.users, UserKey, id);
    if k.None? {
      return 404, NoSuchUser;
    }
    if db.users[k.value].role == "admin" && requested == Some("inactive") {
      return 403, "不能禁用管理员账户";
    }
    var u := db.users[k.value].(status := StatusValue(requested));
    ReplaceKeepsRows(db.users, UserKey, db.nextUserId, k.value, u);
    ReplaceFreshText(db.users, UsernameOf, k.value, u);
    db.users := db.users[k.value := u];
    return 200, "";
  }

  /** DELETE /api/users/:id: 404 for an unknown id, 403 for an admin, else that row goes. */
  method DeleteUser(db: Db, id: int) returns (status: int, message: string)
    requires db.Valid()
    modifies db`users
    ensures db.Valid()
    ensures status == 404 <==> Find(old(db.users), UserKey, id).None?
    ensures status == 403 <==>
      Find(old(db.users), UserKey, id).Some? && old(db.users)[Find(old(db.users), UserKey, id).value].role == "admin"
    ensures status == 403 ==> message == "不能删除管理员账户"
    ensures status != 204 ==> db.users == old(db.users)
    ensures status == 204 ==> db.users == Where(old(db.users), KeyIsNot(UserKey, id))
                              && |db.users| == |old(db.users)| - 1
    ensures AdminsKept(old(db.users), db.users)
    ensures status == 204 || status == 403 || status == 404
  {
    var k := Find(db.users, UserKey, id);
    if k.None? {
      return 404, NoSuchUser;
    }
    if db.users[k.value].role == "admin" {
      return 403, "不能删除管理员账户";
    }
    var kept := Where(db.users, KeyIsNot(UserKey, id));
    DeleteByKeyCount(db.users, UserKey, id);
    FilterKeepsRows(db.users, UserKey, db.nextUserId, KeyIsNot(UserKey, id));
    WherePreservesUnique(db.users, UsernameOf, KeyIsNot(UserKey, id));
    forall i | 0 <= i < |db.users| && db.users[i].role == "admin" ensures db.users[i] in kept {
      assert db.users[i].id != id;
    }
    db.users := kept;
    return 204, "";
  }

  /** POST /api/users/change-password for the signed-in `username`: 404 when that user is
      gone, 400 when `matches` rejects the old password, else the password becomes the
      new hash. A missing old or new password makes bcrypt throw (500). */
  method ChangePassword(db: Db, username: string, oldPassword: Option<string>, newPassword: Option<string>,
                        matches: (string, string) -> bool, hash: string -> string)
    returns (status: int, message: string)
    requires db.Valid()
    modifies db`users
    ensures db.Valid()
    ensures status == 404 <==> !NameExists(old(db.users), username)
    ensures status == 400 <==>
      NameExists(old(db.users), username) && oldPassword.Some?
      && !matches(oldPassword.value, old(db.users)[Find(old(db.users), UsernameOf, username).value].password)
    ensures status == 400 ==> message == "原密码错误"
    ensures status == 500 <==>
      NameExists(old(db.users), username)
      && (oldPassword.None?
          || (matches(oldPassword.value, old(db.users)[Find(old(db.users), UsernameOf, username).value].password)
              && newPassword.None?))
    ensures status != 200 ==> db.users == old(db.users)
    ensures status == 200 ==>
      && oldPassword.Some? && newPassword.Some?
      && var k := Find(old(db.users), UsernameOf, username).value;
      && matches(oldPassword.value, old(db.users)[k].password)
      && db.users == old(db.users)[k := old(db.users)[k].(password := hash(newPassword.value))]
      && message == "密码修改成功"
    ensures status == 200 || status == 400 || status == 404 || status == 500
  {
    var k := Find(db.users, UsernameOf, username);
    if k.None? {
      return 404, NoSuchUser;
    }
    if oldPassword.None? {
      return 500, "";
    }
    if !matches(oldPassword.value, db.users[k.value].password) {
      return 400, "原密码错误";
    }
    if newPassword.None? {
      return 500, "";
    }
    var u := db.users[k.value].(password := hash(newPassword.value));
    ReplaceKeepsRows(db.users, UserKey, db.nextUserId, k.value, u);
    ReplaceFreshText(db.users, UsernameOf, k.value, u);
    db.users := db.users[k.value := u];
    return 200, "密码修改成功";
  }
}
