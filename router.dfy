/** The front end's route table and the navigation guard that runs before every
    navigation: pages behind a login, pages for administrators, and the login page. */
module Navigation {
  import opened Common

  /** The `meta` flags of one route record. */
  datatype Meta = Meta(requiresAuth: bool, requiresAdmin: bool)

  const Plain: Meta := Meta(false, false)
  const Auth: Meta := Meta(true, false)
  const Admin: Meta := Meta(true, true)

  /** Where a path leads: a redirect record, or the records it matches from the root
      down (none when no record matches). */
  datatype Resolution = RedirectTo(path: string) | Matched(records: seq<Meta>)

  /** The pages under the main layout that need a login. */
  const AuthPages: set<string> := {"/dashboard", "/students", "/student-import", "/behaviors",
                                   "/behavior-types", "/analysis", "/reports", "/system"}

  /** The two system pages that need an administrator. */
  const AdminPages: set<string> := {"/system/account", "/system/logs"}

  /** ASCII upper case folded to lower case; every other character is kept. */
  function Lower(c: char): (d: char)
    ensures 'A' <= c <= 'Z' ==> d as int == c as int + 32
    ensures !('A' <= c <= 'Z') ==> d == c
  {
    if 'A' <= c <= 'Z' then (c as int + 32) as char else c
  }

  function FoldCase(s: string): (r: string)
    ensures |r| == |s| && forall i :: 0 <= i < |s| ==> r[i] == Lower(s[i])
  {
    seq(|s|, i requires 0 <= i < |s| => Lower(s[i]))
  }

  /** The router's default matching: a record's path matches regardless of case and with
      or without one trailing slash. */
  function RouteKey(path: string): (k: string)
    ensures |path| > 1 && path[|path| - 1] == '/' ==> k == FoldCase(path[..|path| - 1])
    ensures !(|path| > 1 && path[|path| - 1] == '/') ==> k == FoldCase(path)
  {
    FoldCase(if |path| > 1 && path[|path| - 1] == '/' then path[..|path| - 1] else path)
  }

  /** The route table: '/' exactly is the redirect record, which precedes the layout
      record with the same path; layout children match the layout record too. */
  function Resolve(path: string): (r: Resolution)
    ensures r.RedirectTo? <==> path == "/"
    ensures r.RedirectTo? ==> r.path == "/dashboard"
    ensures path != "/" ==> r == Matched(
      if RouteKey(path) == "/login" then [Plain]
      else if RouteKey(path) in AuthPages then [Plain, Auth]
      else if RouteKey(path) in AdminPages then [Plain, Auth, Admin]
      else [])
  {
    if path == "/" then RedirectTo("/dashboard")
    else
      var k := RouteKey(path);
      if k == "/login" then Matched([Plain])
      else if k in AuthPages then Matched([Plain, Auth])
      else if k in AdminPages then Matched([Plain, Auth, Admin])
      else Matched([])
  }

  predicate SomeRequiresAuth(matched: seq<Meta>)
  {
    exists i :: 0 <= i < |matched| && matched[i].requiresAuth
  }

  predicate SomeRequiresAdmin(matched: seq<Meta>)
  {
    exists i :: 0 <= i < |matched| && matched[i].requiresAdmin
  }

  /** The guard's verdict: go on, go to the login page remembering the target, or go to
      another path. */
  datatype Decision = Proceed | ToLogin(redirect: string) | Redirect(path: string)

  /** The target of a navigation: its path, its full path (with query and hash) and the
      records it matched. */
  datatype Target = Target(path: string, fullPath: string, matched: seq<Meta>)

  /** `beforeEach`, reading the token and role from storage (None when absent). */
  function Guard(to: Target, token: Option<string>, role: Option<string>): (d: Decision)
    ensures d.ToLogin? <==> SomeRequiresAuth(to.matched) && !Truthy(token)
    ensures d.ToLogin? ==> d.redirect == to.fullPath
    ensures d.Redirect? ==> d.path == "/dashboard"
    ensures d.Redirect? <==>
      (Truthy(token) && SomeRequiresAuth(to.matched) && SomeRequiresAdmin(to.matched) && role != Some("admin"))
      || (Truthy(token) && !SomeRequiresAuth(to.matched) && to.path == "/login")
  {
    if SomeRequiresAuth(to.matched) then
      if !Truthy(token) then ToLogin(to.fullPath)
      else if SomeRequiresAdmin(to.matched) && role != Some("admin") then Redirect("/dashboard")
      else Proceed
    else if Truthy(token) && to.path == "/login" then Redirect("/dashboard")
    else Proceed
  }

  /** A navigation to `path` with `suffix` (query and hash): a redirect record is applied
      first, keeping the suffix, and the guard judges where it leads. */
  function Navigate(path: string, suffix: string, token: Option<string>, role: Option<string>): (r: (string, Decision))
    ensures r.0 == (if path == "/" then "/dashboard" else path)
  {
    match Resolve(path)
    case RedirectTo(p) =>
      (p, Guard(Target(p, p + suffix, Resolve(p).records), token, role))
    case Matched(records) =>
      (path, Guard(Target(path, path + suffix, records), token, role))
  }

  /** Without a token every page behind the layout sends the visitor to log in, asking
      to come back to it afterwards; the root does so on behalf of the dashboard. */
  lemma LoginFirst(path: string, suffix: string, role: Option<string>)
    requires path == "/" || path in AuthPages || path in AdminPages
    ensures var target := if path == "/" then "/dashboard" else path;
      Navigate(path, suffix, None, role).1 == ToLogin(target + suffix)
  {
    var target := if path == "/" then "/dashboard" else path;
    assert target in AuthPages || target in AdminPages;
    PagesAreLower(target);
    assert Resolve(target).records[1].requiresAuth;
  }

  /** A page's path with a trailing slash reaches the same records, so without a token
      it too is sent to log in, asking to come back to the path as written. */
  lemma TrailingSlashNeedsLogin(page: string, suffix: string, role: Option<string>)
    requires page in AuthPages || page in AdminPages
    ensures Resolve(page + "/") == Resolve(page)
    ensures Navigate(page + "/", suffix, None, role).1 == ToLogin(page + "/" + suffix)
  {
    PagesAreLower(page);
    var path := page + "/";
    assert path[..|path| - 1] == page;
    assert Resolve(page).records[1].requiresAuth;
  }

  /** So does a page's path written in capitals. */
  lemma CapitalsNeedLogin(page: string, suffix: string, role: Option<string>)
    requires page in AuthPages || page in AdminPages
    ensures Resolve(Upper(page)) == Resolve(page)
    ensures Navigate(Upper(page), suffix, None, role).1 == ToLogin(Upper(page) + suffix)
  {
    PagesAreLower(page);
    assert Upper(page)[|page| - 1] != '/';
    assert RouteKey(Upper(page)) == page;
    assert Resolve(page).records[1].requiresAuth;
  }

  /** ASCII lower case raised to upper case. */
  function Upper(s: string): (r: string)
    ensures |r| == |s|
  {
    seq(|s|, i requires 0 <= i < |s| => if 'a' <= s[i] <= 'z' then (s[i] as int - 32) as char else s[i])
  }

  /** The page paths are written in lower case, and none ends with a slash. */
  lemma PagesAreLower(page: string)
    requires page in AuthPages || page in AdminPages
    ensures FoldCase(page) == page && FoldCase(Upper(page)) == page
    ensures |page| > 1 && page[|page| - 1] != '/'
  {
    if page in AuthPages { AuthPagesLower(page); } else { AdminPagesLower(page); }
    FoldUpper(page);
  }

  /** The same for the pages that need a login only. */
  lemma AuthPagesLower(page: string)
    requires page in AuthPages
    ensures FoldCase(page) == page
    ensures |page| > 1 && page[|page| - 1] != '/'
  {
    if page in {"/dashboard", "/students", "/student-import", "/behaviors"} {
      StudentPagesLower(page);
    } else {
      OtherPagesLower(page);
    }
  }

  /** The dashboard and the student and behavior pages. */
  lemma StudentPagesLower(page: string)
    requires page in {"/dashboard", "/students", "/student-import", "/behaviors"}
    ensures FoldCase(page) == page
    ensures |page| > 1 && page[|page| - 1] != '/'
  {
    if page == "/dashboard" { NoCapitals("/dashboard"); }
    else if page == "/students" { NoCapitals("/students"); }
    else if page == "/student-import" { NoCapitals("/student-import"); }
    else { NoCapitals("/behaviors"); }
  }

  /** The behavior-type, analysis, report and system pages. */
  lemma OtherPagesLower(page: string)
    requires page in {"/behavior-types", "/analysis", "/reports", "/system"}
    ensures FoldCase(page) == page
    ensures |page| > 1 && page[|page| - 1] != '/'
  {
    if page == "/behavior-types" { NoCapitals("/behavior-types"); }
    else if page == "/analysis" { NoCapitals("/analysis"); }
    else if page == "/reports" { NoCapitals("/reports"); }
    else { NoCapitals("/system"); }
  }

  /** The same for the administrator pages. */
  lemma AdminPagesLower(page: string)
    requires page in AdminPages
    ensures FoldCase(page) == page
    ensures |page| > 1 && page[|page| - 1] != '/'
  {
    if page == "/system/account" { NoCapitals("/system/account"); }
    else { NoCapitals("/system/logs"); }
  }

  /** Folding a text without capitals leaves it as it is. */
  lemma NoCapitals(s: string)
    requires forall i :: 0 <= i < |s| ==> !('A' <= s[i] <= 'Z')
    ensures FoldCase(s) == s
  {
  }

  /** Folding undoes raising. */
  lemma FoldUpper(s: string)
    ensures FoldCase(Upper(s)) == FoldCase(s)
  {
    forall i | 0 <= i < |s| ensures FoldCase(Upper(s))[i] == FoldCase(s)[i] {
      assert Upper(s)[i] == if 'a' <= s[i] <= 'z' then (s[i] as int - 32) as char else s[i];
    }
  }

  /** A logged-in user who is not an administrator is turned back from the system pages. */
  lemma AdminPagesNeedAdmin(path: string, suffix: string, token: string, role: Option<string>)
    requires path in AdminPages && token != "" && role != Some("admin")
    ensures Navigate(path, suffix, Some(token), role).1 == Redirect("/dashboard")
  {
    PagesAreLower(path);
    assert Resolve(path).records[1].requiresAuth && Resolve(path).records[2].requiresAdmin;
  }

  /** An administrator reaches every page behind the layout. */
  lemma AdminReachesAll(path: string, suffix: string, token: string)
    requires (path in AuthPages || path in AdminPages) && token != ""
    ensures Navigate(path, suffix, Some(token), Some("admin")).1 == Proceed
  {
    PagesAreLower(path);
    assert Resolve(path).records[1].requiresAuth;
  }

  /** With a token the login page sends the user to the dashboard. */
  lemma LoggedInSkipsLogin(suffix: string, token: string, role: Option<string>)
    requires token != ""
    ensures Navigate("/login", suffix, Some(token), role).1 == Redirect("/dashboard")
  {
    assert FoldCase("/login") == "/login";
  }
}
