/**
 * The route table and the navigation guard. Paths resolve to the chain of records they match
 * (parent first), redirects are followed, and before every navigation the guard sends an
 * unauthenticated visitor of a protected record to the route named `login`.
 */
module Router {
  import opened Wrappers
  import AuthUser

  /** A route record: its path pattern, name, redirect target, `meta.requiresAuth` and children. */
  datatype RouteRecord = RouteRecord(
    path: string,
    name: Option<string>,
    redirect: Option<string>,
    requiresAuth: bool,
    children: seq<RouteRecord>)

  const CatchAllPattern := "/:pathMatch(.*)*"

  const RootRoute := RouteRecord("/", None, Some("/login"), false, [])
  const LoginRoute := RouteRecord("/login", Some("login"), None, false, [])
  const HomeRoute := RouteRecord("", Some("home"), None, false, [])
  const EmployeeRoute := RouteRecord("employee", Some("employee"), None, false, [])
  const DashboardRoute := RouteRecord("/dashboard", Some("dashboard"), None, true, [HomeRoute, EmployeeRoute])
  const NotFoundRoute := RouteRecord(CatchAllPattern, Some("NotFound"), Some("/dashboard"), false, [])

  /** The router's `routes` option. */
  const Routes := [RootRoute, LoginRoute, DashboardRoute, NotFoundRoute]

  /** A matchable path: its full path and the records it matches, outermost first. */
  datatype Candidate = Candidate(fullPath: string, chain: seq<RouteRecord>)

  /** A child's path is relative to its parent's; an empty child path is the parent's own path. */
  function JoinPath(parent: string, child: string): string
  {
    if child == "" then parent else if child[0] == '/' then child else parent + "/" + child
  }

  /**
   * Every record of a forest with its full path and chain. Children come before their parent, so
   * a child with an empty path wins over the parent it shares a path with.
   */
  function Flatten(rs: seq<RouteRecord>, parentPath: string, ancestors: seq<RouteRecord>): seq<Candidate>
    decreases rs
  {
    if rs == [] then []
    else
      var full := JoinPath(parentPath, rs[0].path);
      Flatten(rs[0].children, full, ancestors + [rs[0]]) +
      [Candidate(full, ancestors + [rs[0]])] +
      Flatten(rs[1..], parentPath, ancestors)
  }

  function Candidates(): seq<Candidate>
  {
    Flatten(Routes, "", [])
  }

  function LowerChar(c: char): char
  {
    if 'A' <= c <= 'Z' then (c as int + 32) as char else c
  }

  /** ASCII lower case: path matching is case-insensitive. */
  function Lower(s: string): (r: string)
    ensures |r| == |s|
    ensures forall i :: 0 <= i < |s| ==> !('A' <= r[i] <= 'Z')
    ensures forall i :: 0 <= i < |s| ==>
              if 'A' <= s[i] <= 'Z' then r[i] as int - s[i] as int == 'a' as int - 'A' as int else r[i] == s[i]
  {
    seq(|s|, i requires 0 <= i < |s| => LowerChar(s[i]))
  }

  /** The form of a path that matching compares: lower case, one trailing '/' allowed. */
  function MatchKey(path: string): string
  {
    var p := if |path| > 1 && path[|path| - 1] == '/' then path[..|path| - 1] else path;
    Lower(p)
  }

  predicate IsCatchAll(c: Candidate)
  {
    |c.chain| > 0 && c.chain[|c.chain| - 1].path == CatchAllPattern
  }

  /** Candidate `k` is static with folded path `key`, and no static candidate before it is. */
  predicate FirstStatic(cs: seq<Candidate>, key: string, k: nat)
    requires k < |cs|
  {
    !IsCatchAll(cs[k]) && Lower(cs[k].fullPath) == key &&
    forall j :: 0 <= j < k ==> IsCatchAll(cs[j]) || Lower(cs[j].fullPath) != key
  }

  /** The first static candidate whose path is `key`. */
  function FindStatic(cs: seq<Candidate>, key: string): (r: Option<seq<RouteRecord>>)
    ensures r.None? <==> forall k :: 0 <= k < |cs| ==> IsCatchAll(cs[k]) || Lower(cs[k].fullPath) != key
    ensures r.Some? ==> exists k :: 0 <= k < |cs| && FirstStatic(cs, key, k) && r.value == cs[k].chain
  {
    if cs == [] then None
    else if !IsCatchAll(cs[0]) && Lower(cs[0].fullPath) == key then Some(cs[0].chain)
    else FindStatic(cs[1..], key)
  }

  /** The first catch-all candidate. */
  function FindCatchAll(cs: seq<Candidate>): Option<seq<RouteRecord>>
  {
    if cs == [] then None
    else if IsCatchAll(cs[0]) then Some(cs[0].chain)
    else FindCatchAll(cs[1..])
  }

  /** `to.matched` for a path: a static route if one matches, the catch-all otherwise. */
  function Match(path: string): seq<RouteRecord>
  {
    match FindStatic(Candidates(), MatchKey(path))
    case Some(chain) => chain
    case None =>
      match FindCatchAll(Candidates())
      case Some(chain) => chain
      case None => []
  }

  /** A resolved navigation target. */
  datatype Location = Location(path: string, matched: seq<RouteRecord>)

  /** Resolve a path, following the redirect of the record it lands on. */
  function Resolve(path: string): Location
  {
    var m := Match(path);
    if m != [] && m[|m| - 1].redirect.Some? then
      var target := m[|m| - 1].redirect.value;
      Location(target, Match(target))
    else Location(path, m)
  }

  function FindNamed(cs: seq<Candidate>, name: string): Option<Location>
  {
    if cs == [] then None
    else if |cs[0].chain| > 0 && cs[0].chain[|cs[0].chain| - 1].name == Some(name) then
      Some(Location(cs[0].fullPath, cs[0].chain))
    else FindNamed(cs[1..], name)
  }

  /** `{ name }` as a navigation target. */
  function ResolveNamed(name: string): Option<Location>
  {
    FindNamed(Candidates(), name)
  }

  /** The outcome of one `beforeEach` call: `next()` or `next({ name })`. */
  datatype Decision = Proceed | RedirectTo(routeName: string)

  /** `matched.some(record => record.meta.requiresAuth)`. */
  function SomeRequiresAuth(matched: seq<RouteRecord>): (r: bool)
    ensures r <==> exists i :: 0 <= i < |matched| && matched[i].requiresAuth
  {
    if matched == [] then false
    else matched[0].requiresAuth || SomeRequiresAuth(matched[1..])
  }

  /** The guard's decision for a target, given whether the session is authenticated. */
  function Guard(to: Location, authenticated: bool): (d: Decision)
    ensures d == RedirectTo("login") <==>
            (exists i :: 0 <= i < |to.matched| && to.matched[i].requiresAuth) && !authenticated
    ensures d != RedirectTo("login") ==> d == Proceed
  {
    if SomeRequiresAuth(to.matched) then
      if !authenticated then RedirectTo("login") else Proceed
    else Proceed
  }

  /** `router.beforeEach`: the store is consulted afresh on every navigation. */
  method BeforeEach(to: Location, store: AuthUser.AuthStore) returns (d: Decision)
    ensures d == Guard(to, store.IsAuthenticated())
  {
    var authenticated := store.IsAuthenticated();
    if SomeRequiresAuth(to.matched) {
      if !authenticated {
        d := RedirectTo("login");
      } else {
        d := Proceed;
      }
    } else {
      d := Proceed;
    }
  }

  /**
   * A whole navigation: resolve, run the guard, and if it redirects run it again on the new
   * target. `None` means the second run would have redirected again.
   */
  function Navigate(path: string, authenticated: bool): Option<Location>
  {
    var to := Resolve(path);
    match Guard(to, authenticated)
    case Proceed => Some(to)
    case RedirectTo(name) =>
      match ResolveNamed(name)
      case None => None
      case Some(target) => if Guard(target, authenticated) == Proceed then Some(target) else None
  }

  const LoginLocation := Location("/login", [LoginRoute])

  // ---------------------------------------------------------------------------------------------
  // Facts about the table

  lemma FlattenLeaf(r: RouteRecord, parentPath: string, ancestors: seq<RouteRecord>)
    requires r.children == []
    ensures Flatten([r], parentPath, ancestors) == [Candidate(JoinPath(parentPath, r.path), ancestors + [r])]
  {
    assert [r][0] == r && [r][1..] == [];
    assert Flatten(r.children, JoinPath(parentPath, r.path), ancestors + [r]) == [];
    assert Flatten([r][1..], parentPath, ancestors) == [];
  }

  lemma FlattenCons(rs: seq<RouteRecord>, parentPath: string, ancestors: seq<RouteRecord>)
    requires rs != [] && rs[0].children == []
    ensures Flatten(rs, parentPath, ancestors) ==
            [Candidate(JoinPath(parentPath, rs[0].path), ancestors + [rs[0]])] + Flatten(rs[1..], parentPath, ancestors)
  {
    assert Flatten(rs[0].children, JoinPath(parentPath, rs[0].path), ancestors + [rs[0]]) == [];
  }

  lemma FlattenDashboardChildren()
    ensures Flatten(DashboardRoute.children, "/dashboard", [DashboardRoute]) ==
            [Candidate("/dashboard", [DashboardRoute, HomeRoute]),
             Candidate("/dashboard/employee", [DashboardRoute, EmployeeRoute])]
  {
    var d := [DashboardRoute];
    assert d + [HomeRoute] == [DashboardRoute, HomeRoute];
    assert d + [EmployeeRoute] == [DashboardRoute, EmployeeRoute];
    assert JoinPath("/dashboard", "employee") == "/dashboard/employee";
    assert JoinPath("/dashboard", "") == "/dashboard";
    FlattenLeaf(EmployeeRoute, "/dashboard", d);
    FlattenCons([HomeRoute, EmployeeRoute], "/dashboard", d);
    assert [HomeRoute, EmployeeRoute][1..] == [EmployeeRoute];
  }

  lemma FlattenNotFound()
    ensures Flatten([NotFoundRoute], "", []) == [Candidate(CatchAllPattern, [NotFoundRoute])]
  {
    assert CatchAllPattern[0] == '/';
    assert JoinPath("", CatchAllPattern) == CatchAllPattern;
    assert [] + [NotFoundRoute] == [NotFoundRoute];
    FlattenLeaf(NotFoundRoute, "", []);
  }

  lemma FlattenFromDashboard()
    ensures Flatten([DashboardRoute, NotFoundRoute], "", []) ==
            [Candidate("/dashboard", [DashboardRoute, HomeRoute]),
             Candidate("/dashboard/employee", [DashboardRoute, EmployeeRoute]),
             Candidate("/dashboard", [DashboardRoute]),
             Candidate(CatchAllPattern, [NotFoundRoute])]
  {
    var rs := [DashboardRoute, NotFoundRoute];
    assert rs[0] == DashboardRoute && rs[1..] == [NotFoundRoute];
    assert JoinPath("", "/dashboard") == "/dashboard";
    assert [] + [DashboardRoute] == [DashboardRoute];
    FlattenDashboardChildren();
    FlattenNotFound();
  }

  lemma CandidatesTable()
    ensures Candidates() == [
      Candidate("/", [RootRoute]),
      Candidate("/login", [LoginRoute]),
      Candidate("/dashboard", [DashboardRoute, HomeRoute]),
      Candidate("/dashboard/employee", [DashboardRoute, EmployeeRoute]),
      Candidate("/dashboard", [DashboardRoute]),
      Candidate(CatchAllPattern, [NotFoundRoute])]
  {
    var rs1 := [LoginRoute, DashboardRoute, NotFoundRoute];
    FlattenFromDashboard();
    FlattenCons(rs1, "", []);
    assert JoinPath("", "/login") == "/login";
    assert [] + [LoginRoute] == [LoginRoute];
    assert rs1[1..] == [DashboardRoute, NotFoundRoute];
    FlattenCons(Routes, "", []);
    assert JoinPath("", "/") == "/";
    assert [] + [RootRoute] == [RootRoute];
    assert Routes[1..] == rs1;
  }

  predicate NoUpper(s: string) { forall i :: 0 <= i < |s| ==> !('A' <= s[i] <= 'Z') }

  lemma LowerKeepsLowerCase(s: string)
    requires NoUpper(s)
    ensures Lower(s) == s
  {
  }

  /** The static candidate a key selects, for every key. */
  lemma FindStaticTable(key: string)
    ensures FindStatic(Candidates(), key) ==
              if key == "/" then Some([RootRoute])
              else if key == "/login" then Some([LoginRoute])
              else if key == "/dashboard" then Some([DashboardRoute, HomeRoute])
              else if key == "/dashboard/employee" then Some([DashboardRoute, EmployeeRoute])
              else None
    ensures FindCatchAll(Candidates()) == Some([NotFoundRoute])
  {
    CandidatesTable();
    var cs := Candidates();
    LowerKeepsLowerCase("/");
    LowerKeepsLowerCase("/login");
    LowerKeepsLowerCase("/dashboard");
    LowerKeepsLowerCase("/dashboard/employee");
    assert IsCatchAll(cs[5]) && !IsCatchAll(cs[0]) && !IsCatchAll(cs[1]) && !IsCatchAll(cs[2]);
    assert !IsCatchAll(cs[3]) && !IsCatchAll(cs[4]);
    assert FindStatic(cs[5..], key) == None by {
      assert cs[5..][1..] == [];
    }
    assert FindStatic(cs[4..], key) == (if key == "/dashboard" then Some([DashboardRoute]) else None) by {
      assert cs[4..][1..] == cs[5..];
    }
    assert FindStatic(cs[3..], key) == (if key == "/dashboard/employee" then Some([DashboardRoute, EmployeeRoute]) else FindStatic(cs[4..], key)) by {
      assert cs[3..][1..] == cs[4..];
    }
    assert FindStatic(cs[2..], key) == (if key == "/dashboard" then Some([DashboardRoute, HomeRoute]) else FindStatic(cs[3..], key)) by {
      assert cs[2..][1..] == cs[3..];
    }
    assert FindStatic(cs[1..], key) == (if key == "/login" then Some([LoginRoute]) else FindStatic(cs[2..], key)) by {
      assert cs[1..][1..] == cs[2..];
    }
    assert FindCatchAll(cs[5..]) == Some([NotFoundRoute]);
    assert FindCatchAll(cs[4..]) == FindCatchAll(cs[5..]) by { assert cs[4..][1..] == cs[5..]; }
    assert FindCatchAll(cs[3..]) == FindCatchAll(cs[4..]) by { assert cs[3..][1..] == cs[4..]; }
    assert FindCatchAll(cs[2..]) == FindCatchAll(cs[3..]) by { assert cs[2..][1..] == cs[3..]; }
    assert FindCatchAll(cs[1..]) == FindCatchAll(cs[2..]) by { assert cs[1..][1..] == cs[2..]; }
  }

  /** Which records a path matches, by its case-folded, trailing-slash-free form. */
  lemma MatchTable(path: string)
    ensures var k := MatchKey(path);
            Match(path) ==
              if k == "/" then [RootRoute]
              else if k == "/login" then [LoginRoute]
              else if k == "/dashboard" then [DashboardRoute, HomeRoute]
              else if k == "/dashboard/employee" then [DashboardRoute, EmployeeRoute]
              else [NotFoundRoute]
  {
    FindStaticTable(MatchKey(path));
  }

  /** Matching ignores ASCII case. */
  lemma MatchKeyIgnoresCase(a: string, b: string)
    requires Lower(a) == Lower(b)
    ensures MatchKey(a) == MatchKey(b)
  {
    if |a| > 1 {
      assert (a[|a| - 1] == '/') == (Lower(a)[|a| - 1] == '/');
      assert (b[|b| - 1] == '/') == (Lower(b)[|b| - 1] == '/');
      assert Lower(a[..|a| - 1]) == Lower(a)[..|a| - 1];
      assert Lower(b[..|b| - 1]) == Lower(b)[..|b| - 1];
    }
  }

  /** Matching ignores one trailing slash. */
  lemma MatchKeyIgnoresTrailingSlash(p: string)
    requires p != "" && p[|p| - 1] != '/'
    ensures MatchKey(p + "/") == MatchKey(p)
  {
    assert (p + "/")[..|p|] == p;
  }

  lemma MatchKeyOfLowerCase(p: string)
    requires NoUpper(p) && (|p| <= 1 || p[|p| - 1] != '/')
    ensures MatchKey(p) == p
  {
    LowerKeepsLowerCase(p);
  }

  lemma MatchKeyOfKnownPaths()
    ensures MatchKey("/") == "/" && MatchKey("/login") == "/login" && MatchKey("/dashboard") == "/dashboard"
    ensures MatchKey("/dashboard/employee") == "/dashboard/employee"
  {
    MatchKeyOfLowerCase("/");
    MatchKeyOfLowerCase("/login");
    MatchKeyOfLowerCase("/dashboard");
    MatchKeyOfLowerCase("/dashboard/employee");
  }

  /** The children `''` and `employee` declare nothing but are protected through `/dashboard`. */
  lemma DashboardChildrenProtected()
    ensures !HomeRoute.requiresAuth && !EmployeeRoute.requiresAuth
    ensures Match("/dashboard") == [DashboardRoute, HomeRoute]
    ensures Match("/dashboard/employee") == [DashboardRoute, EmployeeRoute]
    ensures SomeRequiresAuth(Match("/dashboard")) && SomeRequiresAuth(Match("/dashboard/employee"))
  {
    MatchKeyOfKnownPaths();
    MatchTable("/dashboard");
    MatchTable("/dashboard/employee");
  }

  /** `/` redirects to `/login`. */
  lemma RootResolvesToLogin()
    ensures Resolve("/") == LoginLocation
  {
    MatchKeyOfKnownPaths();
    MatchTable("/");
    MatchTable("/login");
  }

  /** An unmatched path lands on `/dashboard`, and an unauthenticated visitor is then sent to `login`. */
  lemma UnknownPathResolvesToDashboard(path: string)
    requires MatchKey(path) !in {"/", "/login", "/dashboard", "/dashboard/employee"}
    ensures Match(path) == [NotFoundRoute]
    ensures Resolve(path) == Location("/dashboard", [DashboardRoute, HomeRoute])
    ensures Guard(Resolve(path), false) == RedirectTo("login")
  {
    MatchKeyOfKnownPaths();
    MatchTable(path);
    MatchTable("/dashboard");
  }

  /** The `login` route is never guarded, so redirecting to it cannot loop. */
  lemma LoginNeverGuarded(authenticated: bool)
    ensures ResolveNamed("login") == Some(LoginLocation)
    ensures Guard(LoginLocation, authenticated) == Proceed
    ensures Guard(Resolve("/login"), authenticated) == Proceed
  {
    ResolveNamedLogin();
    MatchKeyOfKnownPaths();
    MatchTable("/login");
  }

  lemma ResolveNamedLogin()
    ensures ResolveNamed("login") == Some(LoginLocation)
  {
    CandidatesTable();
    var cs := Candidates();
    assert cs[1..][0] == Candidate("/login", [LoginRoute]);
    assert FindNamed(cs[1..], "login") == Some(LoginLocation);
    assert cs[0].chain[|cs[0].chain| - 1].name == None;
  }

  /** Where every path resolves: the redirects of `/` and of the catch-all are followed. */
  lemma ResolveTable(path: string)
    ensures var k := MatchKey(path);
            Resolve(path) ==
              if k == "/" then LoginLocation
              else if k == "/login" then Location(path, [LoginRoute])
              else if k == "/dashboard" then Location(path, [DashboardRoute, HomeRoute])
              else if k == "/dashboard/employee" then Location(path, [DashboardRoute, EmployeeRoute])
              else Location("/dashboard", [DashboardRoute, HomeRoute])
  {
    MatchKeyOfKnownPaths();
    MatchTable(path);
    MatchTable("/login");
    MatchTable("/dashboard");
  }

  /**
   * Whatever the path, an unauthenticated navigation ends on the `login` record; only a path
   * that already names it keeps its own spelling.
   */
  lemma UnauthenticatedEndsAtLogin(path: string)
    ensures Navigate(path, false) ==
            Some(if MatchKey(path) == "/login" then Location(path, [LoginRoute]) else LoginLocation)
  {
    ResolveTable(path);
    LoginNeverGuarded(false);
    var to := Resolve(path);
    var k := MatchKey(path);
    if k == "/" || k == "/login" {
      assert Guard(to, false) == Proceed;
    } else {
      assert to.matched[0] == DashboardRoute;
      assert Guard(to, false) == RedirectTo("login");
    }
  }

  /** An authenticated navigation arrives where the path resolves. */
  lemma AuthenticatedArrives(path: string)
    ensures Navigate(path, true) == Some(Resolve(path))
  {
  }

  /** A resolved target never ends in a redirecting record: one redirect step is all the table needs. */
  lemma ResolvedNeverRedirects(path: string)
    ensures var m := Resolve(path).matched; m != [] && m[|m| - 1].redirect.None?
  {
    ResolveTable(path);
  }
}
