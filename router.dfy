/** The front end's navigation guard: before every navigation it looks at
    the target route's meta flags and at two facts of the session store
    (a token is held; the stored user is an administrator) and either lets
    the navigation through or redirects it. */
module Router {
  import opened Values

  /** The route records of the router table. */
  datatype Route =
    | Home | Books | MyBooks | Profile
    | Login | Register
    | Admin | AdminDashboard | UserManagement | BookManagement | CategoryManagement | BorrowManagement | Statistics
    | NotFound

  /** A route's meta flags; a flag the record does not set reads as false. */
  datatype Meta = Meta(requiresAuth: bool, requiresAdmin: bool, requiresGuest: bool)

  /** The full path of a declared route: a child's path is its parent's
      followed by its own; the catch-all has none. */
  function PathOf(r: Route): Option<string> {
    match r
    case Home => Some("/")
    case Books => Some("/books")
    case MyBooks => Some("/my-books")
    case Profile => Some("/profile")
    case Login => Some("/login")
    case Register => Some("/register")
    case Admin => Some("/admin")
    case AdminDashboard => Some("/admin/dashboard")
    case UserManagement => Some("/admin/users")
    case BookManagement => Some("/admin/books")
    case CategoryManagement => Some("/admin/categories")
    case BorrowManagement => Some("/admin/borrows")
    case Statistics => Some("/admin/statistics")
    case NotFound => None
  }

  /** The matched route of a path: the declared route with exactly that
      path, and the catch-all when no route declares it. */
  function Resolve(path: string): (r: Route)
    ensures PathOf(r) == Some(path) || (r == NotFound && forall d: Route :: PathOf(d) != Some(path))
  {
    if path == "/" then Home
    else if path == "/books" then Books
    else if path == "/my-books" then MyBooks
    else if path == "/profile" then Profile
    else if path == "/login" then Login
    else if path == "/register" then Register
    else if path == "/admin" then Admin
    else if path == "/admin/dashboard" then AdminDashboard
    else if path == "/admin/users" then UserManagement
    else if path == "/admin/books" then BookManagement
    else if path == "/admin/categories" then CategoryManagement
    else if path == "/admin/borrows" then BorrowManagement
    else if path == "/admin/statistics" then Statistics
    else NotFound
  }

  /** Every declared route is matched by its own path. */
  lemma ResolvePathOf(d: Route)
    ensures PathOf(d).Some? ==> Resolve(PathOf(d).value) == d
  {
  }

  predicate UnderHome(r: Route) {
    r == Books || r == MyBooks || r == Profile
  }

  predicate UnderAdmin(r: Route) {
    r == AdminDashboard || r == UserManagement || r == BookManagement
    || r == CategoryManagement || r == BorrowManagement || r == Statistics
  }

  /** The meta a navigation sees: a child route's own record sets no flags,
      so it sees its parent's. */
  function MetaOf(r: Route): (m: Meta)
    ensures m.requiresAuth <==> r == Home || UnderHome(r) || r == Admin || UnderAdmin(r)
    ensures m.requiresAdmin <==> r == Admin || UnderAdmin(r)
    ensures m.requiresGuest <==> r == Login || r == Register
  {
    if r == Home || UnderHome(r) then Meta(true, false, false)
    else if r == Admin || UnderAdmin(r) then Meta(true, true, false)
    else if r == Login || r == Register then Meta(false, false, true)
    else Meta(false, false, false)
  }

  /** What the guard does: `next()` or `next(path)`. */
  datatype Decision = Proceed | Redirect(path: string)

  /** The guard's three checks, in order. */
  function BeforeEach(m: Meta, isAuthenticated: bool, isAdmin: bool): (d: Decision)
    ensures m.requiresAuth && !isAuthenticated ==> d == Redirect("/login")
    ensures !(m.requiresAuth && !isAuthenticated) && m.requiresAdmin && !isAdmin ==> d == Redirect("/unauthorized")
    ensures !(m.requiresAuth && !isAuthenticated) && !(m.requiresAdmin && !isAdmin) && m.requiresGuest && isAuthenticated ==> d == Redirect("/")
    ensures d == Proceed <==>
      && !(m.requiresAuth && !isAuthenticated)
      && !(m.requiresAdmin && !isAdmin)
      && !(m.requiresGuest && isAuthenticated)
  {
    if m.requiresAuth && !isAuthenticated then Redirect("/login")
    else if m.requiresAdmin && !isAdmin then Redirect("/unauthorized")
    else if m.requiresGuest && isAuthenticated then Redirect("/")
    else Proceed
  }

  /** The guard only ever redirects to one of three paths. */
  lemma RedirectTargets(m: Meta, isAuthenticated: bool, isAdmin: bool)
    ensures var d := BeforeEach(m, isAuthenticated, isAdmin);
      d.Redirect? ==> d.path in ["/login", "/unauthorized", "/"]
  {
  }

  /** `/unauthorized` is not in the table: it lands on the catch-all page,
      which sets no flag, so the guard lets it through. */
  lemma UnauthorizedIsNotFound(isAuthenticated: bool, isAdmin: bool)
    ensures Resolve("/unauthorized") == NotFound
    ensures BeforeEach(MetaOf(Resolve("/unauthorized")), isAuthenticated, isAdmin) == Proceed
  {
  }

  /** With the store unchanged, the navigation a redirect starts is let
      through: the guard never redirects twice in a row. */
  lemma RedirectSettles(r: Route, isAuthenticated: bool, isAdmin: bool)
    ensures var d := BeforeEach(MetaOf(r), isAuthenticated, isAdmin);
      d.Redirect? ==> BeforeEach(MetaOf(Resolve(d.path)), isAuthenticated, isAdmin) == Proceed
  {
  }

  /** Administration pages need both a token and an administrator; a
      visitor without a token is sent to the login page even when the store
      still says administrator. */
  lemma AdminPagesGuarded(r: Route, isAuthenticated: bool, isAdmin: bool)
    requires r == Admin || UnderAdmin(r)
    ensures BeforeEach(MetaOf(r), isAuthenticated, isAdmin) == Proceed <==> isAuthenticated && isAdmin
    ensures !isAuthenticated ==> BeforeEach(MetaOf(r), isAuthenticated, isAdmin) == Redirect("/login")
  {
  }
}
