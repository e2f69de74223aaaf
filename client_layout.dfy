/** The frame around every page: a spinner while authentication is being
    checked, access-denied for a signed-out visitor off the public routes,
    a redirect away from the sign-in pages once signed in, and otherwise the
    page, with the navigation bar only for a signed-in user off the public
    routes. */
module ClientLayout {

  datatype View = Spinner | AccessDenied | Redirect(to: string) | Page(withNavigation: bool)

  /** The routes reachable without signing in. */
  const PublicRoutes: seq<string> := ["/login", "/", "/register"]

  function Layout(loading: bool, authenticated: bool, path: string): (v: View)
    ensures loading ==> v == Spinner
    ensures !loading && !authenticated && path !in PublicRoutes ==> v == AccessDenied
    ensures !loading && authenticated && (path == "/login" || path == "/register") ==> v == Redirect("/dashboard")
    ensures v.Page? <==> && !loading
                         && (authenticated ==> path != "/login" && path != "/register")
                         && (!authenticated ==> path in PublicRoutes)
    ensures v.Page? ==> (v.withNavigation <==> authenticated && path !in PublicRoutes)
  {
    if loading then Spinner
    else
      var isPublic := path in PublicRoutes;
      if !authenticated && !isPublic then AccessDenied
      else if authenticated && (path == "/login" || path == "/register") then Redirect("/dashboard")
      else Page(authenticated && !isPublic)
  }

  /** The public routes are exactly the sign-in page, the home page and the
      registration page. */
  lemma PublicRoutesExactly(path: string)
    ensures path in PublicRoutes <==> path == "/login" || path == "/" || path == "/register"
  {
  }

  /** A signed-in user on the home page sees it without navigation. */
  lemma SignedInHomeHasNoNavigation()
    ensures Layout(false, true, "/") == Page(false)
  {
  }

  /** Navigation is shown only to a signed-in user on a protected route,
      and a signed-out visitor never sees a protected page. */
  lemma NavigationMeansSignedIn(loading: bool, authenticated: bool, path: string)
    ensures Layout(loading, authenticated, path) == Page(true) ==> authenticated && !loading && path !in PublicRoutes
    ensures !authenticated && path !in PublicRoutes ==> !Layout(loading, authenticated, path).Page?
  {
  }
}
