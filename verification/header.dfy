/**
 * The navigation header: the role predicates read from the session, the links each role
 * sees, the active-link class, the mobile menu flag, and sign-out.
 */
module Header {
  import opened Options
  import opened SessionStore

  predicate IsAdmin(role: string) {
    role == "1"
  }

  predicate IsValidator(role: string) {
    role == "3"
  }

  /** `!!session.role`: any non-empty role counts as signed in. */
  predicate IsLogged(role: string) {
    role != []
  }

  /** What sign-out writes through the store's `setSession`: a session with three empty strings. */
  const SignedOut: Session := Session([], [], [])

  datatype Link = Dashboard | MakeReport | YourReports | AllReports | DefineNewAdmin | ReportsToAnswer

  function PathOf(l: Link): string {
    match l
    case Dashboard => "/statistics"
    case MakeReport => "/report"
    case YourReports => "/personalHistory"
    case AllReports => "/adminHistory"
    case DefineNewAdmin => "/defineAdmin"
    case ReportsToAnswer => "/adminHistory"
  }

  /** The links rendered for a role, in the order the header lists them. */
  function VisibleLinks(role: string): seq<Link> {
    (if IsLogged(role) then [Dashboard] else [])
    + (if !IsValidator(role) then [MakeReport, YourReports] else [])
    + (if IsAdmin(role) then [AllReports, DefineNewAdmin] else [])
    + (if IsValidator(role) then [ReportsToAnswer] else [])
  }

  /**
   * Dashboard is shown iff signed in; the two reporting links iff not a validator (so also
   * to a visitor who is not signed in); the admin links iff admin; the answering link iff
   * validator.
   */
  lemma VisibleLinksSpec(role: string)
    ensures Dashboard in VisibleLinks(role) <==> IsLogged(role)
    ensures MakeReport in VisibleLinks(role) <==> !IsValidator(role)
    ensures YourReports in VisibleLinks(role) <==> !IsValidator(role)
    ensures AllReports in VisibleLinks(role) <==> IsAdmin(role)
    ensures DefineNewAdmin in VisibleLinks(role) <==> IsAdmin(role)
    ensures ReportsToAnswer in VisibleLinks(role) <==> IsValidator(role)
  {
  }

  /**
   * No two shown links lead to the same path (so no link is shown twice), although the
   * admin's and the validator's reports links share "/adminHistory".
   */
  lemma VisibleLinksDistinctPaths(role: string)
    ensures forall i, j :: 0 <= i < j < |VisibleLinks(role)| ==> PathOf(VisibleLinks(role)[i]) != PathOf(VisibleLinks(role)[j])
  {
    var links := VisibleLinks(role);
    if IsValidator(role) {
      assert links == [Dashboard, ReportsToAnswer];
    } else if IsAdmin(role) {
      assert links == [Dashboard, MakeReport, YourReports, AllReports, DefineNewAdmin];
    } else if IsLogged(role) {
      assert links == [Dashboard, MakeReport, YourReports];
    } else {
      assert links == [MakeReport, YourReports];
    }
  }

  /** The admin and validator roles are both signed-in roles, and no role is both. */
  lemma RolesDisjoint(role: string)
    ensures IsAdmin(role) ==> IsLogged(role) && !IsValidator(role)
    ensures IsValidator(role) ==> IsLogged(role)
  {
  }

  /** `getNavLinkClass`: the active marker is added exactly when the location is the link's path. */
  function NavLinkClass(pathname: string, path: string): (r: string)
    ensures r == "header-btn active-link" <==> pathname == path
    ensures r == "header-btn" <==> pathname != path
  {
    if pathname == path then "header-btn active-link" else "header-btn"
  }

  /** One rendered link button. */
  datatype Button = Button(link: Link, className: string)

  /** What the header renders. */
  datatype View = View(
    menuToggle: Option<string>,  // the hamburger's class, when the toggle is shown
    buttonsClass: string,
    buttons: seq<Button>,
    signOut: bool
  )

  /** Reading `session.role` of a `null` session throws. */
  datatype RenderError = NullSession

  function OpenSuffix(open: bool): string {
    if open then "open" else ""
  }

  function Buttons(links: seq<Link>, pathname: string): (r: seq<Button>)
    ensures |r| == |links|
    ensures forall i :: 0 <= i < |r| ==> r[i].link == links[i] && r[i].className == NavLinkClass(pathname, PathOf(links[i]))
  {
    seq(|links|, i requires 0 <= i < |links| => Button(links[i], NavLinkClass(pathname, PathOf(links[i]))))
  }

  /** The header for a session, the current location and the menu flag. */
  function Render(session: Option<Session>, pathname: string, menuOpen: bool): Result<View, RenderError> {
    match session
    case None => Err(NullSession)
    case Some(s) =>
      Ok(View(
        if IsLogged(s.role) then Some("hamburger " + OpenSuffix(menuOpen)) else None,
        "header-buttons " + OpenSuffix(menuOpen),
        Buttons(VisibleLinks(s.role), pathname),
        IsLogged(s.role)))
  }

  /**
   * A `null` session cannot be rendered. Otherwise the menu toggle and Sign Out are shown
   * iff signed in, the buttons are the role's links in order, and at most one button, the
   * one whose path is the location, carries the active class.
   */
  lemma RenderSpec(session: Option<Session>, pathname: string, menuOpen: bool)
    ensures Render(session, pathname, menuOpen).Err? <==> session.None?
    ensures session.Some? ==>
      var v := Render(session, pathname, menuOpen).value;
      && (v.menuToggle.Some? <==> IsLogged(session.value.role))
      && (v.signOut <==> IsLogged(session.value.role))
      && |v.buttons| == |VisibleLinks(session.value.role)|
      && (forall i :: 0 <= i < |v.buttons| ==> v.buttons[i].link == VisibleLinks(session.value.role)[i])
      && (forall i :: 0 <= i < |v.buttons| ==>
            (v.buttons[i].className == "header-btn active-link" <==> PathOf(v.buttons[i].link) == pathname))
      && (forall i, j :: 0 <= i < j < |v.buttons| ==>
            !(v.buttons[i].className == "header-btn active-link" && v.buttons[j].className == "header-btn active-link"))
  {
    if session.Some? {
      VisibleLinksDistinctPaths(session.value.role);
    }
  }

  /** After sign-out the header shows only the two reporting links, with no toggle and no Sign Out. */
  lemma SignedOutView(pathname: string, menuOpen: bool)
    ensures Render(Some(SignedOut), pathname, menuOpen).Ok?
    ensures var v := Render(Some(SignedOut), pathname, menuOpen).value;
      && v.menuToggle.None? && !v.signOut
      && |v.buttons| == 2 && v.buttons[0].link == MakeReport && v.buttons[1].link == YourReports
  {
    assert VisibleLinks(SignedOut.role) == [MakeReport, YourReports];
  }

  class HeaderState {
    var isMenuOpen: bool

    constructor ()
      ensures !isMenuOpen
    {
      isMenuOpen := false;
    }

    method ToggleMenu()
      modifies this
      ensures isMenuOpen == !old(isMenuOpen)
    {
      isMenuOpen := !isMenuOpen;
    }

    /** `closeMenu`: also run by every link's click. */
    method CloseMenu()
      modifies this
      ensures !isMenuOpen
    {
      isMenuOpen := false;
    }

    /**
     * `handleSignOut`: the store's `setSession` receives the empty session (not `null`),
     * then the menu closes.
     */
    method HandleSignOut(store: Store)
      modifies this, store
      ensures store.session == Some(SignedOut)
      ensures !isMenuOpen
      ensures !IsLogged(store.session.value.role)
    {
      store.SetSession(Some(SignedOut));
      CloseMenu();
    }
  }
}
