/** The Navigation component of script.js: a mobile menu that a toggle
    control opens and closes (locking page scrolling while open), that link
    clicks and a resize to desktop width close, and a fixed nav bar that hides
    while the page scrolls down past the hero section.

    The DOM effects are fields: the `active` class on the toggle and on the
    menu, `overflow: hidden` on the body, and the `hidden` class on the nav. */
module NavigationBar {

  /** Scroll offset past which the nav bar may hide at all. */
  const HeroOffset := 100
  /** Scroll offset past which scrolling down hides the nav bar. */
  const HideOffset := 200
  /** Widest viewport that still shows the mobile menu. */
  const MobileMaxWidth := 768

  /** Whether handleScroll leaves the nav bar hidden, decided by the nested
      tests of the source. The outer hero test is implied by the inner one, so
      the bar hides exactly on a downward scroll that ends past HideOffset. */
  function NavHidden(lastScrollY: int, currentScrollY: int): (hidden: bool)
    ensures hidden <==> currentScrollY > HideOffset && currentScrollY > lastScrollY
    ensures currentScrollY <= HeroOffset ==> !hidden
  {
    if currentScrollY > HeroOffset then
      currentScrollY > lastScrollY && currentScrollY > HideOffset
    else
      false
  }

  /** The nav bar after a series of scroll events starting from `lastScrollY`:
      only the last two positions decide it. */
  function HiddenAfter(lastScrollY: int, positions: seq<int>): (hidden: bool)
    requires |positions| > 0
    ensures var n := |positions|;
            hidden == NavHidden(if n == 1 then lastScrollY else positions[n - 2], positions[n - 1])
    decreases |positions|
  {
    if |positions| == 1 then NavHidden(lastScrollY, positions[0])
    else HiddenAfter(positions[0], positions[1..])
  }

  /** The menu-related DOM state. */
  datatype Menu = Menu(isMenuOpen: bool, toggleActive: bool, menuActive: bool, bodyLocked: bool)

  /** The DOM agrees with the menu flag. */
  predicate Consistent(m: Menu) {
    m.toggleActive == m.isMenuOpen && m.menuActive == m.isMenuOpen && m.bodyLocked == m.isMenuOpen
  }

  /** toggleMenu: flip the flag and both `active` classes, then set the body
      overflow from the new flag. */
  function Toggle(m: Menu): (r: Menu)
    ensures r.isMenuOpen == !m.isMenuOpen
    ensures r.bodyLocked == r.isMenuOpen
    ensures r.toggleActive != m.toggleActive && r.menuActive != m.menuActive
    ensures Consistent(m) ==> Consistent(r)
  {
    Menu(!m.isMenuOpen, !m.toggleActive, !m.menuActive, !m.isMenuOpen)
  }

  /** Toggling twice restores the state exactly when the body lock agreed with
      the flag to begin with: the classes are toggled, the lock is assigned. */
  lemma ToggleTwiceRestores(m: Menu)
    ensures Toggle(Toggle(m)) == m <==> m.bodyLocked == m.isMenuOpen
    ensures Toggle(Toggle(m)).isMenuOpen == m.isMenuOpen
  {
  }

  /** The close-only handlers (a link click, a resize to desktop width):
      toggle only when the menu is open. */
  function Close(m: Menu): (r: Menu)
    ensures !r.isMenuOpen
    ensures !m.isMenuOpen ==> r == m
    ensures m.isMenuOpen ==> r == Toggle(m)
    ensures Consistent(m) ==> Consistent(r)
  {
    if m.isMenuOpen then Toggle(m) else m
  }

  /** The Navigation object with the DOM state it drives. */
  class Navigation {
    var lastScrollY: int
    var isMenuOpen: bool
    var toggleActive: bool
    var menuActive: bool
    var bodyLocked: bool
    var navHidden: bool

    function MenuState(): Menu
      reads this
    {
      Menu(isMenuOpen, toggleActive, menuActive, bodyLocked)
    }

    /** init, with the window's scroll position at that moment; the page starts
        with the menu closed and no `active` or `hidden` class set. */
    constructor (scrollY: int)
      ensures lastScrollY == scrollY && !navHidden
      ensures MenuState() == Menu(false, false, false, false) && Consistent(MenuState())
    {
      lastScrollY := scrollY;
      isMenuOpen := false;
      toggleActive, menuActive, bodyLocked, navHidden := false, false, false, false;
    }

    /** The click handler of the toggle control. */
    method ToggleMenu()
      modifies this
      ensures MenuState() == Toggle(old(MenuState()))
      ensures lastScrollY == old(lastScrollY) && navHidden == old(navHidden)
    {
      isMenuOpen := !isMenuOpen;
      toggleActive := !toggleActive;
      menuActive := !menuActive;
      bodyLocked := isMenuOpen;
    }

    /** The click handler of every navigation link. */
    method OnLinkClick()
      modifies this
      ensures MenuState() == Close(old(MenuState()))
      ensures lastScrollY == old(lastScrollY) && navHidden == old(navHidden)
    {
      if isMenuOpen {
        ToggleMenu();
      }
    }

    /** The resize handler, given the new viewport width. */
    method OnResize(innerWidth: int)
      modifies this
      ensures MenuState() == if innerWidth > MobileMaxWidth then Close(old(MenuState()))
                             else old(MenuState())
      ensures lastScrollY == old(lastScrollY) && navHidden == old(navHidden)
    {
      if innerWidth > MobileMaxWidth && isMenuOpen {
        ToggleMenu();
      }
    }

    /** The scroll handler, given the window's new scroll position. */
    method HandleScroll(currentScrollY: int)
      modifies this
      ensures navHidden == NavHidden(old(lastScrollY), currentScrollY)
      ensures lastScrollY == currentScrollY
      ensures MenuState() == old(MenuState())
    {
      if currentScrollY > HeroOffset {
        if currentScrollY > lastScrollY && currentScrollY > HideOffset {
          navHidden := true;
        } else {
          navHidden := false;
        }
      } else {
        navHidden := false;
      }
      lastScrollY := currentScrollY;
    }
  }

  /** A series of scroll events delivered to the handler in order: the bar
      ends up as HiddenAfter says, and the last position is remembered. */
  method ScrollThrough(nav: Navigation, ys: seq<int>)
    modifies nav
    ensures nav.navHidden == if ys == [] then old(nav.navHidden)
                             else HiddenAfter(old(nav.lastScrollY), ys)
    ensures nav.lastScrollY == if ys == [] then old(nav.lastScrollY) else ys[|ys| - 1]
    ensures nav.MenuState() == old(nav.MenuState())
  {
    ghost var start := nav.lastScrollY;
    var i := 0;
    while i < |ys|
      invariant 0 <= i <= |ys|
      invariant i == 0 ==> nav.navHidden == old(nav.navHidden) && nav.lastScrollY == start
      invariant i > 0 ==> nav.navHidden == HiddenAfter(start, ys[..i]) && nav.lastScrollY == ys[i - 1]
      invariant nav.MenuState() == old(nav.MenuState())
    {
      nav.HandleScroll(ys[i]);
      assert ys[..i + 1][i] == ys[i];
      assert i > 0 ==> ys[..i + 1][i - 1] == ys[i - 1];
      i := i + 1;
    }
    assert ys[..|ys|] == ys;
  }

  /** Scrolling from 50 to 250 and then to 400 hides the bar; scrolling back
      to 100 shows it again. */
  method ScrollScenario()
  {
    var nav := new Navigation(50);
    nav.HandleScroll(250);
    assert nav.navHidden;
    nav.HandleScroll(400);
    assert nav.navHidden;
    nav.HandleScroll(100);
    assert !nav.navHidden;
    assert HiddenAfter(50, [250, 400, 100]) == nav.navHidden;
  }
}
