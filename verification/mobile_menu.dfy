/** The mobile menu drawer (`toggleMobileMenu` and `closeMobileMenu`): the
    menu's `hidden` class, the toggle button's `active` class, and the page
    body's `overflow` style, which locks scrolling while the drawer is open. */
module MobileMenu {

  /** `document.body.style.overflow`: never set yet, `auto`, or `hidden`. */
  datatype Overflow = Unset | Auto | Locked

  /** The drawer, or `Absent` when the markup lacks the menu or its toggle
      button, in which case nothing is wired and closing does nothing. */
  datatype Menu = Absent | Present(hidden: bool, toggleActive: bool, overflow: Overflow)

  /** `toggleMobileMenu`: flip both classes, then lock scrolling exactly when
      the drawer is now open. */
  function Toggle(m: Menu): (r: Menu)
    ensures m.Absent? <==> r.Absent?
    ensures r.Present? ==> r.hidden == !m.hidden && r.toggleActive == !m.toggleActive
    ensures r.Present? ==> r.overflow != Unset && (r.overflow == Locked <==> !r.hidden)
  {
    match m
    case Absent => Absent
    case Present(hidden, active, _) =>
      var nowHidden := !hidden;
      Present(nowHidden, !active, if nowHidden then Auto else Locked)
  }

  /** `closeMobileMenu`: hide the drawer, deactivate the button and unlock
      scrolling, whatever the state was; without the markup, nothing. */
  function Close(m: Menu): (r: Menu)
    ensures r.Absent? <==> m.Absent?
    ensures r.Present? ==> r.hidden && !r.toggleActive && r.overflow == Auto
  {
    match m
    case Absent => Absent
    case Present(_, _, _) => Present(true, false, Auto)
  }

  /** Closing again changes nothing. */
  lemma CloseIdempotent(m: Menu)
    ensures Close(Close(m)) == Close(m)
  {
  }

  /** Toggling twice restores both classes; it restores the whole state once
      the body's overflow has been set to match the drawer. */
  lemma ToggleTwice(m: Menu)
    ensures Toggle(Toggle(m)).Present? ==>
      Toggle(Toggle(m)).hidden == m.hidden && Toggle(Toggle(m)).toggleActive == m.toggleActive
    ensures m.Present? && m.overflow == (if m.hidden then Auto else Locked) ==> Toggle(Toggle(m)) == m
  {
  }

  /** The drawer's state as the markup and the two handlers keep it: the
      toggle button is active exactly when the drawer is open, and scrolling is
      locked only while it is open. */
  predicate Consistent(m: Menu) {
    m.Present? ==> m.toggleActive == !m.hidden && (m.overflow == Locked ==> !m.hidden)
  }

  /** Both handlers keep the drawer consistent; the state before any click,
      a hidden drawer with an inactive button and no overflow style, is
      consistent. */
  lemma HandlersKeepConsistent(m: Menu)
    requires Consistent(m)
    ensures Consistent(Toggle(m)) && Consistent(Close(m))
    ensures Consistent(Present(true, false, Unset))
  {
  }

  /** The window's `resize` handler: wider than 768 pixels closes the drawer. */
  function OnResize(m: Menu, width: int): (r: Menu)
    ensures width > 768 && r.Present? ==> r.hidden && !r.toggleActive && r.overflow == Auto
    ensures width <= 768 ==> r == m
    ensures r.Absent? <==> m.Absent?
    ensures Consistent(m) ==> Consistent(r)
  {
    if width > 768 then Close(m) else m
  }

  /** The drawer's own `click` handler: a click on the backdrop (the drawer
      element itself, not a link inside it) closes it. */
  function OnMenuClick(m: Menu, onBackdrop: bool): (r: Menu)
    ensures onBackdrop && r.Present? ==> r.hidden && !r.toggleActive && r.overflow == Auto
    ensures !onBackdrop ==> r == m
    ensures r.Absent? <==> m.Absent?
    ensures Consistent(m) ==> Consistent(r)
  {
    if onBackdrop then Close(m) else m
  }
}
