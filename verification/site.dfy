/** The whole page as the event handlers see it: the pages, the elements that
    navigate, and the mobile drawer, changed one event at a time. */
module Site {
  import opened Wrappers
  import opened Navigation
  import opened MobileMenu

  datatype Site = Site(pages: Pages, triggers: seq<Trigger>, menu: Menu, hasHomeLink: bool)

  /** `r` holds the same elements as `ts`, each with its target and menu
      class, and leaves every element outside the menus exactly as it was:
      only the `active` class of a menu link may differ. */
  predicate SameLinks(ts: seq<Trigger>, r: seq<Trigger>) {
    && |r| == |ts|
    && (forall i :: 0 <= i < |r| ==> r[i].target == ts[i].target && r[i].kind == ts[i].kind)
    && (forall i :: 0 <= i < |r| && !ts[i].kind.InNavMenu() ==> r[i] == ts[i])
  }

  /** What a navigation from `s` to `key` leaves in `r`: the same page
      elements and links, `<key>-page` alone displayed if there is such a
      page and none displayed otherwise, exactly the menu links that target
      `key` active, and every element outside the menus untouched. */
  predicate NavigatedTo(s: Site, r: Site, key: string) {
    && r.pages.Keys == s.pages.Keys
    && VisiblePages(r.pages) == (if PageElementId(key) in s.pages then {PageElementId(key)} else {})
    && SameLinks(s.triggers, r.triggers)
    && ActiveMenuLinks(r.triggers) == MenuLinksTo(s.triggers, key)
    && r.hasHomeLink == s.hasHomeLink
  }

  /** The pair `showPage(key); updateActiveNavLink(key)` every navigation
      runs. The previously displayed page is not kept, even when `key` names
      no page. */
  function Navigate(s: Site, key: string): (r: Site)
    ensures NavigatedTo(s, r, key)
    ensures r.menu == s.menu
  {
    ActiveGroupIsKeyGroup(s.triggers, key);
    s.(pages := ShowPage(s.pages, key), triggers := UpdateActiveNavLink(s.triggers, key))
  }

  /** The state `initPageNavigation` sets up on load: the home page, with the
      drawer untouched. */
  function Init(s: Site): (r: Site)
    ensures NavigatedTo(s, r, "home")
    ensures r.menu == s.menu
  {
    Navigate(s, "home")
  }

  /** A `data-page` value the handlers act on: present and not empty. */
  predicate Followable(target: Option<string>) {
    target.Some? && target.value != []
  }

  /** The listener on every menu link: navigate, then close the drawer; a
      missing or empty `data-page` changes nothing. */
  function MenuLinkListener(s: Site, target: Option<string>): (r: Site)
    ensures Followable(target) ==> NavigatedTo(s, r, target.value) && r.menu == Close(s.menu)
    ensures !Followable(target) ==> r == s
  {
    if Followable(target) then
      var n := Navigate(s, target.value);
      n.(menu := Close(n.menu))
    else s
  }

  /** The listener on every element with a `data-page` attribute: navigate,
      leaving the drawer alone. */
  function DataPageListener(s: Site, target: Option<string>): (r: Site)
    ensures Followable(target) ==> NavigatedTo(s, r, target.value) && r.menu == s.menu
    ensures !Followable(target) ==> r == s
  {
    if Followable(target) then Navigate(s, target.value) else s
  }

  /** A click on element `i`. A menu link that also carries `data-page` runs
      both listeners, in the order they were added; a mobile menu link
      finally closes the drawer a second time, from `initMobileMenu`. */
  function ClickTrigger(s: Site, i: nat): (r: Site)
    requires i < |s.triggers|
    ensures r.pages.Keys == s.pages.Keys && SameLinks(s.triggers, r.triggers) && r.hasHomeLink == s.hasHomeLink
    // a mobile menu link always closes the drawer, an element outside the
    // menus never touches it
    ensures s.triggers[i].kind == MobileNavLink ==> r.menu == Close(s.menu)
    ensures s.triggers[i].kind == Other ==> r.menu == s.menu
  {
    var t := s.triggers[i];
    var afterMenu := if t.kind.InNavMenu() then MenuLinkListener(s, t.target) else s;
    var afterData := if t.target.Some? then DataPageListener(afterMenu, t.target) else afterMenu;
    if t.kind == MobileNavLink then afterData.(menu := Close(afterData.menu)) else afterData
  }

  /** However many listeners fire, a click is one navigation: a menu link
      navigates and closes the drawer, any other element with a non-empty
      `data-page` navigates and leaves the drawer alone, and anything else
      changes nothing. */
  lemma ClickIsOneNavigation(s: Site, i: nat)
    requires i < |s.triggers|
    ensures var t := s.triggers[i];
      && (Followable(t.target) && t.kind.InNavMenu() ==>
            ClickTrigger(s, i) == Navigate(s, t.target.value).(menu := Close(s.menu)))
      && (Followable(t.target) && !t.kind.InNavMenu() ==>
            ClickTrigger(s, i) == Navigate(s, t.target.value))
      && (!Followable(t.target) ==>
            ClickTrigger(s, i) == if t.kind == MobileNavLink then s.(menu := Close(s.menu)) else s)
  {
    var t := s.triggers[i];
    if Followable(t.target) {
      var key := t.target.value;
      ShowPageIdempotent(s.pages, key);
      UpdateIdempotent(s.triggers, key);
    }
  }

  /** The page-title link: back to the home page, closing the drawer; a page
      without the link has nothing to click. */
  function ClickHome(s: Site): (r: Site)
    ensures s.hasHomeLink ==> NavigatedTo(s, r, "home") && r.menu == Close(s.menu)
    ensures !s.hasHomeLink ==> r == s
  {
    if s.hasHomeLink then
      var n := Navigate(s, "home");
      n.(menu := Close(n.menu))
    else s
  }

  /** The user events the core reacts to. */
  datatype Event =
    | Click(index: nat)
    | ClickHomeLink
    | ClickToggle
    | ClickMenu(onBackdrop: bool)
    | Resize(width: int)
    | EscapeKey

  function Step(s: Site, e: Event): Site {
    match e
    case Click(i) => if i < |s.triggers| then ClickTrigger(s, i) else s
    case ClickHomeLink => ClickHome(s)
    case ClickToggle => s.(menu := Toggle(s.menu))
    case ClickMenu(onBackdrop) => s.(menu := OnMenuClick(s.menu, onBackdrop))
    case Resize(width) => s.(menu := OnResize(s.menu, width))
    // the `keydown` listener: Escape closes the drawer (it also removes the
    // success popup, which is not modelled)
    case EscapeKey => s.(menu := Close(s.menu))
  }

  function Run(s: Site, events: seq<Event>): Site
    decreases |events|
  {
    if events == [] then s else Run(Step(s, events[0]), events[1..])
  }

  /** What the handlers keep true: at most one page is displayed, and the
      drawer is consistent. */
  predicate Invariant(s: Site) {
    |VisiblePages(s.pages)| <= 1 && Consistent(s.menu)
  }

  lemma StepKeepsInvariant(s: Site, e: Event)
    requires Invariant(s)
    ensures Invariant(Step(s, e))
  {
    match e
    case Click(i) =>
      if i < |s.triggers| {
        var t := s.triggers[i];
        if Followable(t.target) {
          ClickIsOneNavigation(s, i);
        }
      }
    case ClickHomeLink =>
    case ClickToggle =>
    case ClickMenu(onBackdrop) =>
    case Resize(width) =>
    case EscapeKey =>
  }

  /** From the loaded page onwards, whatever the user does, at most one page
      is ever displayed and scrolling is never left locked behind a closed
      drawer. */
  lemma {:induction false} RunKeepsInvariant(s: Site, events: seq<Event>)
    requires Consistent(s.menu)
    ensures Invariant(Run(Init(s), events))
  {
    RunFrom(Init(s), events);
  }

  lemma {:induction false} RunFrom(s: Site, events: seq<Event>)
    requires Invariant(s)
    ensures Invariant(Run(s, events))
    decreases |events|
  {
    if events != [] {
      StepKeepsInvariant(s, events[0]);
      RunFrom(Step(s, events[0]), events[1..]);
    }
  }

  /** Three pages, `home`, `about` and `projects`, all hidden before load. */
  function ThreePages(): Pages {
    map["home-page" := false, "about-page" := false, "projects-page" := false]
  }

  /** Load, then `about`, `projects` and the unknown `bogus`: the last step
      leaves no page displayed, not `projects`. */
  lemma UnknownKeyAfterProjects(links: seq<Trigger>, m: Menu)
    ensures var s0 := Init(Site(ThreePages(), links, m, false));
      var s3 := Navigate(Navigate(Navigate(s0, "about"), "projects"), "bogus");
      && VisiblePages(Navigate(Navigate(s0, "about"), "projects").pages) == {"projects-page"}
      && VisiblePages(s3.pages) == {}
  {
    var p := ThreePages();
    assert PageElementId("projects") == "projects-page";
    assert PageElementId("bogus") == "bogus-page";
    assert "projects-page" in p;
    assert "bogus-page" !in p;
  }
}
