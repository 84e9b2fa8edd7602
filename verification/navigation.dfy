/** The page navigator (`showPage` and `updateActiveNavLink`): which page
    element is displayed, and which navigation links are marked active. */
module Navigation {
  import opened Wrappers

  /** The id of the element holding the page with key `key`. */
  function PageElementId(key: string): string {
    key + "-page"
  }

  /** Every `.page` element by id, with whether it is displayed (class
      `active` and `display: block`) or hidden (`display: none`). */
  type Pages = map<string, bool>

  function VisiblePages(pages: Pages): set<string> {
    set id | id in pages && pages[id]
  }

  /** A page map is determined by its ids and by which of them are visible. */
  lemma PagesByVisibility(p: Pages, q: Pages)
    requires p.Keys == q.Keys && VisiblePages(p) == VisiblePages(q)
    ensures p == q
  {
    forall id | id in p ensures p[id] == q[id] {
      assert p[id] <==> id in VisiblePages(p);
      assert q[id] <==> id in VisiblePages(q);
    }
  }

  /** The first half of `showPage`: every page is hidden. */
  function HideAll(pages: Pages): (r: Pages)
    ensures r.Keys == pages.Keys
    ensures VisiblePages(r) == {}
  {
    map id | id in pages :: false
  }

  /** `showPage(key)`: hide every page, then display `<key>-page` if there is
      such an element. Nothing else is kept from the previous display, so an
      unknown key leaves every page hidden. */
  function ShowPage(pages: Pages, key: string): (r: Pages)
    ensures r.Keys == pages.Keys
    ensures PageElementId(key) in pages ==> VisiblePages(r) == {PageElementId(key)}
    ensures PageElementId(key) !in pages ==> VisiblePages(r) == {}
  {
    var hidden := HideAll(pages);
    var target := PageElementId(key);
    if target in hidden then hidden[target := true] else hidden
  }

  /** The previous display does not matter: only the last `showPage` counts. */
  lemma ShowPageLastWins(pages: Pages, first: string, key: string)
    ensures ShowPage(ShowPage(pages, first), key) == ShowPage(pages, key)
  {
    PagesByVisibility(ShowPage(ShowPage(pages, first), key), ShowPage(pages, key));
  }

  /** Showing the same page again changes nothing. */
  lemma ShowPageIdempotent(pages: Pages, key: string)
    ensures ShowPage(ShowPage(pages, key), key) == ShowPage(pages, key)
  {
    ShowPageLastWins(pages, key, key);
  }

  /** The class that puts a link in one of the two navigation menus, if any. */
  datatype Kind = NavLink | MobileNavLink | Other {
    predicate InNavMenu() {
      this == NavLink || this == MobileNavLink
    }
  }

  /** An element that may carry a `data-page` target, its menu class, and
      whether it has class `active`. */
  datatype Trigger = Trigger(target: Option<string>, kind: Kind, active: bool)

  /** The first half of `updateActiveNavLink`: every menu link loses `active`. */
  function ClearNavLinks(ts: seq<Trigger>): (r: seq<Trigger>)
    ensures |r| == |ts|
    ensures forall i :: 0 <= i < |r| ==> r[i].target == ts[i].target && r[i].kind == ts[i].kind
    ensures forall i :: 0 <= i < |r| && ts[i].kind.InNavMenu() ==> !r[i].active
    ensures forall i :: 0 <= i < |r| && !ts[i].kind.InNavMenu() ==> r[i] == ts[i]
  {
    seq(|ts|, i requires 0 <= i < |ts| => if ts[i].kind.InNavMenu() then ts[i].(active := false) else ts[i])
  }

  /** The second half: every element whose `data-page` is `key` and which is a
      menu link gains `active`. */
  function MarkMatching(ts: seq<Trigger>, key: string): (r: seq<Trigger>)
    ensures |r| == |ts|
    ensures forall i :: 0 <= i < |r| ==> r[i].target == ts[i].target && r[i].kind == ts[i].kind
    ensures forall i :: 0 <= i < |r| ==>
      (r[i].active <==> ts[i].active || (ts[i].kind.InNavMenu() && ts[i].target == Some(key)))
  {
    seq(|ts|, i requires 0 <= i < |ts| =>
      if ts[i].kind.InNavMenu() && ts[i].target == Some(key) then ts[i].(active := true) else ts[i])
  }

  /** `updateActiveNavLink(key)`. */
  function UpdateActiveNavLink(ts: seq<Trigger>, key: string): (r: seq<Trigger>)
    ensures |r| == |ts|
    ensures forall i :: 0 <= i < |r| ==> r[i].target == ts[i].target && r[i].kind == ts[i].kind
    // a menu link is active exactly when it targets the key
    ensures forall i :: 0 <= i < |r| && ts[i].kind.InNavMenu() ==> (r[i].active <==> ts[i].target == Some(key))
    // any other element is left exactly as it was
    ensures forall i :: 0 <= i < |r| && !ts[i].kind.InNavMenu() ==> r[i] == ts[i]
  {
    MarkMatching(ClearNavLinks(ts), key)
  }

  /** Only the last `updateActiveNavLink` counts. */
  lemma UpdateLastWins(ts: seq<Trigger>, first: string, key: string)
    ensures UpdateActiveNavLink(UpdateActiveNavLink(ts, first), key) == UpdateActiveNavLink(ts, key)
  {
    var a := UpdateActiveNavLink(UpdateActiveNavLink(ts, first), key);
    var b := UpdateActiveNavLink(ts, key);
    forall i | 0 <= i < |a| ensures a[i] == b[i] { }
  }

  /** Marking the same links again changes nothing. */
  lemma UpdateIdempotent(ts: seq<Trigger>, key: string)
    ensures UpdateActiveNavLink(UpdateActiveNavLink(ts, key), key) == UpdateActiveNavLink(ts, key)
  {
    UpdateLastWins(ts, key, key);
  }

  /** The indices of the menu links that are active. */
  function ActiveMenuLinks(ts: seq<Trigger>): set<nat> {
    set i: nat | i < |ts| && ts[i].kind.InNavMenu() && ts[i].active
  }

  /** The indices of the menu links that target `key`. */
  function MenuLinksTo(ts: seq<Trigger>, key: string): set<nat> {
    set i: nat | i < |ts| && ts[i].kind.InNavMenu() && ts[i].target == Some(key)
  }

  /** After the update the active menu links are exactly the group that
      targets the key. */
  lemma ActiveGroupIsKeyGroup(ts: seq<Trigger>, key: string)
    ensures ActiveMenuLinks(UpdateActiveNavLink(ts, key)) == MenuLinksTo(ts, key)
  {
    var r := UpdateActiveNavLink(ts, key);
    assert forall i: nat :: i < |ts| ==> (i in ActiveMenuLinks(r) <==> i in MenuLinksTo(ts, key));
  }

  /** After the update no menu link that targets another key is active. */
  lemma OtherGroupsInactive(ts: seq<Trigger>, key: string, other: string)
    requires other != key
    ensures ActiveMenuLinks(UpdateActiveNavLink(ts, key)) !! MenuLinksTo(ts, other)
  {
    ActiveGroupIsKeyGroup(ts, key);
  }
}
