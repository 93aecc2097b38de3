/** The navigation controller: which section is current for a scroll
    offset, which nav link is highlighted, the navbar's "scrolled" flag, the
    mobile-menu toggle and the link-click handler. Layout reads
    (`offsetTop`, `offsetHeight`, `pageYOffset`) arrive as parameters. */
module Navigation {
  import opened Options

  /** A `.section` element: its `id`, `offsetTop` and `offsetHeight`. */
  datatype Section = Section(id: string, top: int, height: int)

  /** A `.nav-link` element: its `href` attribute and whether it carries
      the `active` class. */
  datatype NavLink = NavLink(href: string, active: bool)

  /** The classes the controller manages: `active` on the menu and on the
      toggle button, `scrolled` on the navbar, and the links. */
  datatype NavState = NavState(menuOpen: bool, toggleOpen: bool, scrolled: bool, links: seq<NavLink>)

  /** What a link click does: the new state and, when the target section
      exists, the offset passed to `window.scrollTo`. */
  datatype ClickResult = ClickResult(state: NavState, scrollTo: Option<int>)

  /** Added to the scroll offset before looking for the current section. */
  const ActiveProbeOffset: int := 100
  /** The navbar gets `scrolled` only strictly past this offset. */
  const ScrolledThreshold: int := 100
  /** The fixed navbar height subtracted from a click's scroll target. */
  const NavbarHeight: int := 70

  /** The probe position lies in the half-open band [top, top + height). */
  predicate Covers(s: Section, pos: int) {
    s.top <= pos < s.top + s.height
  }

  /** Section `i` covers `pos` and no later section does. */
  ghost predicate IsLastCovering(sections: seq<Section>, pos: int, i: int) {
    && 0 <= i < |sections|
    && Covers(sections[i], pos)
    && forall j :: i < j < |sections| ==> !Covers(sections[j], pos)
  }

  ghost predicate NoneCovers(sections: seq<Section>, pos: int) {
    forall i :: 0 <= i < |sections| ==> !Covers(sections[i], pos)
  }

  /** The `forEach` over the sections: each covering section overwrites the
      accumulator, so the last covering one wins and `acc` survives only
      when none covers. */
  function CurrentFrom(sections: seq<Section>, pos: int, acc: string): (r: string)
    ensures NoneCovers(sections, pos) ==> r == acc
    ensures forall i {:trigger IsLastCovering(sections, pos, i)} ::
      IsLastCovering(sections, pos, i) ==> r == sections[i].id
    decreases |sections|
  {
    if |sections| == 0 then acc
    else
      var acc' := if Covers(sections[0], pos) then sections[0].id else acc;
      var r := CurrentFrom(sections[1..], pos, acc');
      assert forall i {:trigger IsLastCovering(sections, pos, i)} ::
        IsLastCovering(sections, pos, i) && i > 0 ==> IsLastCovering(sections[1..], pos, i - 1);
      assert IsLastCovering(sections, pos, 0) ==> NoneCovers(sections[1..], pos);
      r
  }

  /** `handleActiveNav`'s first half: the id of the last section in
      document order that covers `scrollY + 100`, or "" when none does. */
  function CurrentSection(sections: seq<Section>, scrollY: int): (r: string)
    ensures NoneCovers(sections, scrollY + ActiveProbeOffset) ==> r == ""
    ensures forall i {:trigger IsLastCovering(sections, scrollY + ActiveProbeOffset, i)} ::
      IsLastCovering(sections, scrollY + ActiveProbeOffset, i) ==> r == sections[i].id
  {
    CurrentFrom(sections, scrollY + ActiveProbeOffset, "")
  }

  /** The `href` a link must carry to be highlighted for `current`. */
  function Anchor(current: string): (href: string)
    ensures |href| == |current| + 1 && href[0] == '#' && href[1..] == current
  {
    "#" + current
  }

  /** `handleActiveNav`'s second half: every link loses `active`, and gets
      it back exactly when its href is `#` followed by the current id. */
  function Highlight(links: seq<NavLink>, current: string): (r: seq<NavLink>)
    ensures |r| == |links|
    ensures forall i :: 0 <= i < |r| ==>
      r[i].href == links[i].href && (r[i].active <==> links[i].href == Anchor(current))
    decreases |links|
  {
    if |links| == 0 then []
    else [NavLink(links[0].href, links[0].href == Anchor(current))] + Highlight(links[1..], current)
  }

  predicate DistinctHrefs(links: seq<NavLink>) {
    forall i, j :: 0 <= i < j < |links| ==> links[i].href != links[j].href
  }

  /** `handleActiveNav` as a whole. */
  function HandleActiveNav(sections: seq<Section>, links: seq<NavLink>, scrollY: int): (r: seq<NavLink>)
    ensures |r| == |links|
    ensures forall i :: 0 <= i < |r| ==> r[i].href == links[i].href
  {
    Highlight(links, CurrentSection(sections, scrollY))
  }

  /** With distinct hrefs, no two links are active after highlighting. */
  lemma AtMostOneActive(sections: seq<Section>, links: seq<NavLink>, scrollY: int)
    requires DistinctHrefs(links)
    ensures var r := HandleActiveNav(sections, links, scrollY);
      forall i, j :: 0 <= i < j < |r| ==> !(r[i].active && r[j].active)
  {
  }

  /** When section `k` is the last one covering the probe and a link points
      at it, that link is active and no link with a different href is. */
  lemma CoveredSectionHighlighted(sections: seq<Section>, links: seq<NavLink>, scrollY: int, k: nat, i: nat)
    requires IsLastCovering(sections, scrollY + ActiveProbeOffset, k)
    requires i < |links|
    ensures HandleActiveNav(sections, links, scrollY)[i].active <==> links[i].href == "#" + sections[k].id
  {
  }

  /** With distinct hrefs, when section `k` is the last covering the probe
      and link `m` points at it, link `m` is the one and only active link. */
  lemma ExactlyOneActive(sections: seq<Section>, links: seq<NavLink>, scrollY: int, k: nat, m: nat)
    requires DistinctHrefs(links)
    requires IsLastCovering(sections, scrollY + ActiveProbeOffset, k)
    requires m < |links| && links[m].href == "#" + sections[k].id
    ensures var r := HandleActiveNav(sections, links, scrollY);
      r[m].active && forall i :: 0 <= i < |r| && i != m ==> !r[i].active
  {
    var r := HandleActiveNav(sections, links, scrollY);
    forall i | 0 <= i < |r| && i != m
      ensures !r[i].active
    {
      if i < m { assert links[i].href != links[m].href; }
      else { assert links[m].href != links[i].href; }
    }
  }

  /** When no section covers the probe, the current id is "" and the only
      links that can be active are those whose href is exactly "#". */
  lemma UncoveredOnlyBareHash(sections: seq<Section>, links: seq<NavLink>, scrollY: int, i: nat)
    requires NoneCovers(sections, scrollY + ActiveProbeOffset)
    requires i < |links|
    ensures HandleActiveNav(sections, links, scrollY)[i].active <==> links[i].href == "#"
  {
  }

  /** The previous `active` flags play no part: highlighting starts by
      removing the class from every link. */
  lemma HighlightForgetsPrevious(links: seq<NavLink>, other: seq<NavLink>, current: string)
    requires |links| == |other|
    requires forall i :: 0 <= i < |links| ==> links[i].href == other[i].href
    ensures Highlight(links, current) == Highlight(other, current)
  {
    var a := Highlight(links, current);
    var b := Highlight(other, current);
    assert forall i :: 0 <= i < |a| ==> a[i] == b[i];
  }

  /** The navbar's `scrolled` flag for a scroll offset. */
  function IsScrolled(scrollY: int): (r: bool)
    ensures r <==> scrollY >= 101
    ensures scrollY == 100 ==> !r
  {
    scrollY > ScrolledThreshold
  }

  /** The scroll listener of `initNavigation`: sets `scrolled` from the
      offset and re-highlights the links; the menu is left as it is. */
  function OnScroll(st: NavState, sections: seq<Section>, scrollY: int): (r: NavState)
    ensures r.scrolled <==> scrollY > 100
    ensures r.menuOpen == st.menuOpen && r.toggleOpen == st.toggleOpen
    ensures |r.links| == |st.links|
    ensures forall i :: 0 <= i < |r.links| ==>
      r.links[i].href == st.links[i].href
      && (r.links[i].active <==> st.links[i].href == "#" + CurrentSection(sections, scrollY))
  {
    st.(scrolled := IsScrolled(scrollY), links := HandleActiveNav(sections, st.links, scrollY))
  }

  /** The toggle button's click listener: `classList.toggle('active')` on
      the menu and on the button. */
  function Toggle(st: NavState): (r: NavState)
    ensures r.menuOpen == !st.menuOpen && r.toggleOpen == !st.toggleOpen
    ensures r.scrolled == st.scrolled && r.links == st.links
  {
    st.(menuOpen := !st.menuOpen, toggleOpen := !st.toggleOpen)
  }

  lemma ToggleTwiceRestores(st: NavState)
    ensures Toggle(Toggle(st)) == st
  {
  }

  /** The menu and its toggle button agree. */
  predicate InSync(st: NavState) {
    st.menuOpen == st.toggleOpen
  }

  /** The first section whose id, as an `#id` selector, equals `href`:
      `document.querySelector(href)` restricted to the page's sections. */
  function FindTarget(sections: seq<Section>, href: string): (r: Option<nat>)
    ensures r.None? <==> forall i :: 0 <= i < |sections| ==> "#" + sections[i].id != href
    ensures r.Some? ==>
      && r.value < |sections|
      && "#" + sections[r.value].id == href
      && forall j :: 0 <= j < r.value ==> "#" + sections[j].id != href
    decreases |sections|
  {
    if |sections| == 0 then None
    else if "#" + sections[0].id == href then Some(0)
    else
      match FindTarget(sections[1..], href)
      case None => None
      case Some(k) => Some(k + 1)
  }

  /** A nav link's click listener: the menu always closes; a scroll to the
      target's top minus the navbar height is requested only when the target
      exists. */
  function ClickLink(st: NavState, sections: seq<Section>, href: string): (r: ClickResult)
    ensures !r.state.menuOpen && !r.state.toggleOpen
    ensures r.state.scrolled == st.scrolled && r.state.links == st.links
    ensures r.scrollTo.None? <==> forall i :: 0 <= i < |sections| ==> "#" + sections[i].id != href
    ensures r.scrollTo.Some? ==> exists i ::
      && 0 <= i < |sections|
      && "#" + sections[i].id == href
      && (forall j :: 0 <= j < i ==> "#" + sections[j].id != href)
      && r.scrollTo.value == sections[i].top - 70
  {
    var closed := st.(menuOpen := false, toggleOpen := false);
    match FindTarget(sections, href)
    case None => ClickResult(closed, None)
    case Some(i) => ClickResult(closed, Some(sections[i].top - NavbarHeight))
  }

  /** Every handler keeps the menu and its button in sync. */
  lemma HandlersKeepInSync(st: NavState, sections: seq<Section>, href: string, scrollY: int)
    requires InSync(st)
    ensures InSync(Toggle(st))
    ensures InSync(ClickLink(st, sections, href).state)
    ensures InSync(OnScroll(st, sections, scrollY))
  {
  }
}
