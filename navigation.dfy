/**
 * The scroll-position decisions of assets/js/main.js: the navbar and scroll-top
 * thresholds, the active-section highlight over the navigation links, and the target
 * of an in-page anchor click. The page's scroll offset is a parameter of every handler.
 */
module Navigation {
  import opened Wrappers

  /** The navbar gets the scrolled class past this offset (main.js:67). */
  const NavbarThreshold: real := 50.0
  /** The scroll-top button is visible past this offset (main.js:148). */
  const ScrollTopThreshold: real := 300.0
  /** A section counts as reached this far above its top (main.js:87). */
  const SectionLead: int := 100

  /** A section[id] element: its offsetTop, offsetHeight and id. */
  datatype Section = Section(offsetTop: int, offsetHeight: nat, id: string)

  /** A .nav-link element: its href attribute (None when absent) and its active class. */
  datatype NavItem = NavItem(href: Option<string>, active: bool)

  /** The href a nav item must carry to name the section with this id. */
  function Anchor(id: string): string {
    "#" + id
  }

  /** The range test of highlightNavigation (main.js:86-90). */
  predicate Matches(s: Section, y: real) {
    var top := s.offsetTop - SectionLead;
    (top as real) < y && y <= ((top + s.offsetHeight) as real)
  }

  /** The section list's last section that matches y, in document order. */
  function LastMatch(ss: seq<Section>, y: real): (r: Option<nat>)
    ensures r.Some? ==> r.value < |ss|
  {
    if ss == [] then None
    else if Matches(ss[|ss| - 1], y) then Some(|ss| - 1)
    else LastMatch(ss[..|ss| - 1], y)
  }

  /**
   * LastMatch is None exactly when no section matches; otherwise it names a matching
   * section after which none matches.
   */
  lemma {:induction false} LastMatchSpec(ss: seq<Section>, y: real)
    ensures LastMatch(ss, y).None? <==> forall k :: 0 <= k < |ss| ==> !Matches(ss[k], y)
    ensures LastMatch(ss, y).Some? ==>
      var k := LastMatch(ss, y).value;
      Matches(ss[k], y) && forall m :: k < m < |ss| ==> !Matches(ss[m], y)
  {
    if ss != [] && !Matches(ss[|ss| - 1], y) {
      var init := ss[..|ss| - 1];
      LastMatchSpec(init, y);
      assert forall k :: 0 <= k < |init| ==> init[k] == ss[k];
    }
  }

  /** The inner loop of highlightNavigation: active exactly on items whose href names id. */
  function Activated(items: seq<NavItem>, id: string): (r: seq<NavItem>)
    ensures |r| == |items|
  {
    seq(|items|, k requires 0 <= k < |items| => items[k].(active := items[k].href == Some(Anchor(id))))
  }

  /** Two activations in a row leave the items as the second one alone would. */
  lemma ActivatedTwice(items: seq<NavItem>, a: string, b: string)
    ensures Activated(Activated(items, a), b) == Activated(items, b)
  {
    var once := Activated(items, a);
    assert forall k :: 0 <= k < |items| ==> once[k].href == items[k].href;
  }

  /** The nav items after highlightNavigation at offset y. */
  function Highlighted(items: seq<NavItem>, ss: seq<Section>, y: real): seq<NavItem> {
    match LastMatch(ss, y)
    case None => items
    case Some(k) => Activated(items, ss[k].id)
  }

  /**
   * With no matching section the items are untouched; otherwise exactly the items whose
   * href is "#" followed by the id of the last matching section are active, and no href
   * changes.
   */
  lemma HighlightedSpec(items: seq<NavItem>, ss: seq<Section>, y: real)
    ensures (forall k :: 0 <= k < |ss| ==> !Matches(ss[k], y)) ==> Highlighted(items, ss, y) == items
    ensures forall j ::
      0 <= j < |ss| && Matches(ss[j], y) && (forall m :: j < m < |ss| ==> !Matches(ss[m], y)) ==>
      var r := Highlighted(items, ss, y);
      |r| == |items| &&
      forall k :: 0 <= k < |items| ==> r[k].href == items[k].href && (r[k].active <==> items[k].href == Some(Anchor(ss[j].id)))
  {
    LastMatchSpec(ss, y);
    forall j | 0 <= j < |ss| && Matches(ss[j], y) && (forall m :: j < m < |ss| ==> !Matches(ss[m], y))
      ensures LastMatch(ss, y) == Some(j)
    {
      var k := LastMatch(ss, y).value;
      assert !(k < j) && !(j < k);
    }
  }

  /**
   * Highlighting twice at the same offset is highlighting once: main.js attaches
   * highlightNavigation to scroll both directly and throttled, and the second run
   * changes nothing.
   */
  lemma HighlightedIdempotent(items: seq<NavItem>, ss: seq<Section>, y: real)
    ensures Highlighted(Highlighted(items, ss, y), ss, y) == Highlighted(items, ss, y)
  {
    match LastMatch(ss, y)
    case None =>
    case Some(k) => ActivatedTwice(items, ss[k].id, ss[k].id);
  }

  /** What a click on an a[href^="#"] link does (main.js:28-53). */
  datatype ClickOutcome =
    | Followed
    | Prevented(targetTop: Option<int>, closesMenu: bool)

  /**
   * The click handler: href "#" is left to the browser; otherwise the default is
   * prevented and, when the target exists, the page scrolls to its offsetTop less the
   * navbar's height (0 without a navbar), closing the mobile menu if it is shown.
   * target is the offsetTop of the element the href selects, navbarHeight the navbar's
   * offsetHeight, menuShown whether .navbar-collapse exists and has class show.
   */
  function AnchorClick(href: string, target: Option<int>, navbarHeight: Option<nat>, menuShown: bool): (r: ClickOutcome)
    ensures r == Followed <==> href == "#"
    ensures r.Prevented? ==> (r.targetTop.Some? <==> target.Some?) && (r.closesMenu <==> target.Some? && menuShown)
    ensures r.Prevented? && target.Some? && navbarHeight.Some? ==> r.targetTop.value + navbarHeight.value == target.value
    ensures r.Prevented? && target.Some? && navbarHeight.None? ==> r.targetTop.value == target.value
  {
    if href == "#" then Followed
    else match target
      case None => Prevented(None, false)
      case Some(top) =>
        var height := match navbarHeight case None => 0 case Some(h) => h;
        Prevented(Some(top - height), menuShown)
  }

  /**
   * The global state main.js's scroll listeners read and write. The section geometry
   * is read afresh on every call (main.js:86-88), so it is a parameter of each handler.
   */
  class Page {
    /** Whether the page has a .navbar (the handlers use ?. on it). */
    const hasNavbar: bool
    /** Whether the page has a .scroll-top button. */
    const hasScrollTop: bool
    var navItems: seq<NavItem>
    var navbarScrolled: bool
    var scrollTopVisible: bool
    var lastScroll: real

    /**
     * The page as the script starts: the classes come from the markup, only lastScroll
     * is set by the script (main.js:60).
     */
    constructor (navItems: seq<NavItem>, hasNavbar: bool, hasScrollTop: bool,
                 navbarScrolled: bool, scrollTopVisible: bool)
      ensures this.navItems == navItems
      ensures this.hasNavbar == hasNavbar && this.hasScrollTop == hasScrollTop
      ensures this.navbarScrolled == navbarScrolled && this.scrollTopVisible == scrollTopVisible
      ensures lastScroll == 0.0
    {
      this.navItems := navItems;
      this.hasNavbar := hasNavbar;
      this.hasScrollTop := hasScrollTop;
      this.navbarScrolled := navbarScrolled;
      this.scrollTopVisible := scrollTopVisible;
      lastScroll := 0.0;
    }

    /** The navbar scroll effect (main.js:63-74). */
    method OnScrollNavbar(y: real)
      modifies this
      ensures hasNavbar ==> (navbarScrolled <==> y > NavbarThreshold)
      ensures !hasNavbar ==> navbarScrolled == old(navbarScrolled)
      ensures lastScroll == y
      ensures navItems == old(navItems) && scrollTopVisible == old(scrollTopVisible)
    {
      if y > NavbarThreshold {
        if hasNavbar { navbarScrolled := true; }
      } else {
        if hasNavbar { navbarScrolled := false; }
      }
      lastScroll := y;
    }

    /** The scroll-top button's visibility (main.js:147-153). */
    method OnScrollTop(y: real)
      modifies this
      ensures hasScrollTop ==> (scrollTopVisible <==> y > ScrollTopThreshold)
      ensures !hasScrollTop ==> scrollTopVisible == old(scrollTopVisible)
      ensures navItems == old(navItems) && navbarScrolled == old(navbarScrolled) && lastScroll == old(lastScroll)
    {
      if y > ScrollTopThreshold {
        if hasScrollTop { scrollTopVisible := true; }
      } else {
        if hasScrollTop { scrollTopVisible := false; }
      }
    }

    /** The inner loop of highlightNavigation (main.js:91-96) for the section with this id. */
    method ActivateSection(id: string)
      modifies this
      ensures navItems == Activated(old(navItems), id)
      ensures navbarScrolled == old(navbarScrolled) && scrollTopVisible == old(scrollTopVisible)
      ensures lastScroll == old(lastScroll)
    {
      ghost var start := navItems;
      var j := 0;
      while j < |navItems|
        invariant 0 <= j <= |navItems| == |start|
        invariant forall k :: 0 <= k < j ==> navItems[k] == start[k].(active := start[k].href == Some(Anchor(id)))
        invariant forall k :: j <= k < |navItems| ==> navItems[k] == start[k]
        invariant navbarScrolled == old(navbarScrolled) && scrollTopVisible == old(scrollTopVisible)
        invariant lastScroll == old(lastScroll)
      {
        var item := navItems[j].(active := false);
        if item.href == Some("#" + id) {
          item := item.(active := true);
        }
        navItems := navItems[j := item];
        j := j + 1;
      }
    }

    /** highlightNavigation (main.js:82-99) at scroll offset y over the sections as laid out now. */
    method HighlightNavigation(sections: seq<Section>, y: real)
      modifies this
      ensures navItems == Highlighted(old(navItems), sections, y)
      ensures navbarScrolled == old(navbarScrolled) && scrollTopVisible == old(scrollTopVisible)
      ensures lastScroll == old(lastScroll)
    {
      ghost var start := navItems;
      var i := 0;
      while i < |sections|
        invariant 0 <= i <= |sections|
        invariant navItems == Highlighted(start, sections[..i], y)
        invariant navbarScrolled == old(navbarScrolled) && scrollTopVisible == old(scrollTopVisible)
        invariant lastScroll == old(lastScroll)
      {
        var section := sections[i];
        var top := section.offsetTop - SectionLead;
        assert sections[..i + 1] == sections[..i] + [section];
        assert sections[..i + 1][..i] == sections[..i];
        if (top as real) < y && y <= ((top + section.offsetHeight) as real) {
          ActivateSection(section.id);
          HighlightedAfterMatch(start, sections[..i], y, section);
        }
        i := i + 1;
      }
      assert sections[..i] == sections;
    }

    /**
     * All scroll listeners of main.js in the order they are attached (main.js:63, 101,
     * 147, 209); sections is the layout during this event, throttleOpen says whether
     * the throttled highlightNavigation lets this event through.
     */
    method OnScroll(sections: seq<Section>, y: real, throttleOpen: bool)
      modifies this
      ensures hasNavbar ==> (navbarScrolled <==> y > NavbarThreshold)
      ensures !hasNavbar ==> navbarScrolled == old(navbarScrolled)
      ensures hasScrollTop ==> (scrollTopVisible <==> y > ScrollTopThreshold)
      ensures !hasScrollTop ==> scrollTopVisible == old(scrollTopVisible)
      ensures navItems == Highlighted(old(navItems), sections, y)
      ensures lastScroll == y
    {
      OnScrollNavbar(y);
      HighlightNavigation(sections, y);
      OnScrollTop(y);
      if throttleOpen {
        HighlightNavigation(sections, y);
        HighlightedIdempotent(old(navItems), sections, y);
      }
    }
  }

  /** Highlighting a prefix and then activating a matching section is highlighting the longer prefix. */
  lemma HighlightedAfterMatch(items: seq<NavItem>, ss: seq<Section>, y: real, s: Section)
    requires Matches(s, y)
    ensures Activated(Highlighted(items, ss, y), s.id) == Highlighted(items, ss + [s], y)
  {
    assert LastMatch(ss + [s], y) == Some(|ss|);
    match LastMatch(ss, y)
    case None =>
    case Some(k) => ActivatedTwice(items, ss[k].id, s.id);
  }
}
