/** The pill-shaped navigation bar: the flattened list of scroll targets, which
    pill is highlighted, the Talent dropdown and the rule that while a click is
    scrolling the page the section observer may not move the highlight. */
module PillNav {
  import opened Wrappers
  import opened Catalog

  // ---------------------------------------------------------------------------
  // Flattening the navigation tree
  // ---------------------------------------------------------------------------

  /** A scroll target: a link's href and, for a child, its parent's caption. */
  datatype FlatLink = FlatLink(href: string, parent: Option<string>)

  /** The targets one child list contributes, each tagged with the parent. */
  function ChildEntries(parent: string, kids: seq<NavLink>): (r: seq<FlatLink>)
    ensures |r| == |kids|
    ensures forall j :: 0 <= j < |r| ==> r[j] == FlatLink(kids[j].href, Some(parent))
    decreases |kids|
  {
    if |kids| == 0 then []
    else ChildEntries(parent, kids[..|kids| - 1]) + [FlatLink(kids[|kids| - 1].href, Some(parent))]
  }

  /** A link with a child list contributes its children only; any other link
      contributes itself. */
  function Entries(link: NavLink): seq<FlatLink> {
    match link.children
    case None => [FlatLink(link.href, None)]
    case Some(kids) => ChildEntries(link.caption, kids)
  }

  /** The reference definition of `getAllLinks`: the entries of every link, in order. */
  function Flatten(links: seq<NavLink>): seq<FlatLink>
    decreases |links|
  {
    if |links| == 0 then [] else Flatten(links[..|links| - 1]) + Entries(links[|links| - 1])
  }

  /** How many targets a link contributes: its child count when it has a
      child list (an empty list is still a list and contributes none), else one. */
  function EntryCount(link: NavLink): nat {
    match link.children
    case None => 1
    case Some(kids) => |kids|
  }

  function TotalEntries(links: seq<NavLink>): nat
    decreases |links|
  {
    if |links| == 0 then 0 else TotalEntries(links[..|links| - 1]) + EntryCount(links[|links| - 1])
  }

  /** The flattened list has one target per childless link and one per child;
      grandchildren are never reached. */
  lemma {:induction false} FlattenLength(links: seq<NavLink>)
    ensures |Flatten(links)| == TotalEntries(links)
    decreases |links|
  {
    if |links| > 0 {
      FlattenLength(links[..|links| - 1]);
    }
  }

  /** `getAllLinks`: the two nested loops pushing onto one array. */
  method GetAllLinks(links: seq<NavLink>) returns (all: seq<FlatLink>)
    ensures all == Flatten(links)
  {
    all := [];
    var i := 0;
    while i < |links|
      invariant 0 <= i <= |links|
      invariant all == Flatten(links[..i])
    {
      var link := links[i];
      assert links[..i + 1][..i] == links[..i];
      match link.children {
        case Some(kids) =>
          all := PushChildren(all, link.caption, kids);
        case None =>
          all := all + [FlatLink(link.href, None)];
      }
      i := i + 1;
    }
    assert links[..i] == links;
  }

  /** The inner loop: pushes every child, tagged with the parent's caption. */
  method PushChildren(before: seq<FlatLink>, caption: string, kids: seq<NavLink>) returns (all: seq<FlatLink>)
    ensures all == before + ChildEntries(caption, kids)
  {
    all := before;
    var j := 0;
    while j < |kids|
      invariant 0 <= j <= |kids|
      invariant all == before + ChildEntries(caption, kids[..j])
    {
      assert kids[..j + 1][..j] == kids[..j];
      all := all + [FlatLink(kids[j].href, Some(caption))];
      j := j + 1;
    }
    assert kids[..j] == kids;
  }

  /** `link` puts `e` into the flattened list. */
  predicate ProvidedBy(link: NavLink, e: FlatLink) {
    match link.children
    case None => e == FlatLink(link.href, None)
    case Some(kids) => e.parent == Some(link.caption) && exists j :: 0 <= j < |kids| && kids[j].href == e.href
  }

  predicate Provides(links: seq<NavLink>, e: FlatLink) {
    exists i :: 0 <= i < |links| && ProvidedBy(links[i], e)
  }

  lemma EntriesMembership(link: NavLink, e: FlatLink)
    ensures e in Entries(link) <==> ProvidedBy(link, e)
  {
    if link.children.Some? {
      var kids := link.children.value;
      if ProvidedBy(link, e) {
        var j :| 0 <= j < |kids| && kids[j].href == e.href;
        assert Entries(link)[j] == e;
      }
    }
  }

  /** A target is in the flattened list exactly when some top-level link
      provides it: a plain link itself, or a child under its parent's caption. */
  lemma {:induction false} FlattenMembership(links: seq<NavLink>, e: FlatLink)
    ensures e in Flatten(links) <==> Provides(links, e)
    decreases |links|
  {
    if |links| > 0 {
      var init := links[..|links| - 1];
      var last := links[|links| - 1];
      FlattenMembership(init, e);
      EntriesMembership(last, e);
      if Provides(init, e) {
        var i :| 0 <= i < |init| && ProvidedBy(init[i], e);
        assert links[i] == init[i];
      }
      if Provides(links, e) && !ProvidedBy(last, e) {
        var i :| 0 <= i < |links| && ProvidedBy(links[i], e);
        assert init[i] == links[i];
      }
    }
  }

  /** `getAllLinks` on the site's navigation. */
  lemma SiteFlatLinks()
    ensures Flatten(NavLinks) == SiteTargets
  {
    var l := NavLinks;
    SiteLeadingTargets();
    SiteTalentTargets();
    assert l[..3][..2] == l[..2];
    assert Flatten(l[..3]) == SiteTargets[..2] + SiteTargets[2..9];
    assert SiteTargets[..2] + SiteTargets[2..9] == SiteTargets[..9];
    assert l[..4][..3] == l[..3] && l[..4] == l;
    assert Flatten(l) == SiteTargets[..9] + [FlatLink("#contact", None)];
  }

  /** Home and About contribute themselves. */
  lemma SiteLeadingTargets()
    ensures Flatten(NavLinks[..2]) == SiteTargets[..2]
  {
    var l := NavLinks;
    assert l[..1][..0] == [];
    assert Flatten(l[..1]) == [FlatLink("#home", None)];
    assert l[..2][..1] == l[..1];
  }

  /** Talent contributes its seven children, tagged with its caption. */
  lemma SiteTalentTargets()
    ensures Entries(NavLinks[2]) == SiteTargets[2..9]
  {
    var kids := NavLinks[2].children.value;
    assert Entries(NavLinks[2]) == ChildEntries("Talent", kids);
  }

  /** The flattened list of the site's navigation: the Talent children stand in
      for the Talent pill. */
  const SiteTargets: seq<FlatLink> := [
    FlatLink("#home", None), FlatLink("#about", None),
    FlatLink("#artists", Some("Talent")), FlatLink("#developers", Some("Talent")),
    FlatLink("#designers", Some("Talent")), FlatLink("#editors", Some("Talent")),
    FlatLink("#cosplay", Some("Talent")), FlatLink("#moderators", Some("Talent")),
    FlatLink("#furry", Some("Talent")), FlatLink("#contact", None)]

  // ---------------------------------------------------------------------------
  // The highlighted pill
  // ---------------------------------------------------------------------------

  /** `k` is where `flatLinks.find` stops for `href`. */
  predicate IsFirstHref(flat: seq<FlatLink>, href: string, k: int) {
    && 0 <= k < |flat|
    && flat[k].href == href
    && forall j :: 0 <= j < k ==> flat[j].href != href
  }

  function FindHref(flat: seq<FlatLink>, href: string): (r: Option<nat>)
    ensures r.None? <==> forall j :: 0 <= j < |flat| ==> flat[j].href != href
    ensures r.Some? ==> IsFirstHref(flat, href, r.value)
    decreases |flat|
  {
    if |flat| == 0 then None
    else if flat[0].href == href then Some(0)
    else
      match FindHref(flat[1..], href)
      case None => None
      case Some(k) => Some(k + 1)
  }

  /** The parent of the first target whose href is the active link; an empty
      caption is falsy and gives null, as does a missing or parentless target. */
  function ActiveParent(flat: seq<FlatLink>, activeLink: string): (r: Option<string>)
    ensures r.Some? ==> r.value != ""
    ensures r.Some? <==> exists k :: IsFirstHref(flat, activeLink, k) && flat[k].parent.Some? && flat[k].parent.value != ""
    ensures r.Some? ==> exists k :: IsFirstHref(flat, activeLink, k) && flat[k].parent == r
  {
    match FindHref(flat, activeLink)
    case None => None
    case Some(k) =>
      FirstHrefIsUnique(flat, activeLink, k);
      if flat[k].parent.Some? && flat[k].parent.value != "" then flat[k].parent else None
  }

  lemma FirstHrefIsUnique(flat: seq<FlatLink>, href: string, k: int)
    requires IsFirstHref(flat, href, k)
    ensures forall k' :: IsFirstHref(flat, href, k') ==> k' == k
  {
    forall k' | IsFirstHref(flat, href, k')
      ensures k' == k
    {
    }
  }

  /** The state the bar keeps. The open dropdown is named by its parent's
      caption; `clickScrolling` is the ref that silences the observer and
      `scrollTimerArmed` the pending timeout that clears it. */
  datatype Nav = Nav(
    activeLink: string,
    openDropdown: Option<string>,
    clickScrolling: bool,
    scrollTimerArmed: bool,
    isScrollable: bool)

  /** The first link's href, or "#" when there is no link or its href is empty. */
  function InitialActiveLink(links: seq<NavLink>): (r: string)
    ensures r != ""
    ensures |links| > 0 && links[0].href != "" ==> r == links[0].href
    ensures (|links| == 0 || links[0].href == "") ==> r == "#"
  {
    if |links| > 0 && links[0].href != "" then links[0].href else "#"
  }

  function Init(links: seq<NavLink>): (n: Nav)
    ensures n.activeLink == InitialActiveLink(links)
    ensures n.openDropdown.None? && !n.clickScrolling && !n.scrollTimerArmed && !n.isScrollable
  {
    Nav(InitialActiveLink(links), None, false, false, false)
  }

  /** A pill is lit when it is the active link or the parent of the active link. */
  predicate IsHighlighted(links: seq<NavLink>, n: Nav, link: NavLink) {
    n.activeLink == link.href || ActiveParent(Flatten(links), n.activeLink) == Some(link.caption)
  }

  /** Every href of the flattened list occurs once. */
  predicate DistinctHrefs(flat: seq<FlatLink>) {
    forall a, b :: 0 <= a < b < |flat| ==> flat[a].href != flat[b].href
  }

  /** When targets are unique, scrolling to a child lights its parent's pill. */
  lemma ChildLightsParent(links: seq<NavLink>, n: Nav, i: int, j: int)
    requires DistinctHrefs(Flatten(links))
    requires 0 <= i < |links| && links[i].children.Some? && links[i].caption != ""
    requires 0 <= j < |links[i].children.value| && n.activeLink == links[i].children.value[j].href
    ensures IsHighlighted(links, n, links[i])
    ensures ActiveParent(Flatten(links), n.activeLink) == Some(links[i].caption)
  {
    var flat := Flatten(links);
    var e := FlatLink(n.activeLink, Some(links[i].caption));
    assert ProvidedBy(links[i], e);
    FlattenMembership(links, e);
    var k :| 0 <= k < |flat| && flat[k] == e;
    assert IsFirstHref(flat, n.activeLink, k) by {
      forall j' | 0 <= j' < k
        ensures flat[j'].href != n.activeLink
      {
      }
    }
    FirstHrefIsUnique(flat, n.activeLink, k);
  }

  lemma SiteHrefsDistinct()
    ensures DistinctHrefs(Flatten(NavLinks))
  {
    SiteFlatLinks();
    TargetsDistinct();
  }

  lemma TargetsDistinct()
    ensures DistinctHrefs(SiteTargets)
  {
  }

  /** On the site, reaching the developers' section lights the Talent pill. */
  lemma DevelopersLightTalent(n: Nav)
    requires n.activeLink == "#developers"
    ensures IsHighlighted(NavLinks, n, NavLinks[2])
    ensures !IsHighlighted(NavLinks, n, NavLinks[0])
  {
    SiteHrefsDistinct();
    TalentMatchesMembers();
    ChildLightsParent(NavLinks, n, 2, 1);
  }

  // ---------------------------------------------------------------------------
  // Events
  // ---------------------------------------------------------------------------

  /** An IntersectionObserver report about one observed section. */
  datatype Entry = Entry(targetId: string, isIntersecting: bool)

  /** The observer callback: ignored while a click is scrolling; otherwise the
      first intersecting section, if any, becomes the active link. */
  function Observe(n: Nav, entries: seq<Entry>): (r: Nav)
    ensures n.clickScrolling ==> r == n
    ensures r.(activeLink := n.activeLink) == n
    ensures (forall k :: 0 <= k < |entries| ==> !entries[k].isIntersecting) ==> r == n
    ensures !n.clickScrolling && (exists k :: 0 <= k < |entries| && entries[k].isIntersecting) ==>
      exists k :: 0 <= k < |entries| && entries[k].isIntersecting
        && (forall j :: 0 <= j < k ==> !entries[j].isIntersecting)
        && r.activeLink == "#" + entries[k].targetId
    decreases |entries|
  {
    if n.clickScrolling || |entries| == 0 then n
    else if entries[0].isIntersecting then n.(activeLink := "#" + entries[0].targetId)
    else
      var r := Observe(n, entries[1..]);
      assert forall k :: 1 <= k < |entries| ==> entries[k] == entries[1..][k - 1];
      r
  }

  /** `handleLinkClick`: nothing when the target section does not exist;
      otherwise the target becomes active, the dropdown closes, the observer is
      silenced and a fresh one-second timer is armed to release it. */
  function LinkClick(n: Nav, href: string, targetExists: bool): (r: Nav)
    ensures !targetExists ==> r == n
    ensures targetExists ==> r.activeLink == href && r.openDropdown.None?
    ensures targetExists ==> r.clickScrolling && r.scrollTimerArmed
    ensures r.isScrollable == n.isScrollable
  {
    if !targetExists then n
    else n.(clickScrolling := true, activeLink := href, openDropdown := None, scrollTimerArmed := true)
  }

  const ScrollReleaseMs := 1000

  /** The timeout set by a link click fires and lets the observer work again. */
  function ScrollTimerFires(n: Nav): (r: Nav)
    ensures n.scrollTimerArmed ==> !r.clickScrolling && !r.scrollTimerArmed
    ensures r.activeLink == n.activeLink && r.openDropdown == n.openDropdown
    ensures r.(clickScrolling := n.clickScrolling, scrollTimerArmed := n.scrollTimerArmed) == n
    ensures !n.scrollTimerArmed ==> r == n
  {
    if n.scrollTimerArmed then n.(clickScrolling := false, scrollTimerArmed := false) else n
  }

  /** Observer reports in order. */
  function ObserveAll(n: Nav, batches: seq<seq<Entry>>): Nav
    decreases |batches|
  {
    if |batches| == 0 then n else ObserveAll(Observe(n, batches[0]), batches[1..])
  }

  /** Until the scroll timer fires, no observer report moves the highlight away
      from a clicked link. */
  lemma {:induction false} ClickPinsActiveLink(n: Nav, href: string, batches: seq<seq<Entry>>)
    ensures ObserveAll(LinkClick(n, href, true), batches) == LinkClick(n, href, true)
    decreases |batches|
  {
    if |batches| > 0 {
      ClickPinsActiveLink(n, href, batches[1..]);
    }
  }

  /** `handleParentLinkClick`: toggles the dropdown named by the caption. */
  function ParentClick(n: Nav, caption: string): (r: Nav)
    ensures r.openDropdown.None? <==> n.openDropdown == Some(caption)
    ensures r.openDropdown.Some? ==> r.openDropdown.value == caption
    ensures r.(openDropdown := n.openDropdown) == n
  {
    n.(openDropdown := if n.openDropdown == Some(caption) then None else Some(caption))
  }

  /** Two clicks on the parent restore the dropdown, unless another dropdown
      was open, which the first click replaced. */
  lemma ParentClickTwice(n: Nav, caption: string)
    ensures n.openDropdown.None? || n.openDropdown == Some(caption) ==>
      ParentClick(ParentClick(n, caption), caption) == n
    ensures n.openDropdown.Some? && n.openDropdown != Some(caption) ==>
      ParentClick(ParentClick(n, caption), caption).openDropdown.None?
  {
  }

  /** A mouse press outside the bar closes the dropdown; one inside does nothing. */
  function MouseDown(n: Nav, insideWrapper: bool): (r: Nav)
    ensures insideWrapper ==> r == n
    ensures !insideWrapper ==> r.openDropdown.None? && r.(openDropdown := n.openDropdown) == n
  {
    if insideWrapper then n else n.(openDropdown := None)
  }

  /** The overflow check: the fade overlays show only when the list overflows
      its box by more than two pixels. */
  function CheckScrollable(n: Nav, scrollWidth: int, clientWidth: int): (r: Nav)
    ensures r.(isScrollable := n.isScrollable) == n
    ensures r.isScrollable ==> scrollWidth >= clientWidth + 3
    ensures scrollWidth <= clientWidth + 2 ==> !r.isScrollable
  {
    n.(isScrollable := scrollWidth > clientWidth + 2)
  }

  /** The dropdown's entries: the children of the first link that has a child
      list, or nothing. */
  function DropdownLinks(links: seq<NavLink>): (r: seq<NavLink>)
    ensures (forall i :: 0 <= i < |links| ==> links[i].children.None?) ==> r == []
    ensures (exists i :: 0 <= i < |links| && links[i].children.Some?) ==>
      exists i :: 0 <= i < |links| && links[i].children == Some(r)
        && forall j :: 0 <= j < i ==> links[j].children.None?
    decreases |links|
  {
    if |links| == 0 then []
    else if links[0].children.Some? then links[0].children.value
    else
      var r := DropdownLinks(links[1..]);
      assert forall i :: 1 <= i < |links| ==> links[i] == links[1..][i - 1];
      r
  }

  lemma SiteDropdown()
    ensures DropdownLinks(NavLinks) == NavLinks[2].children.value
    ensures |DropdownLinks(NavLinks)| == |MembersData|
  {
    TalentMatchesMembers();
    assert DropdownLinks(NavLinks) == DropdownLinks(NavLinks[2..]);
  }
}
