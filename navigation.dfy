/**
 * The navigation rules of js/main.js: when the fixed project bar is shown,
 * where a click on an in-page link scrolls to, and which nav links the
 * section observer marks active. Positions are whole pixels; the browser's
 * layout is reduced to the numbers the handlers read.
 */
module Navigation {
  import opened Common

  /** How far above the end of the hero section the project bar appears. */
  const NavRevealOffset: int := 100

  /** The scroll rule: the bar is shown once the hero is scrolled past, less 100 px. */
  function NavVisible(scrollTop: int, heroHeight: int): bool {
    scrollTop > heroHeight - NavRevealOffset
  }

  /** Once shown, the bar stays shown further down the page, and once hidden, further up. */
  lemma NavVisibleMonotone(scrollTop: int, further: int, heroHeight: int)
    requires scrollTop <= further
    ensures NavVisible(scrollTop, heroHeight) ==> NavVisible(further, heroHeight)
    ensures !NavVisible(further, heroHeight) ==> !NavVisible(scrollTop, heroHeight)
  {
  }

  /** The `#project-nav` bar, and the hero height read once when the page's content has loaded. */
  class NavBar {
    const heroHeight: int
    /** Whether the bar has the `visible` class. */
    var visible: bool

    /** The bar as the markup has it, with the hero's offsetHeight. */
    constructor (hero: int, initiallyVisible: bool)
      ensures heroHeight == hero && visible == initiallyVisible
    {
      heroHeight := hero;
      visible := initiallyVisible;
    }

    /** The scroll listener: adds `visible` past the threshold and removes it otherwise. */
    method OnScroll(scrollTop: int)
      modifies this`visible
      ensures visible == NavVisible(scrollTop, heroHeight)
    {
      if scrollTop > heroHeight - NavRevealOffset {
        visible := true;
      } else {
        visible := false;
      }
    }
  }

  /** What a click on a `.nav-link` or `.project-link` does. */
  datatype LinkClick =
    | FollowLink                       // not an in-page link: the browser navigates as usual
    | Intercepted(scrollTo: Option<int>) // default prevented; scrolls to the position, if the target exists

  predicate InPageHref(href: Option<string>) {
    href.Some? && |href.value| > 0 && href.value[0] == '#'
  }

  /**
   * The click handler. `sectionTops` gives, for each selector that matches an
   * element, that element's offsetTop; `navHeight` is the bar's offsetHeight.
   * The hero is scrolled to exactly; any other section is scrolled to so
   * that it starts just below the bar.
   */
  function OnLinkClick(href: Option<string>, sectionTops: map<string, int>, navHeight: int): (r: LinkClick)
    ensures r.Intercepted? <==> InPageHref(href)
    ensures r.Intercepted? ==> (r.scrollTo.Some? <==> href.value in sectionTops)
    ensures r.Intercepted? && r.scrollTo.Some? && href.value == "#hero" ==>
      r.scrollTo.value == sectionTops["#hero"]
    ensures r.Intercepted? && r.scrollTo.Some? && href.value != "#hero" ==>
      r.scrollTo.value + navHeight == sectionTops[href.value]
  {
    if href.Some? && href.value != "" && href.value[0] == '#' then
      var targetId := href.value;
      if targetId in sectionTops then
        var offset := if targetId == "#hero" then 0 else navHeight;
        Intercepted(Some(sectionTops[targetId] - offset))
      else
        Intercepted(None)
    else
      FollowLink
  }

  /** One IntersectionObserver entry: whether the section entered view, and the section's id. */
  datatype Entry = Entry(isIntersecting: bool, targetId: string)

  /** Entry `k` intersects and no entry after it does. */
  predicate LastIntersectingAt(entries: seq<Entry>, k: int) {
    0 <= k < |entries| && entries[k].isIntersecting &&
    forall m :: k < m < |entries| ==> !entries[m].isIntersecting
  }

  /**
   * The id of the last intersecting entry of a batch: each intersecting entry
   * rewrites every link, so only the last one's effect remains.
   */
  function LastIntersecting(entries: seq<Entry>): (id: Option<string>)
    ensures id.None? <==> forall k :: 0 <= k < |entries| ==> !entries[k].isIntersecting
    ensures id.Some? ==> exists k :: LastIntersectingAt(entries, k) && entries[k].targetId == id.value
  {
    if entries == [] then None
    else if entries[|entries| - 1].isIntersecting then
      assert LastIntersectingAt(entries, |entries| - 1);
      Some(entries[|entries| - 1].targetId)
    else
      var init := entries[..|entries| - 1];
      var id := LastIntersecting(init);
      assert forall k :: 0 <= k < |init| ==> init[k] == entries[k];
      assert forall k :: LastIntersectingAt(init, k) ==> LastIntersectingAt(entries, k);
      id
  }

  /** The link flags after a section with id `id` intersects: active exactly when the href is `#id`. */
  function LinkStates(hrefs: seq<Option<string>>, id: string): (flags: seq<bool>)
    ensures |flags| == |hrefs|
    ensures forall j :: 0 <= j < |hrefs| ==> (flags[j] <==> hrefs[j] == Some("#" + id))
  {
    seq(|hrefs|, j requires 0 <= j < |hrefs| => hrefs[j] == Some("#" + id))
  }

  predicate Distinct<T(==)>(xs: seq<T>) {
    forall i, j :: 0 <= i < j < |xs| ==> xs[i] != xs[j]
  }

  /**
   * When the nav links point at different sections, a visible section
   * leaves exactly one link active if one points at it, and none otherwise.
   */
  lemma {:induction false} LinkStatesCount(hrefs: seq<Option<string>>, id: string)
    requires Distinct(hrefs)
    ensures Count(LinkStates(hrefs, id)) == if Some("#" + id) in hrefs then 1 else 0
  {
    if hrefs != [] {
      var n := |hrefs|;
      var init := hrefs[..n - 1];
      assert LinkStates(hrefs, id)[..n - 1] == LinkStates(init, id);
      assert Distinct(init);
      LinkStatesCount(init, id);
      if hrefs[n - 1] == Some("#" + id) {
        assert Some("#" + id) !in init by {
          forall j | 0 <= j < n - 1 ensures init[j] != Some("#" + id) {
            assert hrefs[j] != hrefs[n - 1];
          }
        }
      } else {
        assert (Some("#" + id) in hrefs) == (Some("#" + id) in init) by {
          assert hrefs == init + [hrefs[n - 1]];
        }
      }
    }
  }

  /** The `.nav-link` elements and whether each has the `active` class. */
  class NavHighlighter {
    /** The href attribute of each nav link (None when it has none). */
    const hrefs: seq<Option<string>>
    const active: array<bool>

    ghost predicate Valid()
      reads this
    {
      active.Length == |hrefs|
    }

    /** The links as the page's markup has them. */
    constructor (links: seq<Option<string>>, initiallyActive: seq<bool>)
      requires |initiallyActive| == |links|
      ensures Valid() && hrefs == links && active[..] == initiallyActive && fresh(active)
    {
      hrefs := links;
      active := new bool[|links|](j requires 0 <= j < |links| => initiallyActive[j]);
    }

    /**
     * The observer callback: for each intersecting entry, clears every link
     * and activates those whose href names the entry's section. Entries that
     * do not intersect change nothing.
     */
    method OnIntersection(entries: seq<Entry>)
      requires Valid()
      modifies active
      ensures Valid()
      ensures LastIntersecting(entries).None? ==> active[..] == old(active[..])
      ensures LastIntersecting(entries).Some? ==>
        active[..] == LinkStates(hrefs, LastIntersecting(entries).value)
    {
      for e := 0 to |entries|
        invariant LastIntersecting(entries[..e]).None? ==> active[..] == old(active[..])
        invariant LastIntersecting(entries[..e]).Some? ==>
          active[..] == LinkStates(hrefs, LastIntersecting(entries[..e]).value)
      {
        assert entries[..e + 1][..e] == entries[..e];
        if entries[e].isIntersecting {
          var sectionId := entries[e].targetId;
          for i := 0 to active.Length
            invariant forall j :: 0 <= j < i ==> active[j] == (hrefs[j] == Some("#" + sectionId))
          {
            active[i] := false;
            if hrefs[i] == Some("#" + sectionId) {
              active[i] := true;
            }
          }
        }
      }
      assert entries[..|entries|] == entries;
    }
  }
}
