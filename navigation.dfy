/**
 * The header and navigation behaviour of the page: the scroll-driven
 * classes of the header and the back-to-top button, the highlighted
 * navigation link, and the scroll target of `scrollToSection`.
 */
module Navigation {
  import opened Wrappers

  /** The header height `scrollToSection` and `updateActiveNavLink` use when
      the page has no header element. */
  const DefaultHeaderHeight := 80
  /** The header gets the `scrolled` class beyond this scroll offset. */
  const ScrolledThreshold := 100
  /** The back-to-top button gets the `visible` class beyond this offset. */
  const BackToTopThreshold := 300
  /** The probe sits this far below the header. */
  const ProbeOffset := 50
  /** A section is scrolled to this far below the header. */
  const ScrollMargin := 20

  /** `header ? header.offsetHeight : 80`. */
  function HeaderHeight(header: Option<int>): int {
    match header
    case Some(h) => h
    case None => DefaultHeaderHeight
  }

  /** `window.pageYOffset || document.documentElement.scrollTop`: the
      document's offset is used only when the window's is 0. */
  function ScrollTop(pageYOffset: int, docScrollTop: int): int {
    if pageYOffset != 0 then pageYOffset else docScrollTop
  }

  // ---------------------------------------------------------------------
  // scrollToSection (app.js:415-429)
  // ---------------------------------------------------------------------

  /** Where `scrollToSection` scrolls the window for a section whose top is
      `sectionTop` (`None` when no element has the id): nowhere for a
      missing section; otherwise so that the section starts 20 pixels below
      the header, but never above the top of the document. */
  function ScrollTarget(sectionTop: Option<int>, header: Option<int>): (r: Option<int>)
    ensures r.None? <==> sectionTop.None?
    ensures r.Some? ==> r.value >= 0
    ensures r.Some? ==> r.value >= sectionTop.value - HeaderHeight(header) - ScrollMargin
    ensures r.Some? ==> r.value == 0 || r.value == sectionTop.value - HeaderHeight(header) - ScrollMargin
  {
    match sectionTop
    case None => None
    case Some(top) =>
      var targetPosition := top - HeaderHeight(header) - ScrollMargin;
      Some(if targetPosition > 0 then targetPosition else 0)
  }

  /** A section far enough down the page is scrolled to exactly: its top
      ends up 20 pixels below the header. */
  lemma ScrollTargetExact(top: int, header: Option<int>)
    requires top >= HeaderHeight(header) + ScrollMargin
    ensures ScrollTarget(Some(top), header) == Some(top - HeaderHeight(header) - ScrollMargin)
  {
  }

  /** A section lower on the page is never scrolled to a smaller offset. */
  lemma ScrollTargetMonotone(top1: int, top2: int, header: Option<int>)
    requires top1 <= top2
    ensures ScrollTarget(Some(top1), header).value <= ScrollTarget(Some(top2), header).value
  {
  }

  /** `targetId.replace('#', '')`: the first `#` of a link's `href`
      removed, the rest kept. */
  function StripHash(href: string): (r: string)
    ensures '#' !in href ==> r == href
    ensures '#' in href ==> |r| == |href| - 1
  {
    if href == [] then []
    else if href[0] == '#' then href[1..]
    else [href[0]] + StripHash(href[1..])
  }

  /** A navigation link `#id` leads to the section `id`. */
  lemma StripHashFragment(id: string)
    ensures StripHash("#" + id) == id
  {
  }

  /** Only the first `#` is removed: what comes before it is kept, and
      what comes after it is kept whole, further `#`s included. */
  lemma {:induction false} StripHashFirst(a: string, b: string)
    requires '#' !in a
    ensures StripHash(a + "#" + b) == a + b
  {
    if a != [] {
      assert (a + "#" + b)[0] == a[0];
      assert (a + "#" + b)[1..] == a[1..] + "#" + b;
      StripHashFirst(a[1..], b);
      assert a == [a[0]] + a[1..];
    } else {
      assert a + "#" + b == "#" + b;
    }
  }

  // ---------------------------------------------------------------------
  // updateActiveNavLink (app.js:94-110)
  // ---------------------------------------------------------------------

  /** A `section[id]` element: its id, `offsetTop`, `offsetHeight`, and
      whether an anchor `href="#id"` exists. */
  datatype Section = Section(id: string, top: int, height: nat, linked: bool)

  /** The probe position lies within the section's box. */
  predicate Covers(s: Section, pos: int) {
    s.top <= pos < s.top + s.height
  }

  /** The scroll position `updateActiveNavLink` probes: 50 pixels below the
      bottom edge of the header. */
  function ProbePosition(pageYOffset: int, header: Option<int>): int {
    pageYOffset + HeaderHeight(header) + ProbeOffset
  }

  /** The index of the last section, in document order, that covers `pos`. */
  function LastCovering(sections: seq<Section>, pos: int): (r: Option<nat>)
    ensures r.Some? ==> r.value < |sections| && Covers(sections[r.value], pos)
    ensures r.Some? ==> forall j :: r.value < j < |sections| ==> !Covers(sections[j], pos)
    ensures r.None? ==> forall j :: 0 <= j < |sections| ==> !Covers(sections[j], pos)
  {
    if sections == [] then None
    else if Covers(sections[|sections| - 1], pos) then Some(|sections| - 1)
    else LastCovering(sections[..|sections| - 1], pos)
  }

  /** The link that is highlighted after a pass with probe `pos`, when `before`
      was: every covering section clears all highlights and marks its
      own link, so the last covering section decides; without one nothing
      changes. */
  function ActiveAfter(sections: seq<Section>, pos: int, before: Option<string>): Option<string> {
    match LastCovering(sections, pos)
    case None => before
    case Some(k) => if sections[k].linked then Some(sections[k].id) else None
  }

  /** Sections that follow each other down the page without overlapping. */
  ghost predicate Stacked(sections: seq<Section>) {
    forall k :: 0 <= k < |sections| - 1 ==> sections[k].top + sections[k].height <= sections[k + 1].top
  }

  /** On a page of stacked sections at most one section covers the probe,
      so the highlighted link is the one of THE section under the probe. */
  lemma StackedCoverUnique(sections: seq<Section>, pos: int, i: nat, j: nat)
    requires Stacked(sections)
    requires i < j < |sections|
    requires Covers(sections[i], pos)
    ensures !Covers(sections[j], pos)
  {
    StackedTops(sections, i, j);
  }

  /** On stacked sections, later sections start no higher than where an
      earlier one ends. */
  lemma {:induction false} StackedTops(sections: seq<Section>, i: nat, j: nat)
    requires Stacked(sections)
    requires i < j < |sections|
    ensures sections[j].top >= sections[i].top + sections[i].height
    decreases j - i
  {
    if i + 1 < j {
      StackedTops(sections, i + 1, j);
    }
  }

  /** The header's scroll-driven state. */
  class Header {
    /** The `section[id]` elements, in document order. */
    const sections: seq<Section>
    /** `header.offsetHeight`, or `None` when there is no header element. */
    const height: Option<int>
    /** The header carries `scrolled`. */
    var scrolled: bool
    /** The back-to-top button carries `visible`. */
    var backToTopVisible: bool
    /** The id of the section whose link carries `active`. */
    var active: Option<string>

    constructor (sections: seq<Section>, height: Option<int>)
      ensures this.sections == sections && this.height == height
      ensures !scrolled && !backToTopVisible && active == None
    {
      this.sections := sections;
      this.height := height;
      scrolled := false;
      backToTopVisible := false;
      active := None;
    }

    /** `updateActiveNavLink()`: visit the sections in document order; each
        one that covers the probe clears every highlight and highlights its
        own link. */
    method UpdateActiveNavLink(pageYOffset: int)
      modifies this
      ensures active == ActiveAfter(sections, ProbePosition(pageYOffset, height), old(active))
      ensures scrolled == old(scrolled) && backToTopVisible == old(backToTopVisible)
    {
      var scrollPos := ProbePosition(pageYOffset, height);
      var i := 0;
      ghost var last: Option<nat> := None;
      while i < |sections|
        invariant 0 <= i <= |sections|
        invariant last == LastCovering(sections[..i], scrollPos)
        invariant active == match last
          case None => old(active)
          case Some(k) => if sections[k].linked then Some(sections[k].id) else None
        invariant scrolled == old(scrolled) && backToTopVisible == old(backToTopVisible)
      {
        var section := sections[i];
        if scrollPos >= section.top && scrollPos < section.top + section.height {
          active := None;
          if section.linked {
            active := Some(section.id);
          }
          last := Some(i);
        }
        assert sections[..i + 1][..i] == sections[..i];
        i := i + 1;
      }
      assert sections[..i] == sections;
    }

    /** The window's `scroll` handler (app.js:53-71). It styles the header
        element unguarded, so it only runs to completion on a page that has
        one. Whenever the back-to-top button shows, the header is in its
        scrolled state too. */
    method OnScroll(pageYOffset: int, docScrollTop: int)
      requires height.Some?
      modifies this
      ensures scrolled <==> ScrollTop(pageYOffset, docScrollTop) > ScrolledThreshold
      ensures backToTopVisible <==> ScrollTop(pageYOffset, docScrollTop) > BackToTopThreshold
      ensures backToTopVisible ==> scrolled
      ensures active == ActiveAfter(sections, ProbePosition(pageYOffset, height), old(active))
    {
      var scrollTop := ScrollTop(pageYOffset, docScrollTop);
      scrolled := scrollTop > ScrolledThreshold;
      backToTopVisible := scrollTop > BackToTopThreshold;
      UpdateActiveNavLink(pageYOffset);
    }
  }

}
