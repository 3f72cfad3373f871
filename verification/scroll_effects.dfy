/**
 * The three listeners registered for `scroll`, in registration order: the
 * header style, the active navigation link, and the back-to-top button.
 * Each reads only `scrollY` (and the section geometry), so the page state
 * they leave behind does not depend on what they found.
 */
module ScrollEffects {
  import ActiveNav

  /** Offset past which the header carries `header--scrolled`. */
  const HeaderThreshold := 50
  /** Offset past which the back-to-top button carries `visible`. */
  const BackToTopThreshold := 400

  /** The parts of the page the scroll listeners write. */
  datatype Page = Page(headerScrolled: bool, backToTopVisible: bool, links: seq<ActiveNav.NavLink>)

  /** `handleHeaderScroll`. */
  function HandleHeaderScroll(p: Page, scrollY: int): Page
  {
    p.(headerScrolled := scrollY > HeaderThreshold)
  }

  /** `handleBackToTop`. */
  function HandleBackToTop(p: Page, scrollY: int): Page
  {
    p.(backToTopVisible := scrollY > BackToTopThreshold)
  }

  /** One `scroll` event: the three listeners, in the order they were registered. */
  function OnScroll(p: Page, sections: seq<ActiveNav.Section>, scrollY: int): (q: Page)
    ensures q.headerScrolled <==> scrollY > 50
    ensures q.backToTopVisible <==> scrollY > 400
    ensures q.backToTopVisible ==> q.headerScrolled
    ensures q.links == ActiveNav.UpdateActiveNav(p.links, sections, scrollY)
    ensures ActiveNav.SameHrefs(q.links, p.links)
  {
    var h := HandleHeaderScroll(p, scrollY);
    var n := h.(links := ActiveNav.UpdateActiveNav(h.links, sections, scrollY));
    HandleBackToTop(n, scrollY)
  }

  /** On page load only the header listener runs; the other two wait for the first scroll. */
  function OnLoad(p: Page, scrollY: int): (q: Page)
    ensures q.headerScrolled <==> scrollY > 50
    ensures q.backToTopVisible == p.backToTopVisible && q.links == p.links
  {
    HandleHeaderScroll(p, scrollY)
  }

  /** A second scroll event at the same offset changes nothing. */
  lemma OnScrollIdempotent(p: Page, sections: seq<ActiveNav.Section>, scrollY: int)
    ensures OnScroll(OnScroll(p, sections, scrollY), sections, scrollY) == OnScroll(p, sections, scrollY)
  {
    ActiveNav.UpdateIdempotent(p.links, sections, scrollY);
  }

  /** The two flags are functions of the offset alone: the state before the event does not matter. */
  lemma FlagsForgetPriorState(p: Page, p': Page, sections: seq<ActiveNav.Section>, scrollY: int)
    ensures OnScroll(p, sections, scrollY).headerScrolled == OnScroll(p', sections, scrollY).headerScrolled
    ensures OnScroll(p, sections, scrollY).backToTopVisible == OnScroll(p', sections, scrollY).backToTopVisible
  {
  }

  /**
   * At the very top of the page the header is plain, the button hidden, and a
   * link is marked only if some section covers the reading position 150.
   */
  lemma AtTopOfPage(p: Page, sections: seq<ActiveNav.Section>)
    ensures !OnScroll(p, sections, 0).headerScrolled && !OnScroll(p, sections, 0).backToTopVisible
    ensures ActiveNav.NoMatch(sections, 150) ==> OnScroll(p, sections, 0).links == p.links
  {
  }
}
