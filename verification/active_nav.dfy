/**
 * The scroll listener that marks the navigation link of the section under
 * the reading position.
 *
 * Sections are visited in document order. Each section whose vertical extent
 * contains `scrollY + 150` clears the `active` class from every link and puts
 * it back on the links whose `href` is `#` followed by the section's id. A
 * section that does not contain the position changes nothing.
 */
module ActiveNav {
  import opened Optional

  /** Distance, in pixels, below the top of the viewport at which the current section is read. */
  const ProbeOffset := 150

  /** A `.section` or `.hero` element: its `id` attribute, `offsetTop` and `offsetHeight`. */
  datatype Section = Section(id: Option<string>, top: int, height: int)

  /** A `.nav__link` element: its `href` attribute and whether it carries the `active` class. */
  datatype NavLink = NavLink(href: Option<string>, active: bool)

  function Probe(scrollY: int): int
  {
    scrollY + ProbeOffset
  }

  /** The half-open test `top <= pos < top + height`. */
  predicate Contains(s: Section, pos: int)
  {
    s.top <= pos < s.top + s.height
  }

  /** The `href` a link needs to be marked for `s`; a section without an id yields `#null`. */
  function Anchor(s: Section): string
  {
    "#" + match s.id
          case Some(x) => x
          case None => "null"
  }

  /** Section `k` contains `pos` and no later section does. */
  predicate IsLastMatch(sections: seq<Section>, pos: int, k: int)
  {
    0 <= k < |sections| && Contains(sections[k], pos) &&
    forall j :: k < j < |sections| ==> !Contains(sections[j], pos)
  }

  predicate NoMatch(sections: seq<Section>, pos: int)
  {
    forall j :: 0 <= j < |sections| ==> !Contains(sections[j], pos)
  }

  /** Links keep their `href`s, in the same order. */
  predicate SameHrefs(a: seq<NavLink>, b: seq<NavLink>)
  {
    |a| == |b| && forall i :: 0 <= i < |a| ==> a[i].href == b[i].href
  }

  /** The inner loop: every link loses `active`, then regains it when its `href` is `anchor`. */
  function MarkLinks(links: seq<NavLink>, anchor: string): (r: seq<NavLink>)
    ensures SameHrefs(r, links)
    ensures forall i :: 0 <= i < |r| ==> (r[i].active <==> links[i].href == Some(anchor))
  {
    if |links| == 0 then []
    else [NavLink(links[0].href, links[0].href == Some(anchor))] + MarkLinks(links[1..], anchor)
  }

  /** The outer loop over the sections, in document order. */
  function Sweep(links: seq<NavLink>, sections: seq<Section>, pos: int): seq<NavLink>
    decreases |sections|
  {
    if |sections| == 0 then links
    else
      var marked := if Contains(sections[0], pos) then MarkLinks(links, Anchor(sections[0])) else links;
      Sweep(marked, sections[1..], pos)
  }

  lemma {:induction false} SweepSpec(links: seq<NavLink>, sections: seq<Section>, pos: int)
    ensures SameHrefs(Sweep(links, sections, pos), links)
    ensures NoMatch(sections, pos) ==> Sweep(links, sections, pos) == links
    ensures forall k :: IsLastMatch(sections, pos, k) ==>
              Sweep(links, sections, pos) == MarkLinks(links, Anchor(sections[k]))
    decreases |sections|
  {
    if |sections| > 0 {
      var marked := if Contains(sections[0], pos) then MarkLinks(links, Anchor(sections[0])) else links;
      var rest := sections[1..];
      SweepSpec(marked, rest, pos);
      forall k | IsLastMatch(sections, pos, k)
        ensures Sweep(links, sections, pos) == MarkLinks(links, Anchor(sections[k]))
      {
        if k == 0 {
          assert NoMatch(rest, pos) by {
            forall j | 0 <= j < |rest| ensures !Contains(rest[j], pos) {
              assert rest[j] == sections[j + 1];
            }
          }
        } else {
          assert IsLastMatch(rest, pos, k - 1);
          MarkLinksOnlyReadsHrefs(marked, links, Anchor(sections[k]));
        }
      }
      if NoMatch(sections, pos) {
        assert !Contains(sections[0], pos);
        assert NoMatch(rest, pos) by {
          forall j | 0 <= j < |rest| ensures !Contains(rest[j], pos) {
            assert rest[j] == sections[j + 1];
          }
        }
      }
    }
  }

  /** Marking depends only on the links' `href`s, not on which were active before. */
  lemma MarkLinksOnlyReadsHrefs(a: seq<NavLink>, b: seq<NavLink>, anchor: string)
    requires SameHrefs(a, b)
    ensures MarkLinks(a, anchor) == MarkLinks(b, anchor)
  {
    var ra, rb := MarkLinks(a, anchor), MarkLinks(b, anchor);
    forall i | 0 <= i < |ra| ensures ra[i] == rb[i] {
      assert ra[i].href == rb[i].href && ra[i].active == rb[i].active;
    }
  }

  /** The section under the reading position, if any: the last one, in document order, that contains it. */
  function CurrentSection(sections: seq<Section>, pos: int): (k: Option<nat>)
    ensures k.None? <==> NoMatch(sections, pos)
    ensures k.Some? ==> IsLastMatch(sections, pos, k.value)
  {
    if |sections| == 0 then None
    else if Contains(sections[|sections| - 1], pos) then Some(|sections| - 1)
    else
      var k := CurrentSection(sections[..|sections| - 1], pos);
      assert k.Some? ==> sections[..|sections| - 1][k.value] == sections[k.value];
      k
  }

  /**
   * `updateActiveNav`: with at least one section under the reading position,
   * exactly the links pointing at the last such section are active; with none,
   * no link changes.
   */
  function UpdateActiveNav(links: seq<NavLink>, sections: seq<Section>, scrollY: int): (r: seq<NavLink>)
    ensures SameHrefs(r, links)
    ensures NoMatch(sections, Probe(scrollY)) ==> r == links
    ensures forall k :: IsLastMatch(sections, Probe(scrollY), k) ==>
              forall i :: 0 <= i < |r| ==> (r[i].active <==> r[i].href == Some(Anchor(sections[k])))
  {
    SweepSpec(links, sections, Probe(scrollY));
    Sweep(links, sections, Probe(scrollY))
  }

  /** The update is the rendering of `CurrentSection`: compute the section, then mark its links. */
  lemma UpdateRendersCurrentSection(links: seq<NavLink>, sections: seq<Section>, scrollY: int)
    ensures UpdateActiveNav(links, sections, scrollY) ==
              match CurrentSection(sections, Probe(scrollY))
              case None => links
              case Some(k) => MarkLinks(links, Anchor(sections[k]))
  {
    SweepSpec(links, sections, Probe(scrollY));
  }

  /** Running the update twice at the same scroll offset is the same as running it once. */
  lemma UpdateIdempotent(links: seq<NavLink>, sections: seq<Section>, scrollY: int)
    ensures UpdateActiveNav(UpdateActiveNav(links, sections, scrollY), sections, scrollY)
         == UpdateActiveNav(links, sections, scrollY)
  {
    var once := UpdateActiveNav(links, sections, scrollY);
    var pos := Probe(scrollY);
    SweepSpec(links, sections, pos);
    SweepSpec(once, sections, pos);
    match CurrentSection(sections, pos)
    case None =>
    case Some(k) =>
      MarkLinksOnlyReadsHrefs(once, links, Anchor(sections[k]));
  }

  predicate AtMostOneActive(links: seq<NavLink>)
  {
    forall i, j :: 0 <= i < |links| && 0 <= j < |links| && links[i].active && links[j].active ==> i == j
  }

  predicate DistinctHrefs(links: seq<NavLink>)
  {
    forall i, j :: 0 <= i < |links| && 0 <= j < |links| && links[i].href == links[j].href ==> i == j
  }

  /**
   * With distinct `href`s, an update never leaves two links active, provided
   * no two were active before (the no-match case keeps the old marking).
   */
  lemma UpdateKeepsAtMostOneActive(links: seq<NavLink>, sections: seq<Section>, scrollY: int)
    requires DistinctHrefs(links)
    requires AtMostOneActive(links)
    ensures AtMostOneActive(UpdateActiveNav(links, sections, scrollY))
  {
    var r := UpdateActiveNav(links, sections, scrollY);
    var pos := Probe(scrollY);
    match CurrentSection(sections, pos)
    case None =>
    case Some(k) =>
      assert forall i :: 0 <= i < |r| ==> r[i].href == links[i].href;
  }
}
