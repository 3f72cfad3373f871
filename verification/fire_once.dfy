/**
 * The two fire-once IntersectionObservers: the counter observer and the
 * reveal observer.
 *
 * Each callback walks its batch of entries in order; an intersecting entry
 * runs the effect for its element (starting the count-up, or adding the
 * `visible` class) and unobserves that element. Which elements intersect, and
 * when, is the browser's business and arrives here as the batch.
 */
module FireOnce {

  /** An IntersectionObserverEntry: the element and whether it now intersects. */
  datatype Entry<E> = Entry(target: E, isIntersecting: bool)

  /**
   * An observer's state: the elements it still observes, and the elements whose
   * effect has run, in order (the counters started, or the elements made visible).
   */
  datatype Watcher<E> = Watcher(observed: set<E>, fired: seq<E>)

  /** `observe` called on every element of `targets`. */
  function Observe<E(==)>(targets: set<E>): (w: Watcher<E>)
    ensures w.observed == targets && w.fired == []
    ensures Valid(w) && Accounts(w, targets)
  {
    Watcher(targets, [])
  }

  /** The reveal setup: every element matching a reveal selector gets `fade-in`, then every `.fade-in` element is observed. */
  function ObserveReveal<E(==)>(selected: set<E>, alreadyFaded: set<E>): (w: Watcher<E>)
    ensures w.observed == selected + alreadyFaded && w.fired == []
    ensures Valid(w) && Accounts(w, selected + alreadyFaded)
  {
    Observe(selected + alreadyFaded)
  }

  /** The callback's body for one entry. */
  function Deliver<E(==)>(w: Watcher<E>, e: Entry<E>): Watcher<E>
  {
    if e.isIntersecting then Watcher(w.observed - {e.target}, w.fired + [e.target]) else w
  }

  /** The callback: `entries.forEach(...)`. */
  function Respond<E(==)>(w: Watcher<E>, entries: seq<Entry<E>>): Watcher<E>
    decreases |entries|
  {
    if |entries| == 0 then w else Respond(Deliver(w, entries[0]), entries[1..])
  }

  /** The intersecting entries' elements, in batch order. */
  function Hits<E(==)>(entries: seq<Entry<E>>): seq<E>
    decreases |entries|
  {
    if |entries| == 0 then []
    else (if entries[0].isIntersecting then [entries[0].target] else []) + Hits(entries[1..])
  }

  function Elems<E>(s: seq<E>): set<E>
  {
    set x | x in s
  }

  /** No element has fired twice, and no fired element is still observed. */
  predicate Valid<E(==)>(w: Watcher<E>)
  {
    (forall i, j :: 0 <= i < |w.fired| && 0 <= j < |w.fired| && w.fired[i] == w.fired[j] ==> i == j) &&
    (forall i :: 0 <= i < |w.fired| ==> w.fired[i] !in w.observed)
  }

  /** Every element first observed is either still observed or has fired. */
  predicate Accounts<E(==)>(w: Watcher<E>, targets: set<E>)
  {
    w.observed + Elems(w.fired) == targets
  }

  /** The browser reports only elements the observer watches when the batch is handed over. */
  predicate FromObserved<E(==)>(w: Watcher<E>, entries: seq<Entry<E>>)
  {
    forall i :: 0 <= i < |entries| ==> entries[i].target in w.observed
  }

  /** Every intersecting entry of the batch concerns an element still observed. */
  predicate HitsObserved<E>(w: Watcher<E>, entries: seq<Entry<E>>)
  {
    forall i :: 0 <= i < |entries| && entries[i].isIntersecting ==> entries[i].target in w.observed
  }

  /** No element has two intersecting entries in the same batch. */
  predicate SingleHit<E(==)>(entries: seq<Entry<E>>)
  {
    forall i, j ::
      (0 <= i < |entries| && 0 <= j < |entries| && entries[i].isIntersecting && entries[j].isIntersecting &&
       entries[i].target == entries[j].target) ==> i == j
  }

  /**
   * A batch fires exactly its intersecting entries, in order, after what had
   * fired before, and stops observing exactly their elements.
   */
  lemma {:induction false} RespondFiresHits<E>(w: Watcher<E>, entries: seq<Entry<E>>)
    ensures Respond(w, entries).fired == w.fired + Hits(entries)
    ensures Respond(w, entries).observed == w.observed - Elems(Hits(entries))
    decreases |entries|
  {
    if |entries| > 0 {
      var w' := Deliver(w, entries[0]);
      RespondFiresHits(w', entries[1..]);
      var h := Hits(entries);
      var h' := Hits(entries[1..]);
      if entries[0].isIntersecting {
        assert h == [entries[0].target] + h';
        assert Elems(h) == {entries[0].target} + Elems(h');
      } else {
        assert h == h';
      }
    }
  }

  /**
   * Fire-once: a batch of entries for observed elements, with at most one
   * intersecting entry per element, keeps every element fired at most once and
   * unobserved once fired, and accounts for every element originally observed.
   */
  lemma RespondKeepsFireOnce<E>(w: Watcher<E>, entries: seq<Entry<E>>, targets: set<E>)
    requires Valid(w) && Accounts(w, targets)
    requires FromObserved(w, entries) && SingleHit(entries)
    ensures Valid(Respond(w, entries)) && Accounts(Respond(w, entries), targets)
  {
    HitsKeepFireOnce(w, entries, targets);
  }

  lemma {:induction false} HitsKeepFireOnce<E>(w: Watcher<E>, entries: seq<Entry<E>>, targets: set<E>)
    requires Valid(w) && Accounts(w, targets)
    requires HitsObserved(w, entries) && SingleHit(entries)
    ensures Valid(Respond(w, entries)) && Accounts(Respond(w, entries), targets)
    decreases |entries|
  {
    if |entries| > 0 {
      var e := entries[0];
      var w' := Deliver(w, e);
      var rest := entries[1..];
      if e.isIntersecting {
        assert Elems(w'.fired) == Elems(w.fired) + {e.target};
        forall i | 0 <= i < |rest| && rest[i].isIntersecting ensures rest[i].target in w'.observed {
          assert rest[i] == entries[i + 1];
        }
      }
      assert SingleHit(rest) by {
        forall i, j | 0 <= i < |rest| && 0 <= j < |rest| && rest[i].isIntersecting && rest[j].isIntersecting &&
            rest[i].target == rest[j].target
          ensures i == j
        {
          assert rest[i] == entries[i + 1] && rest[j] == entries[j + 1];
        }
      }
      HitsKeepFireOnce(w', rest, targets);
    }
  }

  /** Once an element has fired (a reveal element made `visible`), later batches never undo it. */
  lemma FiredStaysFired<E>(w: Watcher<E>, entries: seq<Entry<E>>)
    ensures Elems(w.fired) <= Elems(Respond(w, entries).fired)
  {
    RespondFiresHits(w, entries);
  }

  /**
   * An element that has fired is never handed to the callback again, so its
   * effect is never re-evaluated. This rests on the browser's promise
   * `FromObserved` (entries only for observed elements) together with `Valid`
   * (a fired element is no longer observed); the callback itself does not check.
   */
  lemma FiredNeverRedelivered<E>(w: Watcher<E>, entries: seq<Entry<E>>, x: E)
    requires Valid(w) && FromObserved(w, entries)
    requires x in w.fired
    ensures forall i :: 0 <= i < |entries| ==> entries[i].target != x
  {
  }

  /**
   * The callback itself does not check whether an element is still observed:
   * a batch holding two intersecting entries for the same element (entered,
   * left and entered again before the callback is called) fires it twice.
   */
  lemma RepeatedHitFiresTwice<E>(x: E)
    ensures Respond(Observe({x}), [Entry(x, true), Entry(x, false), Entry(x, true)]).fired == [x, x]
  {
    var batch := [Entry(x, true), Entry(x, false), Entry(x, true)];
    RespondFiresHits(Observe({x}), batch);
    assert batch[1..] == [Entry(x, false), Entry(x, true)];
    assert batch[1..][1..] == [Entry(x, true)];
    assert Hits([Entry(x, true)]) == [x] + Hits([]);
    assert Hits([Entry(x, false), Entry(x, true)]) == [x];
    assert Hits(batch) == [x, x];
  }
}
