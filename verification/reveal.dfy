/**
 * Entrance animations (`initScrollAnimations`). An intersection observer
 * watches the cards; its callback walks the delivered entries in order and,
 * for each intersecting one, sets the fade-in animation on the target and
 * stops observing it. How the browser decides that an element intersects is
 * not modelled: the entries arrive as input.
 */
module Reveal {

  /** An element of the page, by identity. */
  type ElementId = nat

  /** One `IntersectionObserverEntry`: its target and `isIntersecting`. */
  datatype Entry = Entry(target: ElementId, isIntersecting: bool)

  /** The targets a batch of entries animates: those of its intersecting entries. */
  function Revealed(entries: seq<Entry>): set<ElementId>
  {
    if |entries| == 0 then {}
    else (if entries[0].isIntersecting then {entries[0].target} else {}) + Revealed(entries[1..])
  }

  /** An element is revealed by a batch iff some entry for it intersects. */
  lemma {:induction false} RevealedIff(entries: seq<Entry>, e: ElementId)
    ensures e in Revealed(entries) <==>
      exists k :: 0 <= k < |entries| && entries[k].target == e && entries[k].isIntersecting
  {
    if |entries| > 0 {
      RevealedIff(entries[1..], e);
      if exists k :: 0 <= k < |entries| - 1 && entries[1..][k].target == e && entries[1..][k].isIntersecting {
        var k :| 0 <= k < |entries| - 1 && entries[1..][k].target == e && entries[1..][k].isIntersecting;
        assert entries[k + 1] == entries[1..][k];
      }
      if exists k :: 0 <= k < |entries| && entries[k].target == e && entries[k].isIntersecting {
        var k :| 0 <= k < |entries| && entries[k].target == e && entries[k].isIntersecting;
        if k > 0 {
          assert entries[1..][k - 1] == entries[k];
        }
      }
    }
  }

  /** Two batches in a row reveal what their concatenation reveals. */
  lemma {:induction false} RevealedAppend(a: seq<Entry>, b: seq<Entry>)
    ensures Revealed(a + b) == Revealed(a) + Revealed(b)
  {
    if |a| == 0 {
      assert a + b == b;
    } else {
      assert (a + b)[0] == a[0];
      assert (a + b)[1..] == a[1..] + b;
      RevealedAppend(a[1..], b);
    }
  }

  /** A batch with no intersecting entry reveals nothing. */
  lemma NothingIntersectingRevealsNothing(entries: seq<Entry>)
    requires forall k :: 0 <= k < |entries| ==> !entries[k].isIntersecting
    ensures Revealed(entries) == {}
  {
    forall e ensures e !in Revealed(entries) {
      RevealedIff(entries, e);
    }
  }

  /** The observer: the elements still observed, and the elements whose inline
      animation has been set. */
  class RevealObserver {
    var observed: set<ElementId>
    var animated: set<ElementId>

    /** Nothing is both animated and still observed, so the browser has no
        further entry to deliver for an animated card. */
    ghost predicate Valid()
      reads this
    {
      observed !! animated
    }

    /** `observer.observe(element)` for every card found at load time. */
    constructor (cards: set<ElementId>)
      ensures Valid() && observed == cards && animated == {}
    {
      observed, animated := cards, {};
    }

    /** The observer callback. */
    method OnEntries(entries: seq<Entry>)
      requires Valid()
      modifies this
      ensures Valid()
      ensures animated == old(animated) + Revealed(entries)
      ensures observed == old(observed) - Revealed(entries)
      ensures (forall k :: 0 <= k < |entries| ==> entries[k].target in old(observed)) ==>
        Revealed(entries) !! old(animated)
    {
      if forall k :: 0 <= k < |entries| ==> entries[k].target in observed {
        NoReanimation(observed, animated, entries);
      }
      var i := 0;
      while i < |entries|
        invariant 0 <= i <= |entries|
        invariant animated == old(animated) + Revealed(entries[..i])
        invariant observed == old(observed) - Revealed(entries[..i])
      {
        if entries[i].isIntersecting {
          animated := animated + {entries[i].target};
          observed := observed - {entries[i].target};
        }
        RevealedAppend(entries[..i], [entries[i]]);
        assert entries[..i + 1] == entries[..i] + [entries[i]];
        i := i + 1;
      }
      assert entries[..i] == entries;
    }
  }

  /** A batch whose entries are all for observed elements (the only ones an
      observer reports) reveals no element that is already animated, as long
      as nothing is both observed and animated. */
  lemma NoReanimation(observed: set<ElementId>, animated: set<ElementId>, entries: seq<Entry>)
    requires observed !! animated
    requires forall k :: 0 <= k < |entries| ==> entries[k].target in observed
    ensures Revealed(entries) !! animated
  {
    forall e | e in Revealed(entries) ensures e !in animated {
      RevealedIff(entries, e);
    }
  }

  /** Each card is animated at most once: after a first batch its revealed
      elements are animated and no longer observed (`between` is the observed
      set the next callback starts from), so a later batch of entries for
      observed elements reveals none of them again. */
  method RevealOnce(obs: RevealObserver, first: seq<Entry>, later: seq<Entry>) returns (between: set<ElementId>)
    requires obs.Valid()
    modifies obs
    ensures obs.Valid()
    ensures between == old(obs.observed) - Revealed(first)
    ensures forall e :: e in Revealed(first) ==> e in obs.animated && e !in between
    ensures (forall k :: 0 <= k < |later| ==> later[k].target in between) ==>
      Revealed(later) !! Revealed(first)
  {
    obs.OnEntries(first);
    between := obs.observed;
    obs.OnEntries(later);
  }
}
