/**
 * The navbar highlight (`initNavbarActive`). On every scroll the handler
 * folds over the `section`/`header` landmarks in document order, keeping the
 * id of the last one the page has scrolled to (its top minus a 200-unit
 * look-ahead), then marks each nav link active iff its href without the
 * leading character equals that id.
 */
module NavHighlight {
  import opened Optional

  /** How far ahead of a section's top it already counts as reached. */
  const LookAhead: int := 200

  /** A landmark: its `id` attribute (`None` when it has none, which
      `getAttribute` reports as null) and its `offsetTop`. */
  datatype Section = Section(id: Option<string>, top: int)

  /** `pageYOffset >= sectionTop - 200`. */
  predicate Reached(sec: Section, offset: real) {
    offset >= (sec.top - LookAhead) as real
  }

  /** The value of `current` after the fold: `''` to start with, then the id
      of each reached section in turn, so the last one wins. */
  function Current(sections: seq<Section>, offset: real): Option<string>
  {
    if |sections| == 0 then Some("")
    else if Reached(sections[|sections| - 1], offset) then sections[|sections| - 1].id
    else Current(sections[..|sections| - 1], offset)
  }

  /** Section `k` is reached and no later section is. */
  ghost predicate IsLastReached(sections: seq<Section>, offset: real, k: int) {
    0 <= k < |sections| && Reached(sections[k], offset)
    && forall j :: k < j < |sections| ==> !Reached(sections[j], offset)
  }

  /** The fold yields `''` when no section is reached, and otherwise the id
      (possibly null) of the last reached section in document order, so a
      later section without an id overrides an earlier one with an id. */
  lemma {:induction false} CurrentIsLastReached(sections: seq<Section>, offset: real)
    ensures (forall k :: 0 <= k < |sections| ==> !Reached(sections[k], offset)) ==>
      Current(sections, offset) == Some("")
    ensures forall k :: IsLastReached(sections, offset, k) ==> Current(sections, offset) == sections[k].id
  {
    if |sections| > 0 {
      var n := |sections| - 1;
      var init := sections[..n];
      CurrentIsLastReached(init, offset);
      assert forall k :: 0 <= k < n ==> init[k] == sections[k];
      forall k | IsLastReached(sections, offset, k)
        ensures Current(sections, offset) == sections[k].id
      {
        if k < n {
          assert IsLastReached(init, offset, k);
        }
      }
    }
  }

  /** The fold as the handler runs it: a loop reassigning `current`. */
  method CurrentSection(sections: seq<Section>, offset: real) returns (current: Option<string>)
    ensures current == Current(sections, offset)
  {
    current := Some("");
    var i := 0;
    while i < |sections|
      invariant 0 <= i <= |sections|
      invariant current == Current(sections[..i], offset)
    {
      if Reached(sections[i], offset) {
        current := sections[i].id;
      }
      assert sections[..i + 1][..i] == sections[..i];
      i := i + 1;
    }
    assert sections[..i] == sections;
  }

  /** `href.slice(1)`: the href without its first character (`''` stays `''`). */
  function DropFirst(href: string): string {
    if |href| == 0 then "" else href[1..]
  }

  /** A link with an href matches a non-null `current` equal to its fragment. */
  predicate Matches(href: string, current: Option<string>) {
    current == Some(DropFirst(href))
  }

  predicate AllHaveHref(hrefs: seq<Option<string>>) {
    forall k :: 0 <= k < |hrefs| ==> hrefs[k].Some?
  }

  /** The active flags after the marking loop, from the flags before it. Each
      link is first made inactive and then, if its fragment matches, active. A
      link with no href attribute makes `.slice` throw: that link has already
      been made inactive and the links after it keep their old flags. */
  function Marked(hrefs: seq<Option<string>>, flags: seq<bool>, current: Option<string>): (r: seq<bool>)
    requires |flags| == |hrefs|
    ensures |r| == |hrefs|
  {
    if |hrefs| == 0 then []
    else match hrefs[0]
      case None => [false] + flags[1..]
      case Some(h) => [Matches(h, current)] + Marked(hrefs[1..], flags[1..], current)
  }

  /** Where each flag comes from: a link with every earlier link carrying an
      href is active iff it has an href matching `current`; a link after one
      without href keeps its old flag. */
  lemma {:induction false} MarkedAt(hrefs: seq<Option<string>>, flags: seq<bool>, current: Option<string>, k: int)
    requires |flags| == |hrefs| && 0 <= k < |hrefs|
    ensures (forall j :: 0 <= j < k ==> hrefs[j].Some?) ==>
      Marked(hrefs, flags, current)[k] == (hrefs[k].Some? && Matches(hrefs[k].value, current))
    ensures (exists j :: 0 <= j < k && hrefs[j].None?) ==> Marked(hrefs, flags, current)[k] == flags[k]
  {
    if k > 0 && hrefs[0].Some? {
      MarkedAt(hrefs[1..], flags[1..], current, k - 1);
      assert forall j :: 0 <= j < k - 1 ==> hrefs[1..][j] == hrefs[j + 1];
      if exists j :: 0 <= j < k && hrefs[j].None? {
        var j :| 0 <= j < k && hrefs[j].None?;
        assert hrefs[1..][j - 1].None?;
      }
    }
  }

  /** With every link carrying an href, the new flags depend only on `current`
      and not on the flags before the scroll. */
  lemma {:induction false} MarkedIgnoresOldFlags(hrefs: seq<Option<string>>, f: seq<bool>, g: seq<bool>, current: Option<string>)
    requires |f| == |hrefs| && |g| == |hrefs| && AllHaveHref(hrefs)
    ensures Marked(hrefs, f, current) == Marked(hrefs, g, current)
  {
    if |hrefs| > 0 {
      assert AllHaveHref(hrefs[1..]) by {
        forall k | 0 <= k < |hrefs| - 1 ensures hrefs[1..][k].Some? {
          assert hrefs[1..][k] == hrefs[k + 1];
        }
      }
      MarkedIgnoresOldFlags(hrefs[1..], f[1..], g[1..], current);
    }
  }

  /** Marking twice for the same `current` gives what marking once gave. */
  lemma {:induction false} MarkedIdempotent(hrefs: seq<Option<string>>, flags: seq<bool>, current: Option<string>)
    requires |flags| == |hrefs|
    ensures Marked(hrefs, Marked(hrefs, flags, current), current) == Marked(hrefs, flags, current)
  {
    if |hrefs| > 0 && hrefs[0].Some? {
      MarkedIdempotent(hrefs[1..], flags[1..], current);
    }
  }

  /** When every nav link has an href and `current` is null (the last reached
      section has no id), no link is active. A link without an href would stop
      the loop and leave the later links' old flags in place. */
  lemma NullCurrentMarksNone(hrefs: seq<Option<string>>, flags: seq<bool>)
    requires |flags| == |hrefs| && AllHaveHref(hrefs)
    ensures forall k :: 0 <= k < |hrefs| ==> !Marked(hrefs, flags, None)[k]
  {
    forall k | 0 <= k < |hrefs| ensures !Marked(hrefs, flags, None)[k] {
      MarkedAt(hrefs, flags, None, k);
    }
  }

  /** Links whose fragments are pairwise different are never active together. */
  lemma AtMostOneActive(hrefs: seq<Option<string>>, flags: seq<bool>, current: Option<string>, i: int, j: int)
    requires |flags| == |hrefs| && AllHaveHref(hrefs)
    requires forall a, b :: 0 <= a < b < |hrefs| ==> DropFirst(hrefs[a].value) != DropFirst(hrefs[b].value)
    requires 0 <= i < |hrefs| && 0 <= j < |hrefs|
    requires Marked(hrefs, flags, current)[i] && Marked(hrefs, flags, current)[j]
    ensures i == j
  {
    MarkedAt(hrefs, flags, current, i);
    MarkedAt(hrefs, flags, current, j);
  }

  /** Before any section is reached `current` stays `''`, which is also the
      fragment of a bare `#` link: such a link is then active, provided every
      link before it has an href (so the loop reaches it). */
  lemma BareHashActiveAtTop(sections: seq<Section>, offset: real, hrefs: seq<Option<string>>, flags: seq<bool>, k: int)
    requires forall j :: 0 <= j < |sections| ==> !Reached(sections[j], offset)
    requires |flags| == |hrefs| && 0 <= k < |hrefs| && hrefs[k] == Some("#")
    requires forall j :: 0 <= j < k ==> hrefs[j].Some?
    ensures Marked(hrefs, flags, Current(sections, offset))[k]
  {
    CurrentIsLastReached(sections, offset);
    assert Current(sections, offset) == Some("");
    assert DropFirst("#") == "";
    MarkedAt(hrefs, flags, Some(""), k);
  }

  /** Marking a prefix of links that all carry an href and then the rest is
      marking the whole list. */
  lemma {:induction false} MarkedAppend(h1: seq<Option<string>>, f1: seq<bool>, h2: seq<Option<string>>, f2: seq<bool>, current: Option<string>)
    requires |f1| == |h1| && |f2| == |h2| && AllHaveHref(h1)
    ensures Marked(h1 + h2, f1 + f2, current) == Marked(h1, f1, current) + Marked(h2, f2, current)
  {
    if |h1| == 0 {
      assert h1 + h2 == h2 && f1 + f2 == f2;
    } else {
      assert (h1 + h2)[0] == h1[0] && h1[0].Some?;
      assert (h1 + h2)[1..] == h1[1..] + h2;
      assert (f1 + f2)[1..] == f1[1..] + f2;
      assert AllHaveHref(h1[1..]) by {
        forall k | 0 <= k < |h1| - 1 ensures h1[1..][k].Some? {
          assert h1[1..][k] == h1[k + 1];
        }
      }
      MarkedAppend(h1[1..], f1[1..], h2, f2, current);
    }
  }

  /** One more iteration of the marking loop, at link `i` which has an href. */
  lemma MarkedStep(hrefs: seq<Option<string>>, before: seq<bool>, current: Option<string>, i: int)
    requires |before| == |hrefs| && 0 <= i < |hrefs| && hrefs[i].Some?
    requires forall j :: 0 <= j < i ==> hrefs[j].Some?
    ensures Marked(hrefs[..i + 1], before[..i + 1], current) + before[i + 1..]
      == (Marked(hrefs[..i], before[..i], current) + before[i..])[i := Matches(hrefs[i].value, current)]
  {
    MarkedAppend(hrefs[..i], before[..i], [hrefs[i]], [before[i]], current);
    assert hrefs[..i + 1] == hrefs[..i] + [hrefs[i]];
    assert before[..i + 1] == before[..i] + [before[i]];
  }

  /** The marking loop throwing at link `i`, which has no href. */
  lemma MarkedStop(hrefs: seq<Option<string>>, before: seq<bool>, current: Option<string>, i: int)
    requires |before| == |hrefs| && 0 <= i < |hrefs| && hrefs[i].None?
    requires forall j :: 0 <= j < i ==> hrefs[j].Some?
    ensures Marked(hrefs, before, current)
      == (Marked(hrefs[..i], before[..i], current) + before[i..])[i := false]
  {
    MarkedAppend(hrefs[..i], before[..i], hrefs[i..], before[i..], current);
    assert hrefs[..i] + hrefs[i..] == hrefs;
    assert before[..i] + before[i..] == before;
  }

  /** The navbar: the link hrefs found at load time (fixed) and each link's
      `active` class. */
  class NavBar {
    const hrefs: seq<Option<string>>
    var active: seq<bool>

    ghost predicate Valid()
      reads this
    {
      |active| == |hrefs|
    }

    constructor (hrefs: seq<Option<string>>, active: seq<bool>)
      requires |active| == |hrefs|
      ensures Valid()
      ensures this.hrefs == hrefs && this.active == active
    {
      this.hrefs, this.active := hrefs, active;
    }

    /** The scroll handler. `landmarks` are the `section`/`header` elements
        found at load time, each with the `id` and `offsetTop` read during this
        event, so a layout change between scrolls is seen. `completed` is false
        when a link without an href made the marking loop throw part-way. */
    method OnScroll(landmarks: seq<Section>, offset: real) returns (completed: bool)
      requires Valid()
      modifies this
      ensures Valid()
      ensures active == Marked(hrefs, old(active), Current(landmarks, offset))
      ensures completed <==> AllHaveHref(hrefs)
    {
      var current := CurrentSection(landmarks, offset);
      completed := MarkLinks(current);
    }

    /** The marking loop: remove `active` from each link, then add it back when
        the link's fragment equals `current`; the two steps leave the flag equal
        to the match, which is what one assignment writes. A link without an
        href has already lost `active` when `.slice` throws. */
    method MarkLinks(current: Option<string>) returns (completed: bool)
      requires Valid()
      modifies this
      ensures Valid()
      ensures active == Marked(hrefs, old(active), current)
      ensures completed <==> AllHaveHref(hrefs)
    {
      ghost var before := active;
      var i := 0;
      completed := true;
      while i < |hrefs|
        invariant 0 <= i <= |hrefs| && |active| == |hrefs|
        invariant forall j :: 0 <= j < i ==> hrefs[j].Some?
        invariant active == Marked(hrefs[..i], before[..i], current) + before[i..]
      {
        var href := hrefs[i];
        if href.None? {
          MarkedStop(hrefs, before, current, i);
          active := active[i := false];
          completed := false;
          break;
        }
        MarkedStep(hrefs, before, current, i);
        active := active[i := Matches(href.value, current)];
        i := i + 1;
      }
      if completed {
        assert hrefs[..i] == hrefs && before[..i] == before;
      }
    }
  }
}
