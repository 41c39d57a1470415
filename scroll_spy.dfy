/** The scroll-spy of initScrollSpy (js/main.js): on every scroll event the
    last `section`/`header` element whose top, less a third of its height,
    has been scrolled past gives the current id, and every `.nav-link` whose
    href contains that id is marked active. */
module ScrollSpy {
  import opened JsText

  /** A `section` or `header` element in document order: its id attribute
      (null when absent), offsetTop and clientHeight in whole pixels. */
  datatype Section = Section(id: Nullable<string>, top: int, height: nat)

  /** The section counts as reached at vertical scroll offset `scrollY`. */
  predicate Reached(s: Section, scrollY: real) {
    scrollY >= s.top as real - s.height as real / 3.0
  }

  /** The id the scan over `sections` leaves in `current`: the id of the last
      reached section, or the initial empty string when none is reached. */
  function Current(sections: seq<Section>, scrollY: real): Nullable<string> {
    if sections == [] then NonNull("")
    else if Reached(sections[|sections| - 1], scrollY) then sections[|sections| - 1].id
    else Current(sections[..|sections| - 1], scrollY)
  }

  /** The index of the last reached section, -1 when there is none. */
  function LastReached(sections: seq<Section>, scrollY: real): (k: int)
    ensures -1 <= k < |sections|
    ensures k >= 0 ==> Reached(sections[k], scrollY)
    ensures forall j :: k < j < |sections| ==> !Reached(sections[j], scrollY)
  {
    if sections == [] then -1
    else if Reached(sections[|sections| - 1], scrollY) then |sections| - 1
    else LastReached(sections[..|sections| - 1], scrollY)
  }

  /** The current id is the id of the last section reached, or "" if none is. */
  lemma {:induction false} CurrentIsLastReached(sections: seq<Section>, scrollY: real)
    ensures var k := LastReached(sections, scrollY);
            Current(sections, scrollY) == if k < 0 then NonNull("") else sections[k].id
  {
    if sections != [] && !Reached(sections[|sections| - 1], scrollY) {
      var prefix := sections[..|sections| - 1];
      CurrentIsLastReached(prefix, scrollY);
      var k := LastReached(prefix, scrollY);
      assert k >= 0 ==> prefix[k] == sections[k];
    }
  }

  /** Scrolling further down never moves the current section back up the
      document: the index of the last reached section does not decrease. */
  lemma {:induction false} LastReachedMonotone(sections: seq<Section>, y1: real, y2: real)
    requires y1 <= y2
    ensures LastReached(sections, y1) <= LastReached(sections, y2)
  {
    if sections != [] {
      var last := sections[|sections| - 1];
      if !Reached(last, y2) {
        assert !Reached(last, y1);
        LastReachedMonotone(sections[..|sections| - 1], y1, y2);
      }
    }
  }

  /** The scan over the sections: every reached section overwrites `current`. */
  method SelectCurrent(sections: seq<Section>, scrollY: real) returns (current: Nullable<string>)
    ensures current == Current(sections, scrollY)
  {
    current := NonNull("");
    var i := 0;
    while i < |sections|
      invariant 0 <= i <= |sections|
      invariant current == Current(sections[..i], scrollY)
    {
      assert sections[..i + 1][..i] == sections[..i];
      if Reached(sections[i], scrollY) {
        current := sections[i].id;
      }
      i := i + 1;
    }
    assert sections[..i] == sections;
  }

  /** A link is marked active when its href contains the current id, which
      is converted to a string first (a missing id is searched as "null"). */
  predicate LinkActive(href: string, current: Nullable<string>) {
    Includes(href, ToJsString(current))
  }

  /** The index of the first link without an href, or the number of links. */
  function FirstMissingHref(hrefs: seq<Nullable<string>>): (f: nat)
    ensures f <= |hrefs|
    ensures forall j :: 0 <= j < f ==> hrefs[j].NonNull?
    ensures f < |hrefs| ==> hrefs[f].Null?
  {
    if hrefs == [] || hrefs[0].Null? then 0 else 1 + FirstMissingHref(hrefs[1..])
  }

  /** The pass over the links: each loses `active`, then regains it if its
      href contains the current id. A link without an href makes `includes`
      throw after its `active` was removed, which ends the handler and leaves
      the later links as they were. */
  method MarkLinks(hrefs: seq<Nullable<string>>, active: array<bool>, current: Nullable<string>)
    returns (threw: bool)
    requires active.Length == |hrefs|
    modifies active
    ensures var f := FirstMissingHref(hrefs);
            && (threw <==> f < |hrefs|)
            && (forall i :: 0 <= i < f ==> active[i] == LinkActive(hrefs[i].value, current))
            && (f < |hrefs| ==> !active[f])
            && (forall i :: f < i < |hrefs| ==> active[i] == old(active[i]))
  {
    ghost var f := FirstMissingHref(hrefs);
    var i := 0;
    while i < |hrefs|
      invariant 0 <= i <= f
      invariant forall j :: 0 <= j < i ==> active[j] == LinkActive(hrefs[j].value, current)
      invariant forall j :: i <= j < |hrefs| ==> active[j] == old(active[j])
    {
      active[i] := false;
      if hrefs[i].Null? {
        return true;
      }
      if Includes(hrefs[i].value, ToJsString(current)) {
        active[i] := true;
      }
      i := i + 1;
    }
    return false;
  }

  /** The scroll listener: the scan over the sections, then the pass over the links. */
  method OnScroll(sections: seq<Section>, scrollY: real, hrefs: seq<Nullable<string>>, active: array<bool>)
    returns (threw: bool)
    requires active.Length == |hrefs|
    modifies active
    ensures var f := FirstMissingHref(hrefs);
            && (threw <==> f < |hrefs|)
            && (forall i :: 0 <= i < f ==> active[i] == LinkActive(hrefs[i].value, Current(sections, scrollY)))
            && (f < |hrefs| ==> !active[f])
            && (forall i :: f < i < |hrefs| ==> active[i] == old(active[i]))
  {
    var current := SelectCurrent(sections, scrollY);
    threw := MarkLinks(hrefs, active, current);
  }

  /** A section without an id makes the current id `null`, which `includes`
      converts to the string "null": exactly the links whose href contains
      "null" are then active. */
  lemma MissingIdMatchesNullText(href: string)
    ensures LinkActive(href, Null) <==> exists k :: OccursAt(href, "null", k)
  {
    assert ToJsString(Null) == "null";
  }

  /** Above every section the current id stays "", which every href contains:
      all links are marked active at once. */
  lemma NothingReachedActivatesAll(sections: seq<Section>, scrollY: real, href: string)
    requires LastReached(sections, scrollY) < 0
    ensures LinkActive(href, Current(sections, scrollY))
  {
    CurrentIsLastReached(sections, scrollY);
    assert OccursAt(href, "", 0);
  }

  /** Two links can be active together: the id "about" lies inside both
      "#about" and "#about-me". */
  lemma TwoLinksActiveExample()
    ensures LinkActive("#about", NonNull("about"))
    ensures LinkActive("#about-me", NonNull("about"))
  {
    assert OccursAt("#about", "about", 1);
    assert OccursAt("#about-me", "about", 1);
  }

  /** A section 300 pixels high at the top and another below it: at offset
      350 the second one is current; at offset 0 the first one is. */
  lemma TwoSectionsExample()
    ensures Current([Section(NonNull("a"), 0, 300), Section(NonNull("b"), 300, 300)], 350.0) == NonNull("b")
    ensures Current([Section(NonNull("a"), 0, 300), Section(NonNull("b"), 300, 300)], 0.0) == NonNull("a")
  {
    var s := [Section(NonNull("a"), 0, 300), Section(NonNull("b"), 300, 300)];
    assert s[..1] == [Section(NonNull("a"), 0, 300)];
    assert s[..1][..0] == [];
  }

  /** The reach threshold is a third of the height above the top: a section
      at 300 of height 300 is reached from offset 200 on, not at 199.5. */
  lemma ThresholdExample()
    ensures Reached(Section(NonNull("b"), 300, 300), 200.0)
    ensures !Reached(Section(NonNull("b"), 300, 300), 199.5)
  {
  }
}
