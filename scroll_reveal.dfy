/** The one-shot scroll reveal of the page: the stats section and the hero
    card are observed for visibility; the first time one of them is seen
    intersecting the viewport, its animations start and it stops being
    observed, so it never fires again.

    Elements are values (an identity and a class list); the animations an
    element starts are recorded as a `Firing` rather than run. */
module ScrollReveal {

  /** A page element: its identity and its class list. */
  datatype Element = Element(id: nat, classes: set<string>)

  /** The animations the observer can start. */
  datatype Animation = Counters | SkillBars | HeroStats

  /** One intersection record delivered to the observer's callback. */
  datatype Entry = Entry(target: Element, isIntersecting: bool)

  /** One element firing: the element and the animations it started, in the
      order the callback starts them. */
  datatype Firing = Firing(target: Element, animations: seq<Animation>)

  /** The observer's state: the elements still observed and the log of
      firings so far. */
  datatype ObserverState = ObserverState(observed: set<Element>, fired: seq<Firing>)

  /** The elements the page selects for observation: those with class
      `stats-section` or `hero-card`. */
  predicate Selected(el: Element) {
    "stats-section" in el.classes || "hero-card" in el.classes
  }

  /** The animations an intersecting element starts: the counters for the
      stats section, then the skill bars and the hero stats for the hero
      card; an element with both classes starts all three. */
  function Animations(el: Element): (r: seq<Animation>)
    ensures Counters in r <==> "stats-section" in el.classes
    ensures SkillBars in r <==> "hero-card" in el.classes
    ensures HeroStats in r <==> "hero-card" in el.classes
    ensures r == [] <==> !Selected(el)
    ensures forall i, j :: 0 <= i < j < |r| ==> r[i] != r[j]
  {
    (if "stats-section" in el.classes then [Counters] else []) +
    (if "hero-card" in el.classes then [SkillBars, HeroStats] else [])
  }

  /** The callback's handling of one entry, corrected to skip a target that
      is no longer observed: an intersecting entry for an observed target
      fires the target's animations and unobserves it. The script itself
      tests only `isIntersecting` (see `HandleEntryAsWritten`), so a second
      intersecting entry for the same target in one batch fires it again. */
  function HandleEntry(st: ObserverState, e: Entry): ObserverState {
    if e.target in st.observed && e.isIntersecting then
      ObserverState(st.observed - {e.target}, st.fired + [Firing(e.target, Animations(e.target))])
    else st
  }

  /** The callback's handling of a batch of entries, one after another. */
  function HandleEntries(st: ObserverState, entries: seq<Entry>): ObserverState
    decreases |entries|
  {
    if entries == [] then st
    else HandleEntry(HandleEntries(st, entries[..|entries| - 1]), entries[|entries| - 1])
  }

  /** The element fired by the `i`-th firing of the log. */
  predicate FiredAt(st: ObserverState, el: Element, i: nat) {
    i < |st.fired| && st.fired[i].target == el
  }

  /** The one-shot invariant: no element has fired twice, and an element
      that has fired is no longer observed. */
  predicate Valid(st: ObserverState) {
    && (forall i, j :: 0 <= i < j < |st.fired| ==> st.fired[i].target != st.fired[j].target)
    && (forall i :: 0 <= i < |st.fired| ==> st.fired[i].target !in st.observed)
  }

  /** Handling one entry keeps the one-shot invariant. */
  lemma HandleEntryValid(st: ObserverState, e: Entry)
    requires Valid(st)
    ensures Valid(HandleEntry(st, e))
  {
  }

  /** A batch only removes elements from the observed set, only appends to
      the log, and every element it logs was observed before the batch and
      is not observed after it. */
  lemma {:induction false} HandleEntriesMonotone(st: ObserverState, entries: seq<Entry>)
    ensures var st' := HandleEntries(st, entries);
      && st'.observed <= st.observed
      && st.fired <= st'.fired
      && (forall i :: |st.fired| <= i < |st'.fired| ==>
            st'.fired[i].target in st.observed - st'.observed)
    decreases |entries|
  {
    if entries != [] {
      HandleEntriesMonotone(st, entries[..|entries| - 1]);
    }
  }

  /** However many entries arrive, the one-shot invariant holds: no element
      fires twice. */
  lemma {:induction false} HandleEntriesValid(st: ObserverState, entries: seq<Entry>)
    requires Valid(st)
    ensures Valid(HandleEntries(st, entries))
    decreases |entries|
  {
    if entries != [] {
      HandleEntriesValid(st, entries[..|entries| - 1]);
      HandleEntryValid(HandleEntries(st, entries[..|entries| - 1]), entries[|entries| - 1]);
    }
  }

  /** Entries that do not intersect change nothing. */
  lemma {:induction false} NonIntersectingIgnored(st: ObserverState, entries: seq<Entry>)
    requires forall k :: 0 <= k < |entries| ==> !entries[k].isIntersecting
    ensures HandleEntries(st, entries) == st
    decreases |entries|
  {
    if entries != [] {
      NonIntersectingIgnored(st, entries[..|entries| - 1]);
    }
  }

  /** An observed element that has an intersecting entry in the batch has
      fired by the end of it, with its own animations, and is no longer
      observed. */
  lemma {:induction false} IntersectingFires(st: ObserverState, entries: seq<Entry>, k: nat)
    requires k < |entries| && entries[k].isIntersecting && entries[k].target in st.observed
    ensures var st' := HandleEntries(st, entries);
      && entries[k].target !in st'.observed
      && exists i: nat :: |st.fired| <= i && FiredAt(st', entries[k].target, i) &&
                     st'.fired[i].animations == Animations(entries[k].target)
    decreases |entries|
  {
    var el := entries[k].target;
    var n := |entries| - 1;
    if k == n {
      LastEntryFires(st, entries);
    } else {
      var before := HandleEntries(st, entries[..n]);
      assert entries[..n][k] == entries[k];
      IntersectingFires(st, entries[..n], k);
      var i: nat :| |st.fired| <= i && FiredAt(before, el, i) && before.fired[i].animations == Animations(el);
      assert HandleEntries(st, entries).fired[i] == before.fired[i];
    }
  }

  /** The last entry of a batch, when it intersects and its target was
      observed before the batch, leaves that target fired and unobserved. */
  lemma LastEntryFires(st: ObserverState, entries: seq<Entry>)
    requires entries != [] && entries[|entries| - 1].isIntersecting
    requires entries[|entries| - 1].target in st.observed
    ensures var st' := HandleEntries(st, entries);
      var el := entries[|entries| - 1].target;
      && el !in st'.observed
      && exists i: nat :: |st.fired| <= i && FiredAt(st', el, i) && st'.fired[i].animations == Animations(el)
  {
    var el := entries[|entries| - 1].target;
    var n := |entries| - 1;
    var before := HandleEntries(st, entries[..n]);
    HandleEntriesMonotone(st, entries[..n]);
    if el in before.observed {
      assert FiredAt(HandleEntries(st, entries), el, |before.fired|);
    } else {
      FiredEarlier(st, entries[..n], el);
      var i: nat :| |st.fired| <= i && FiredAt(before, el, i) && before.fired[i].animations == Animations(el);
      assert HandleEntries(st, entries).fired[i] == before.fired[i];
    }
  }

  /** An element that was observed before a batch and is not after it has
      fired during the batch, with its own animations. */
  lemma {:induction false} FiredEarlier(st: ObserverState, entries: seq<Entry>, el: Element)
    requires el in st.observed && el !in HandleEntries(st, entries).observed
    ensures exists i: nat :: |st.fired| <= i && FiredAt(HandleEntries(st, entries), el, i) &&
                        HandleEntries(st, entries).fired[i].animations == Animations(el)
    decreases |entries|
  {
    var n := |entries| - 1;
    var before := HandleEntries(st, entries[..n]);
    HandleEntriesMonotone(st, entries[..n]);
    if el in before.observed {
      assert FiredAt(HandleEntries(st, entries), el, |before.fired|);
    } else {
      FiredEarlier(st, entries[..n], el);
      var i: nat :| |st.fired| <= i && FiredAt(before, el, i) && before.fired[i].animations == Animations(el);
      assert FiredAt(HandleEntries(st, entries), el, i);
    }
  }

  /** An observed element for which no entry of the batch intersects stays
      observed. */
  lemma {:induction false} StaysObserved(st: ObserverState, entries: seq<Entry>, el: Element)
    requires el in st.observed
    requires forall k :: 0 <= k < |entries| && entries[k].isIntersecting ==> entries[k].target != el
    ensures el in HandleEntries(st, entries).observed
    decreases |entries|
  {
    if entries != [] {
      var n := |entries| - 1;
      forall k | 0 <= k < n && entries[..n][k].isIntersecting
        ensures entries[..n][k].target != el
      {
        assert entries[..n][k] == entries[k];
      }
      StaysObserved(st, entries[..n], el);
    }
  }

  /** An observed element is unobserved by a batch if and only if some entry
      of the batch for it intersects. */
  lemma UnobservedIff(st: ObserverState, entries: seq<Entry>, el: Element)
    requires el in st.observed
    ensures el !in HandleEntries(st, entries).observed <==>
      exists k :: 0 <= k < |entries| && entries[k].isIntersecting && entries[k].target == el
  {
    if exists k :: 0 <= k < |entries| && entries[k].isIntersecting && entries[k].target == el {
      var k :| 0 <= k < |entries| && entries[k].isIntersecting && entries[k].target == el;
      IntersectingFires(st, entries, k);
    } else {
      StaysObserved(st, entries, el);
    }
  }

  /** Every firing a batch adds was caused by an intersecting entry of the
      batch for the fired element. */
  lemma {:induction false} FiresOnlyOnIntersecting(st: ObserverState, entries: seq<Entry>, i: nat)
    requires |st.fired| <= i < |HandleEntries(st, entries).fired|
    ensures exists k :: 0 <= k < |entries| && entries[k].isIntersecting &&
                       entries[k].target == HandleEntries(st, entries).fired[i].target
    decreases |entries|
  {
    var n := |entries| - 1;
    var before := HandleEntries(st, entries[..n]);
    var after := HandleEntries(st, entries);
    if i < |before.fired| {
      FiresOnlyOnIntersecting(st, entries[..n], i);
      var k :| 0 <= k < n && entries[..n][k].isIntersecting &&
               entries[..n][k].target == before.fired[i].target;
      assert entries[..n][k] == entries[k];
      assert after.fired[i] == before.fired[i];
    } else {
      assert entries[n].isIntersecting && entries[n].target == after.fired[i].target;
    }
  }

  /** The callback as the script writes it: every intersecting entry of a
      batch fires its target, even when an earlier entry of the same batch
      has already unobserved that target. */
  function HandleEntryAsWritten(st: ObserverState, e: Entry): ObserverState {
    if e.isIntersecting then
      ObserverState(st.observed - {e.target}, st.fired + [Firing(e.target, Animations(e.target))])
    else st
  }

  /** The number of intersecting entries of a batch. */
  function CountIntersecting(entries: seq<Entry>): nat
    decreases |entries|
  {
    if entries == [] then 0
    else CountIntersecting(entries[..|entries| - 1]) + (if entries[|entries| - 1].isIntersecting then 1 else 0)
  }

  /** A batch handled by the callback as the script writes it: it only
      removes from the observed set, only appends to the log, and logs as
      many firings as the batch has intersecting entries (`AsWrittenEffect`
      says which). */
  function HandleEntriesAsWritten(st: ObserverState, entries: seq<Entry>): (r: ObserverState)
    ensures r.observed <= st.observed && st.fired <= r.fired
    ensures |r.fired| == |st.fired| + CountIntersecting(entries)
    decreases |entries|
  {
    if entries == [] then st
    else HandleEntryAsWritten(HandleEntriesAsWritten(st, entries[..|entries| - 1]), entries[|entries| - 1])
  }

  /** The firings the callback as written logs for a batch: one per
      intersecting entry, in order, each for that entry's target with the
      target's animations. */
  function IntersectingFirings(entries: seq<Entry>): seq<Firing>
    decreases |entries|
  {
    if entries == [] then []
    else
      var e := entries[|entries| - 1];
      IntersectingFirings(entries[..|entries| - 1]) +
        (if e.isIntersecting then [Firing(e.target, Animations(e.target))] else [])
  }

  /** The targets of the intersecting entries of a batch. */
  function IntersectingTargets(entries: seq<Entry>): set<Element> {
    set k | 0 <= k < |entries| && entries[k].isIntersecting :: entries[k].target
  }

  /** The intersecting targets of a batch are those of all but its last
      entry, plus the last entry's target when it intersects. */
  lemma IntersectingTargetsSnoc(entries: seq<Entry>)
    requires entries != []
    ensures var e := entries[|entries| - 1];
      IntersectingTargets(entries) ==
        IntersectingTargets(entries[..|entries| - 1]) + (if e.isIntersecting then {e.target} else {})
  {
    var n := |entries| - 1;
    var init, e := entries[..n], entries[n];
    var last: set<Element> := if e.isIntersecting then {e.target} else {};
    forall el ensures el in IntersectingTargets(entries) <==> el in IntersectingTargets(init) + last {
      if el in IntersectingTargets(entries) {
        var k :| 0 <= k < |entries| && entries[k].isIntersecting && entries[k].target == el;
        if k < n {
          assert init[k] == entries[k];
        }
      }
      if el in IntersectingTargets(init) {
        var k :| 0 <= k < n && init[k].isIntersecting && init[k].target == el;
        assert entries[k] == init[k];
      }
    }
  }

  /** What the callback as written does to a batch: it unobserves every
      target with an intersecting entry and logs one firing per intersecting
      entry, in order, whatever was observed before. */
  lemma {:induction false} AsWrittenEffect(st: ObserverState, entries: seq<Entry>)
    ensures HandleEntriesAsWritten(st, entries) ==
      ObserverState(st.observed - IntersectingTargets(entries), st.fired + IntersectingFirings(entries))
    decreases |entries|
  {
    if entries == [] {
      assert IntersectingTargets(entries) == {};
    } else {
      var n := |entries| - 1;
      var init, e := entries[..n], entries[n];
      AsWrittenEffect(st, init);
      IntersectingTargetsSnoc(entries);
      var targets, firings := IntersectingTargets(init), IntersectingFirings(init);
      if e.isIntersecting {
        var f := Firing(e.target, Animations(e.target));
        assert (st.observed - targets) - {e.target} == st.observed - (targets + {e.target});
        assert (st.fired + firings) + [f] == st.fired + (firings + [f]);
      } else {
        assert targets + {} == targets;
        assert firings + [] == firings;
      }
    }
  }

  /** Under the browser's normal delivery, where every entry of a batch is
      for an observed target and no two intersecting entries share a
      target, the callback as written does exactly what the guarded one
      does. */
  lemma {:induction false} AsWrittenMatchesGuarded(st: ObserverState, entries: seq<Entry>)
    requires forall k :: 0 <= k < |entries| ==> entries[k].target in st.observed
    requires forall j, k :: 0 <= j < k < |entries| && entries[j].isIntersecting && entries[k].isIntersecting ==>
      entries[j].target != entries[k].target
    ensures HandleEntriesAsWritten(st, entries) == HandleEntries(st, entries)
    decreases |entries|
  {
    if entries != [] {
      var n := |entries| - 1;
      var init := entries[..n];
      forall k | 0 <= k < n ensures init[k].target in st.observed {
        assert init[k] == entries[k];
      }
      forall j, k | 0 <= j < k < n && init[j].isIntersecting && init[k].isIntersecting
        ensures init[j].target != init[k].target
      {
        assert init[j] == entries[j] && init[k] == entries[k];
      }
      AsWrittenMatchesGuarded(st, init);
      if entries[n].isIntersecting {
        forall k | 0 <= k < n && init[k].isIntersecting ensures init[k].target != entries[n].target {
          assert init[k] == entries[k];
        }
        StaysObserved(st, init, entries[n].target);
      }
    }
  }

  /** Under the browser's normal delivery the script as written keeps the
      one-shot invariant: no element fires twice. */
  lemma AsWrittenValid(st: ObserverState, entries: seq<Entry>)
    requires Valid(st)
    requires forall k :: 0 <= k < |entries| ==> entries[k].target in st.observed
    requires forall j, k :: 0 <= j < k < |entries| && entries[j].isIntersecting && entries[k].isIntersecting ==>
      entries[j].target != entries[k].target
    ensures Valid(HandleEntriesAsWritten(st, entries))
  {
    AsWrittenMatchesGuarded(st, entries);
    HandleEntriesValid(st, entries);
  }

  /** As written, a batch holding two intersecting entries for one observed
      element fires it twice, breaking the one-shot invariant; the guarded
      `HandleEntry` fires it once. */
  lemma RepeatedEntryFiresTwice(el: Element)
    ensures var st := ObserverState({el}, []);
      var batch := [Entry(el, true), Entry(el, true)];
      && Valid(st)
      && |HandleEntriesAsWritten(st, batch).fired| == 2
      && !Valid(HandleEntriesAsWritten(st, batch))
      && |HandleEntries(st, batch).fired| == 1
      && Valid(HandleEntries(st, batch))
  {
    var st := ObserverState({el}, []);
    var batch := [Entry(el, true), Entry(el, true)];
    assert batch[..1] == [Entry(el, true)];
    assert batch[..1][..0] == [];
    assert {el} - {el} == {};
    var once := HandleEntriesAsWritten(st, batch[..1]);
    assert HandleEntriesAsWritten(st, batch[..1][..0]) == st;
    assert once == ObserverState({}, [Firing(el, Animations(el))]);
    assert HandleEntriesAsWritten(st, batch).fired[0].target == HandleEntriesAsWritten(st, batch).fired[1].target;
    assert HandleEntries(st, batch[..1]) == once;
  }

  /** The page's intersection observer. */
  class RevealObserver {
    var observed: set<Element>
    var fired: seq<Firing>

    /** The observer's state as a value. */
    function State(): ObserverState
      reads this
    {
      ObserverState(observed, fired)
    }

    /** Creating the observer and observing every selected element of the
        page. */
    constructor (page: seq<Element>)
      ensures Valid(State())
      ensures fired == []
      ensures forall el :: el in observed <==> el in page && Selected(el)
    {
      observed, fired := {}, [];
      new;
      for k := 0 to |page|
        invariant fired == []
        invariant forall el :: el in observed <==> el in page[..k] && Selected(el)
      {
        if Selected(page[k]) {
          observed := observed + {page[k]};
        }
        assert page[..k + 1] == page[..k] + [page[k]];
      }
      assert page[..|page|] == page;
    }

    /** One call of the observer's callback with a batch of entries. */
    method Callback(entries: seq<Entry>)
      requires Valid(State())
      modifies this
      ensures State() == HandleEntries(old(State()), entries)
      ensures Valid(State())
      ensures observed <= old(observed) && old(fired) <= fired
    {
      for k := 0 to |entries|
        invariant State() == HandleEntries(old(State()), entries[..k])
      {
        var entry := entries[k];
        if entry.target in observed && entry.isIntersecting {
          fired := fired + [Firing(entry.target, Animations(entry.target))];
          observed := observed - {entry.target};
        }
        assert entries[..k + 1][..k] == entries[..k];
      }
      assert entries[..|entries|] == entries;
      HandleEntriesValid(old(State()), entries);
      HandleEntriesMonotone(old(State()), entries);
    }
  }
}
