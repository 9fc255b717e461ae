/**
 * The home page's scroll-depth milestones (index.js): flags for 25, 50, 75
 * and 90 per cent, visited in that order on every scroll event; a milestone
 * fires when the page has been scrolled at least that far and it has not
 * fired before. The scroll percentage is computed by the browser and is the
 * input here.
 */
module ScrollDepth {

  /** The flag keys, in the order `Object.keys` visits integer keys. */
  const Milestones: seq<int> := [25, 50, 75, 90]

  predicate NoDuplicates(s: seq<int>)
  {
    forall i, j :: 0 <= i < j < |s| ==> s[i] != s[j]
  }

  /** The milestones among `ms` that a scroll to `percent` fires, in order. */
  function Due(tracked: map<int, bool>, percent: int, ms: seq<int>): seq<int>
    requires forall d :: d in ms ==> d in tracked
  {
    if ms == [] then []
    else
      var last := ms[|ms| - 1];
      Due(tracked, percent, ms[..|ms| - 1]) + (if percent >= last && !tracked[last] then [last] else [])
  }

  /** A scroll fires exactly the visited milestones it reaches that have not fired before. */
  lemma {:induction false} DueMembers(tracked: map<int, bool>, percent: int, ms: seq<int>)
    requires forall d :: d in ms ==> d in tracked
    ensures forall d :: d in Due(tracked, percent, ms) <==> d in ms && percent >= d && !tracked[d]
  {
    if ms != [] {
      DueMembers(tracked, percent, ms[..|ms| - 1]);
      assert ms == ms[..|ms| - 1] + [ms[|ms| - 1]];
    }
  }

  /** The flags after a scroll to `percent` has visited the keys `ms` in order. */
  function Marked(tracked: map<int, bool>, percent: int, ms: seq<int>): (r: map<int, bool>)
    requires forall d :: d in ms ==> d in tracked
    ensures r.Keys == tracked.Keys
  {
    if ms == [] then tracked
    else
      var m := Marked(tracked, percent, ms[..|ms| - 1]);
      var last := ms[|ms| - 1];
      if percent >= last && !m[last] then m[last := true] else m
  }

  /** Keys not visited keep their flag. */
  lemma {:induction false} MarkedOutside(tracked: map<int, bool>, percent: int, ms: seq<int>, d: int)
    requires forall x :: x in ms ==> x in tracked
    requires d in tracked && d !in ms
    ensures Marked(tracked, percent, ms)[d] == tracked[d]
  {
    if ms != [] {
      MarkedOutside(tracked, percent, ms[..|ms| - 1], d);
    }
  }

  /** Visiting repeat-free keys sets exactly the flags of the keys reached, and keeps set flags set. */
  lemma {:induction false} MarkedInside(tracked: map<int, bool>, percent: int, ms: seq<int>)
    requires forall x :: x in ms ==> x in tracked
    requires NoDuplicates(ms)
    ensures forall d :: d in ms ==> Marked(tracked, percent, ms)[d] == (tracked[d] || percent >= d)
  {
    if ms != [] {
      var init := ms[..|ms| - 1];
      var last := ms[|ms| - 1];
      MarkedInside(tracked, percent, init);
      assert last !in init;
      MarkedOutside(tracked, percent, init, last);
    }
  }

  /** Visiting one more milestone: its flag is read as it was before the scroll. */
  lemma VisitStep(tracked: map<int, bool>, percent: int, k: int)
    requires forall d :: d in Milestones ==> d in tracked
    requires 0 <= k < |Milestones|
    ensures var m := Marked(tracked, percent, Milestones[..k]);
      var depth := Milestones[k];
      m[depth] == tracked[depth] &&
      Marked(tracked, percent, Milestones[..k + 1]) == (if percent >= depth && !m[depth] then m[depth := true] else m) &&
      Due(tracked, percent, Milestones[..k + 1]) ==
        Due(tracked, percent, Milestones[..k]) + (if percent >= depth && !m[depth] then [depth] else [])
  {
    var visited := Milestones[..k + 1];
    assert visited[..k] == Milestones[..k];
    MarkedOutside(tracked, percent, Milestones[..k], Milestones[k]);
  }

  class ScrollTracker {
    /** `scrollDepthTracked`. */
    var tracked: map<int, bool>
    /** Every milestone fired so far, in firing order. */
    ghost var fired: seq<int>

    /** The flags are exactly the four milestones, and a flag is set iff its milestone has fired, once. */
    ghost predicate Valid()
      reads this
    {
      (forall d :: d in tracked <==> d in Milestones) &&
      (forall d :: d in Milestones ==> (tracked[d] <==> d in fired)) &&
      (forall d :: d in fired ==> d in Milestones) &&
      NoDuplicates(fired)
    }

    constructor ()
      ensures Valid() && fired == []
      ensures forall d :: d in Milestones ==> !tracked[d]
    {
      tracked := map[25 := false, 50 := false, 75 := false, 90 := false];
      fired := [];
    }

    /**
     * One scroll event: every milestone reached and not yet tracked is set and
     * reported, in ascending order; no milestone ever fires twice.
     */
    method OnScroll(percent: int) returns (newlyFired: seq<int>)
      requires Valid()
      modifies this
      ensures Valid()
      ensures newlyFired == Due(old(tracked), percent, Milestones)
      ensures fired == old(fired) + newlyFired
      ensures forall d :: d in Milestones ==> tracked[d] == (old(tracked[d]) || percent >= d)
    {
      ghost var t0, f0 := tracked, fired;
      var flags := tracked;
      newlyFired := [];
      var k := 0;
      while k < |Milestones|
        invariant 0 <= k <= |Milestones|
        invariant flags == Marked(t0, percent, Milestones[..k])
        invariant newlyFired == Due(t0, percent, Milestones[..k])
      {
        var depth := Milestones[k];
        VisitStep(t0, percent, k);
        if percent >= depth && !flags[depth] {
          flags := flags[depth := true];
          newlyFired := newlyFired + [depth];
        }
        k := k + 1;
      }
      assert Milestones[..k] == Milestones;
      tracked := flags;
      fired := f0 + newlyFired;
      MarkedInside(t0, percent, Milestones);
      FiredStaysValid(t0, f0, percent, tracked, newlyFired);
    }
  }

  /** The bookkeeping after a scroll: flags and the firing history still agree, without repeats. */
  lemma FiredStaysValid(t0: map<int, bool>, f0: seq<int>, percent: int, t1: map<int, bool>, due: seq<int>)
    requires forall d :: d in t0 <==> d in Milestones
    requires forall d :: d in Milestones ==> (t0[d] <==> d in f0)
    requires forall d :: d in f0 ==> d in Milestones
    requires NoDuplicates(f0)
    requires t1.Keys == t0.Keys
    requires forall d :: d in Milestones ==> t1[d] == (t0[d] || percent >= d)
    requires due == Due(t0, percent, Milestones)
    ensures forall d :: d in Milestones ==> (t1[d] <==> d in f0 + due)
    ensures forall d :: d in f0 + due ==> d in Milestones
    ensures NoDuplicates(f0 + due)
  {
    DueNoDuplicates(t0, percent, Milestones);
    DueMembers(t0, percent, Milestones);
    var r := f0 + due;
    forall i, j | 0 <= i < j < |r| ensures r[i] != r[j] {
      if i < |f0| && j >= |f0| {
        assert r[j] in due;
        assert r[i] in f0;
      }
    }
  }

  /** A scroll fires each milestone of a repeat-free list at most once. */
  lemma {:induction false} DueNoDuplicates(tracked: map<int, bool>, percent: int, ms: seq<int>)
    requires forall d :: d in ms ==> d in tracked
    requires NoDuplicates(ms)
    ensures NoDuplicates(Due(tracked, percent, ms))
  {
    if ms != [] {
      var init := ms[..|ms| - 1];
      var last := ms[|ms| - 1];
      DueNoDuplicates(tracked, percent, init);
      DueMembers(tracked, percent, init);
      assert last !in init;
    }
  }
}
