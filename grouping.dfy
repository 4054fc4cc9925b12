/** `groupOverlappingEvents` of the calendar page: the boxes of one weekday, taken in
    order of their start, are clustered greedily: each box joins the first group that
    holds a box it strictly overlaps, and otherwise opens a group of its own. The page
    then draws the boxes of a group side by side. */
module Grouping {
  import opened Wrappers
  import opened Calendar

  /** Strict overlap of two boxes; boxes that only touch do not overlap. */
  predicate Overlaps(ev: EventBox, e: EventBox) {
    ev.top < e.bottom && ev.bottom > e.top
  }

  /** `g.some(e => ...)`: some box of the group overlaps `ev`. */
  predicate OverlapsSome(g: seq<EventBox>, ev: EventBox) {
    exists k :: 0 <= k < |g| && Overlaps(ev, g[k])
  }

  /** Boxes that share only an end point are kept apart. */
  lemma TouchingDoesNotOverlap(ev: EventBox, g: seq<EventBox>)
    requires forall k :: 0 <= k < |g| ==> g[k].bottom <= ev.top || ev.bottom <= g[k].top
    ensures !OverlapsSome(g, ev)
  {
  }

  // ---------------------------------------------------------------- sorting by start

  predicate SortedByTop(s: seq<EventBox>) {
    forall i, j :: 0 <= i < j < |s| ==> s[i].top <= s[j].top
  }

  /** Inserts `x` after every box that does not start later, which keeps the sort
      stable, as `Array.prototype.sort` is (`InsertByTopStable`). */
  function InsertByTop(s: seq<EventBox>, x: EventBox): (r: seq<EventBox>)
    ensures multiset(r) == multiset(s) + multiset{x}
    ensures SortedByTop(s) ==> SortedByTop(r)
    ensures |r| == |s| + 1
  {
    if s == [] || s[|s| - 1].top <= x.top then
      s + [x]
    else
      var rest := InsertByTop(s[..|s| - 1], x);
      assert s == s[..|s| - 1] + [s[|s| - 1]];
      assert SortedByTop(s) ==> forall i :: 0 <= i < |rest| ==> rest[i].top <= s[|s| - 1].top by {
        if SortedByTop(s) {
          InsertedBelowLast(s, x, rest);
        }
      }
      rest + [s[|s| - 1]]
  }

  /** Every box of an insertion made before the last box of a sorted sequence starts
      no later than that last box. */
  lemma InsertedBelowLast(s: seq<EventBox>, x: EventBox, rest: seq<EventBox>)
    requires s != [] && SortedByTop(s) && x.top < s[|s| - 1].top
    requires multiset(rest) == multiset(s[..|s| - 1]) + multiset{x}
    ensures forall i :: 0 <= i < |rest| ==> rest[i].top <= s[|s| - 1].top
  {
    forall i | 0 <= i < |rest|
      ensures rest[i].top <= s[|s| - 1].top
    {
      assert rest[i] in multiset(rest);
      if rest[i] != x {
        assert rest[i] in s[..|s| - 1];
      }
    }
  }

  /** `[...events].sort((a, b) => a.top - b.top)`: a stable sort by start
      (`SortByTopStable`). */
  function SortByTop(evs: seq<EventBox>): (r: seq<EventBox>)
    ensures SortedByTop(r)
    ensures multiset(r) == multiset(evs)
  {
    if evs == [] then []
    else
      assert evs == evs[..|evs| - 1] + [evs[|evs| - 1]];
      InsertByTop(SortByTop(evs[..|evs| - 1]), evs[|evs| - 1])
  }

  /** The boxes of `s` that start at `top`, in the order of `s`. */
  function StartingAt(s: seq<EventBox>, top: real): seq<EventBox> {
    if s == [] then []
    else StartingAt(s[..|s| - 1], top) + (if s[|s| - 1].top == top then [s[|s| - 1]] else [])
  }

  /** Appending one box adds it to the boxes of its start and to no other. */
  lemma StartingAtSnoc(s: seq<EventBox>, e: EventBox, top: real)
    ensures StartingAt(s + [e], top) == StartingAt(s, top) + (if e.top == top then [e] else [])
  {
    assert (s + [e])[..|s|] == s;
  }

  /** A box that starts before the last box is inserted among the boxes before it. */
  lemma InsertBeforeLast(s: seq<EventBox>, x: EventBox)
    requires s != [] && x.top < s[|s| - 1].top
    ensures s == s[..|s| - 1] + [s[|s| - 1]]
    ensures InsertByTop(s, x) == InsertByTop(s[..|s| - 1], x) + [s[|s| - 1]]
  {
  }

  /** An insertion puts `x` after every box of the same start: boxes that start
      together keep their order, and `x` comes last among them. */
  lemma {:induction false} InsertByTopStable(s: seq<EventBox>, x: EventBox, top: real)
    ensures StartingAt(InsertByTop(s, x), top) == StartingAt(s, top) + (if x.top == top then [x] else [])
    decreases |s|
  {
    if s == [] || s[|s| - 1].top <= x.top {
      StartingAtSnoc(s, x, top);
    } else {
      var init, last := s[..|s| - 1], s[|s| - 1];
      var rest := InsertByTop(init, x);
      InsertBeforeLast(s, x);
      InsertByTopStable(init, x, top);
      StartingAtSnoc(rest, last, top);
      StartingAtSnoc(init, last, top);
      if x.top == top {
        assert last.top != top;
      }
    }
  }

  /** The sort is stable: the boxes that start together come out in input order. */
  lemma {:induction false} SortByTopStable(evs: seq<EventBox>, top: real)
    ensures StartingAt(SortByTop(evs), top) == StartingAt(evs, top)
    decreases |evs|
  {
    if evs != [] {
      var init, last := evs[..|evs| - 1], evs[|evs| - 1];
      SortByTopStable(init, top);
      InsertByTopStable(SortByTop(init), last, top);
    }
  }

  // ---------------------------------------------------------------- the greedy clustering

  /** The first group holding a box that `ev` overlaps, or None if there is none. */
  function FirstOverlapping(groups: seq<seq<EventBox>>, ev: EventBox): (r: Option<nat>)
    ensures r.Some? ==> r.value < |groups| && OverlapsSome(groups[r.value], ev)
                        && forall i :: 0 <= i < r.value ==> !OverlapsSome(groups[i], ev)
    ensures r.None? <==> forall i :: 0 <= i < |groups| ==> !OverlapsSome(groups[i], ev)
  {
    if groups == [] then None
    else if OverlapsSome(groups[0], ev) then Some(0)
    else match FirstOverlapping(groups[1..], ev)
      case None => None
      case Some(k) =>
        assert forall i :: 1 <= i <= k ==> groups[i] == groups[1..][i - 1];
        Some(k + 1)
  }

  /** One step of the clustering: `ev` joins its first overlapping group, or opens a
      new group at the end. */
  function Place(groups: seq<seq<EventBox>>, ev: EventBox): (r: seq<seq<EventBox>>)
    ensures |r| == |groups| + 1 <==> forall i :: 0 <= i < |groups| ==> !OverlapsSome(groups[i], ev)
    ensures |r| == |groups| + 1 ==> r[|groups|] == [ev]
    ensures |groups| <= |r| <= |groups| + 1
    ensures forall i :: 0 <= i < |groups| ==>
              r[i] == groups[i] || (r[i] == groups[i] + [ev] && OverlapsSome(groups[i], ev))
  {
    match FirstOverlapping(groups, ev)
    case Some(k) => groups[k := groups[k] + [ev]]
    case None => groups + [[ev]]
  }

  /** A box that overlaps group `j` and none before it joins group `j`. */
  lemma PlaceAt(groups: seq<seq<EventBox>>, ev: EventBox, j: nat)
    requires j < |groups| && OverlapsSome(groups[j], ev)
    requires forall k :: 0 <= k < j ==> !OverlapsSome(groups[k], ev)
    ensures Place(groups, ev) == groups[j := groups[j] + [ev]]
  {
    var r := FirstOverlapping(groups, ev);
    if r.None? || r.value != j {
      assert false;
    }
  }

  /** A box that overlaps no group opens a new one at the end. */
  lemma PlaceNew(groups: seq<seq<EventBox>>, ev: EventBox)
    requires forall k :: 0 <= k < |groups| ==> !OverlapsSome(groups[k], ev)
    ensures Place(groups, ev) == groups + [[ev]]
  {
  }

  /** Clustering the boxes `evs`, in order, into the groups built so far. */
  function GroupFrom(groups: seq<seq<EventBox>>, evs: seq<EventBox>): seq<seq<EventBox>>
    decreases |evs|
  {
    if evs == [] then groups else GroupFrom(Place(groups, evs[0]), evs[1..])
  }

  /** What `groupOverlappingEvents(events)` returns: groups that hold exactly the
      given boxes, none empty, each chained by strict overlap. */
  function GroupEvents(events: seq<EventBox>): (groups: seq<seq<EventBox>>)
    ensures multiset(Flatten(groups)) == multiset(events)
    ensures WellGrouped(groups)
  {
    GroupFromKeepsPartition([], SortByTop(events));
    GroupFrom([], SortByTop(events))
  }

  /** `groupOverlappingEvents`: sort by start, then place each box in the first group
      with a box it overlaps (the inner loop stops at that group), or in a new group. */
  method GroupOverlappingEvents(events: seq<EventBox>) returns (groups: seq<seq<EventBox>>)
    ensures groups == GroupEvents(events)
  {
    var sorted := SortByTop(events);
    groups := [];
    var i := 0;
    while i < |sorted|
      invariant 0 <= i <= |sorted|
      invariant GroupFrom(groups, sorted[i..]) == GroupEvents(events)
    {
      var ev := sorted[i];
      assert sorted[i..][1..] == sorted[i + 1..];
      ghost var before := groups;
      var placed := false;
      var j := 0;
      while j < |groups|
        invariant 0 <= j <= |groups|
        invariant groups == before && !placed
        invariant forall k :: 0 <= k < j ==> !OverlapsSome(groups[k], ev)
      {
        if OverlapsSome(groups[j], ev) {
          PlaceAt(before, ev, j);
          groups := groups[j := groups[j] + [ev]];
          placed := true;
          break;
        }
        j := j + 1;
      }
      if !placed {
        PlaceNew(before, ev);
        groups := groups + [[ev]];
      }
      assert groups == Place(before, ev);
      i := i + 1;
    }
  }

  // ---------------------------------------------------------------- what the groups are

  /** The boxes of all groups, group after group. */
  function Flatten(groups: seq<seq<EventBox>>): seq<EventBox> {
    if groups == [] then [] else Flatten(groups[..|groups| - 1]) + groups[|groups| - 1]
  }

  /** Each box after the first of a group overlaps an earlier box of the same group. */
  predicate Chained(g: seq<EventBox>) {
    forall k :: 0 < k < |g| ==> OverlapsSome(g[..k], g[k])
  }

  /** No group is empty and every group is chained. */
  predicate WellGrouped(groups: seq<seq<EventBox>>) {
    forall i :: 0 <= i < |groups| ==> groups[i] != [] && Chained(groups[i])
  }

  lemma {:induction false} FlattenConcat(a: seq<seq<EventBox>>, b: seq<seq<EventBox>>)
    ensures Flatten(a + b) == Flatten(a) + Flatten(b)
    decreases |b|
  {
    if b == [] {
      assert a + b == a;
    } else {
      var n := |b| - 1;
      assert (a + b)[..|a + b| - 1] == a + b[..n];
      assert (a + b)[|a + b| - 1] == b[n];
      FlattenConcat(a, b[..n]);
      calc {
        Flatten(a + b);
        Flatten(a + b[..n]) + b[n];
        Flatten(a) + Flatten(b[..n]) + b[n];
        Flatten(a) + Flatten(b);
      }
    }
  }

  /** Appending a box to one group adds exactly that box to the boxes of all groups. */
  lemma FlattenAppendTo(groups: seq<seq<EventBox>>, k: nat, ev: EventBox)
    requires k < |groups|
    ensures multiset(Flatten(groups[k := groups[k] + [ev]])) == multiset(Flatten(groups)) + multiset{ev}
  {
    var g := groups[k] + [ev];
    var front, back := groups[..k], groups[k + 1..];
    assert groups == front + [groups[k]] + back;
    assert groups[k := g] == front + [g] + back;
    FlattenConcat(front + [groups[k]], back);
    FlattenConcat(front + [g], back);
    assert Flatten(front + [g]) == Flatten(front) + g by {
      assert (front + [g])[..|front|] == front;
    }
    assert Flatten(front + [groups[k]]) == Flatten(front) + groups[k] by {
      assert (front + [groups[k]])[..|front|] == front;
    }
    assert Flatten(groups[k := g]) == Flatten(front) + groups[k] + [ev] + Flatten(back);
  }

  /** A box that overlaps some box of a chained group keeps it chained when appended. */
  lemma ChainedAppend(g: seq<EventBox>, ev: EventBox)
    requires Chained(g) && OverlapsSome(g, ev)
    ensures Chained(g + [ev])
  {
    var h := g + [ev];
    assert h[..|g|] == g;
    forall m | 0 < m < |g|
      ensures OverlapsSome(h[..m], h[m])
    {
      assert h[..m] == g[..m];
    }
  }

  /** Placing a box adds exactly that box and keeps every group non-empty and chained. */
  lemma PlaceKeepsPartition(groups: seq<seq<EventBox>>, ev: EventBox)
    requires WellGrouped(groups)
    ensures WellGrouped(Place(groups, ev))
    ensures multiset(Flatten(Place(groups, ev))) == multiset(Flatten(groups)) + multiset{ev}
  {
    match FirstOverlapping(groups, ev)
    case Some(k) => JoinGroup(groups, k, ev);
    case None => OpenGroup(groups, ev);
  }

  lemma JoinGroup(groups: seq<seq<EventBox>>, k: nat, ev: EventBox)
    requires WellGrouped(groups) && k < |groups| && OverlapsSome(groups[k], ev)
    ensures WellGrouped(groups[k := groups[k] + [ev]])
    ensures multiset(Flatten(groups[k := groups[k] + [ev]])) == multiset(Flatten(groups)) + multiset{ev}
  {
    var r := groups[k := groups[k] + [ev]];
    FlattenAppendTo(groups, k, ev);
    ChainedAppend(groups[k], ev);
    forall i | 0 <= i < |r|
      ensures r[i] != [] && Chained(r[i])
    {
      if i != k {
        assert r[i] == groups[i];
      }
    }
  }

  lemma OpenGroup(groups: seq<seq<EventBox>>, ev: EventBox)
    requires WellGrouped(groups)
    ensures WellGrouped(groups + [[ev]])
    ensures multiset(Flatten(groups + [[ev]])) == multiset(Flatten(groups)) + multiset{ev}
  {
    var r := groups + [[ev]];
    assert r[..|r| - 1] == groups;
    forall i | 0 <= i < |r|
      ensures r[i] != [] && Chained(r[i])
    {
      if i < |groups| {
        assert r[i] == groups[i];
      }
    }
  }

  lemma {:induction false} GroupFromKeepsPartition(groups: seq<seq<EventBox>>, evs: seq<EventBox>)
    requires WellGrouped(groups)
    ensures WellGrouped(GroupFrom(groups, evs))
    ensures multiset(Flatten(GroupFrom(groups, evs))) == multiset(Flatten(groups)) + multiset(evs)
    decreases |evs|
  {
    if evs != [] {
      var ev, rest := evs[0], evs[1..];
      var placed := Place(groups, ev);
      PlaceKeepsPartition(groups, ev);
      GroupFromKeepsPartition(placed, rest);
      GroupFromStep(groups, evs, multiset(Flatten(groups)), multiset(Flatten(placed)));
    }
  }

  /** One step of the clustering, as multisets of boxes. */
  lemma GroupFromStep(groups: seq<seq<EventBox>>, evs: seq<EventBox>, before: multiset<EventBox>,
                      after: multiset<EventBox>)
    requires evs != [] && after == before + multiset{evs[0]}
    ensures GroupFrom(groups, evs) == GroupFrom(Place(groups, evs[0]), evs[1..])
    ensures after + multiset(evs[1..]) == before + multiset(evs)
  {
    assert evs == [evs[0]] + evs[1..];
  }

  /** The groups partition the boxes: every box lands in exactly one group as often as
      it occurs, so the count is preserved; since no group is empty, there are no
      more groups than boxes, and there is a group exactly when there is a box. */
  lemma GroupsPartitionEvents(events: seq<EventBox>)
    ensures var groups := GroupEvents(events);
            && |Flatten(groups)| == |events|
            && |groups| <= |events|
            && (groups == [] <==> events == [])
  {
    var groups := GroupEvents(events);
    assert |multiset(Flatten(groups))| == |multiset(events)|;
    FlattenAtLeastGroups(groups);
    if events != [] {
      assert events[0] in multiset(events);
    }
  }

  /** Non-empty groups hold at least one box each. */
  lemma {:induction false} FlattenAtLeastGroups(groups: seq<seq<EventBox>>)
    requires WellGrouped(groups)
    ensures |groups| <= |Flatten(groups)|
    decreases |groups|
  {
    if groups != [] {
      var init := groups[..|groups| - 1];
      assert forall i :: 0 <= i < |init| ==> init[i] == groups[i];
      FlattenAtLeastGroups(init);
    }
  }

  /** Two boxes given latest-start first: they share one group, the earlier start
      first, exactly when they strictly overlap, and otherwise each gets its own group;
      in particular a box that starts where the other ends opens a new group. */
  lemma TwoBoxes(early: EventBox, late: EventBox)
    requires early.top < late.top
    ensures GroupEvents([late, early]) == if Overlaps(late, early) then [[early, late]] else [[early], [late]]
    ensures late.top == early.bottom ==> GroupEvents([late, early]) == [[early], [late]]
  {
    SortTwo(early, late);
    assert [early, late][1..] == [late];
    assert GroupFrom([], [early, late]) == GroupFrom(Place([], early), [late]);
    assert Place([], early) == [[early]];
    assert GroupFrom([[early]], [late]) == Place([[early]], late);
    PlaceAfterOne(early, late);
  }

  lemma SortTwo(early: EventBox, late: EventBox)
    requires early.top < late.top
    ensures SortByTop([late, early]) == [early, late]
  {
    assert [late, early][..1] == [late];
    assert SortByTop([late]) == [late];
  }

  lemma PlaceAfterOne(early: EventBox, late: EventBox)
    ensures Place([[early]], late) == if Overlaps(late, early) then [[early, late]] else [[early], [late]]
  {
    assert OverlapsSome([early], late) == Overlaps(late, early) by {
      assert [early][0] == early;
    }
    assert [[early]][1..] == [];
    if Overlaps(late, early) {
      assert FirstOverlapping([[early]], late) == Some(0);
      assert [early] + [late] == [early, late];
      assert [[early]][0 := [early, late]] == [[early, late]];
    } else {
      assert FirstOverlapping([[early]], late) == None;
      assert [[early]] + [[late]] == [[early], [late]];
    }
  }
}
