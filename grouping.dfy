/** `groupAdjacentFaces` of the `useSelection` hook: a breadth-first flood
    fill that splits a candidate face list into groups, following only
    candidates whose vertex slots share at least two values with the face
    being expanded. */
module AdjacencyGrouping {
  import opened Common

  /** `index.getX(k)`: the k-th entry of the index buffer, `undefined`
      (None) outside it. */
  function VertexAt(buf: seq<nat>, k: int): Option<nat> {
    if 0 <= k < |buf| then Some(buf[k]) else None
  }

  /** `v === a || v === b || v === c`; `undefined === undefined` holds. */
  function MatchesOne(v: Option<nat>, a: Option<nat>, b: Option<nat>, c: Option<nat>): bool {
    v == a || v == b || v == c
  }

  /** `[oa, ob, oc].filter(v => v === a || v === b || v === c).length`:
      how many of the OTHER face's three slots hold one of the current
      face's vertices. */
  function SharedSlots(buf: seq<nat>, current: int, other: int): (n: nat)
    ensures n <= 3
  {
    var a, b, c := VertexAt(buf, 3 * current), VertexAt(buf, 3 * current + 1), VertexAt(buf, 3 * current + 2);
    (if MatchesOne(VertexAt(buf, 3 * other), a, b, c) then 1 else 0)
    + (if MatchesOne(VertexAt(buf, 3 * other + 1), a, b, c) then 1 else 0)
    + (if MatchesOne(VertexAt(buf, 3 * other + 2), a, b, c) then 1 else 0)
  }

  /** `shared >= 2`: the test that puts `other` in the flood-fill queue. */
  predicate SharesEdge(buf: seq<nat>, current: int, other: int) {
    SharedSlots(buf, current, other) >= 2
  }

  /** A face of the buffer whose three vertices are pairwise different. */
  predicate NonDegenerate(buf: seq<nat>, f: int) {
    0 <= f && 3 * f + 2 < |buf|
    && buf[3 * f] != buf[3 * f + 1] && buf[3 * f] != buf[3 * f + 2] && buf[3 * f + 1] != buf[3 * f + 2]
  }

  /** The three vertices of a face of the buffer. */
  function Corners(buf: seq<nat>, f: int): set<nat>
    requires 0 <= f && 3 * f + 2 < |buf|
  {
    {buf[3 * f], buf[3 * f + 1], buf[3 * f + 2]}
  }

  /** Three different values: as many of them lie in `a` as `{x, y, z} * a` has elements. */
  lemma CountDistinctIn(x: nat, y: nat, z: nat, a: set<nat>)
    requires x != y && x != z && y != z
    ensures |{x, y, z} * a| == (if x in a then 1 else 0) + (if y in a then 1 else 0) + (if z in a then 1 else 0)
  {
    if x in a {
      if y in a {
        if z in a { assert {x, y, z} * a == {x, y, z}; } else { assert {x, y, z} * a == {x, y}; }
      } else {
        if z in a { assert {x, y, z} * a == {x, z}; } else { assert {x, y, z} * a == {x}; }
      }
    } else {
      if y in a {
        if z in a { assert {x, y, z} * a == {y, z}; } else { assert {x, y, z} * a == {y}; }
      } else {
        if z in a { assert {x, y, z} * a == {z}; } else { assert {x, y, z} * a == {}; }
      }
    }
  }

  /** Between two non-degenerate faces the slot count is the number of
      vertices the two triangles have in common, so the test means "they
      share at least two vertices, an edge". */
  lemma SharedSlotsCountsCommonVertices(buf: seq<nat>, f: int, g: int)
    requires NonDegenerate(buf, f) && NonDegenerate(buf, g)
    ensures SharedSlots(buf, f, g) == |Corners(buf, g) * Corners(buf, f)|
    ensures SharesEdge(buf, f, g) <==> |Corners(buf, f) * Corners(buf, g)| >= 2
  {
    CountDistinctIn(buf[3 * g], buf[3 * g + 1], buf[3 * g + 2], Corners(buf, f));
    assert Corners(buf, g) * Corners(buf, f) == Corners(buf, f) * Corners(buf, g);
  }

  /** Between two non-degenerate faces the slot test is symmetric. */
  lemma SharesEdgeSymmetric(buf: seq<nat>, f: int, g: int)
    requires NonDegenerate(buf, f) && NonDegenerate(buf, g)
    ensures SharesEdge(buf, f, g) <==> SharesEdge(buf, g, f)
  {
    SharedSlotsCountsCommonVertices(buf, f, g);
    SharedSlotsCountsCommonVertices(buf, g, f);
  }

  /** On a degenerate face the slot test is NOT symmetric: face 1 repeats
      vertex 0, so both of its first slots match face 0, while only one slot
      of face 0 matches face 1. */
  lemma SharesEdgeAsymmetricOnDegenerateFace()
    ensures var buf := [0, 1, 2, 0, 0, 5];
      SharesEdge(buf, 0, 1) && !SharesEdge(buf, 1, 0)
  {
  }

  // ------------------------------------------------------ groups as a list

  /** The groups, concatenated in order. */
  function Flatten(groups: seq<seq<int>>): seq<int> {
    if groups == [] then [] else Flatten(groups[..|groups| - 1]) + groups[|groups| - 1]
  }

  /** Every face that is in some group. */
  function Covered(groups: seq<seq<int>>): set<int> {
    Elems(Flatten(groups))
  }

  lemma {:induction false} CoveredContainsGroup(groups: seq<seq<int>>, k: nat)
    requires k < |groups|
    ensures Elems(groups[k]) <= Covered(groups)
    decreases |groups|
  {
    var init := groups[..|groups| - 1];
    assert Flatten(groups) == Flatten(init) + groups[|groups| - 1];
    if k < |groups| - 1 {
      CoveredContainsGroup(init, k);
      assert groups[k] == init[k];
    }
  }

  lemma FlattenAppend(groups: seq<seq<int>>, g: seq<int>)
    ensures Flatten(groups + [g]) == Flatten(groups) + g
    ensures Covered(groups + [g]) == Covered(groups) + Elems(g)
    ensures forall k :: 0 <= k <= |groups| ==> (groups + [g])[..k] == groups[..k]
  {
    var gs := groups + [g];
    assert gs[..|gs| - 1] == groups;
    assert gs[|gs| - 1] == g;
    assert Flatten(gs) == Flatten(groups) + g;
    forall x ensures x in Flatten(gs) <==> x in Flatten(groups) || x in g {
    }
    forall k | 0 <= k <= |groups| ensures gs[..k] == groups[..k] {
      assert |gs[..k]| == |groups[..k]|;
    }
  }

  lemma NoDupConcat(s: seq<int>, t: seq<int>)
    requires NoDup(s) && NoDup(t) && Elems(s) !! Elems(t)
    ensures NoDup(s + t)
  {
    forall i, j | 0 <= i < j < |s + t| ensures (s + t)[i] != (s + t)[j] {
      if j < |s| {
      } else if i >= |s| {
        assert (s + t)[i] == t[i - |s|] && (s + t)[j] == t[j - |s|];
      } else {
        assert (s + t)[i] in Elems(s) && (s + t)[j] in Elems(t);
      }
    }
  }

  /** The first face of `list` that no group covers yet: where the outer
      `forEach` starts its next group. */
  function FirstUncovered(list: seq<int>, covered: set<int>): Option<int> {
    if list == [] then None
    else if list[0] !in covered then Some(list[0])
    else FirstUncovered(list[1..], covered)
  }

  lemma {:induction false} FirstUncoveredAt(list: seq<int>, covered: set<int>, i: nat)
    requires i < |list| && list[i] !in covered
    requires forall j :: 0 <= j < i ==> list[j] in covered
    ensures FirstUncovered(list, covered) == Some(list[i])
    decreases i
  {
    if i > 0 {
      FirstUncoveredAt(list[1..], covered, i - 1);
    }
  }

  /** `q` shares an edge, in the sense of the slot test, with some face in `group`. */
  ghost predicate ReachedFrom(buf: seq<nat>, q: int, group: seq<int>) {
    exists p :: 0 <= p < |group| && SharesEdge(buf, group[p], q)
  }

  /** What `groupAdjacentFaces` returns for an indexed geometry: non-empty
      groups that together list every distinct candidate exactly once; each
      group starts with the first candidate the earlier groups left out,
      every later member passes the slot test against an earlier member of
      its group, and no member of a later group passes it against a member
      of an earlier one. */
  ghost predicate IsGrouping(buf: seq<nat>, faceIndices: seq<int>, groups: seq<seq<int>>) {
    && NoDup(Flatten(groups))
    && Covered(groups) == Elems(faceIndices)
    && GroupsInOrder(buf, faceIndices, groups)
  }

  /** The order, connection and separation parts of `IsGrouping`. */
  ghost predicate GroupsInOrder(buf: seq<nat>, faceIndices: seq<int>, groups: seq<seq<int>>) {
    && (forall k :: 0 <= k < |groups| ==> groups[k] != [])
    && (forall k :: 0 <= k < |groups| ==>
          FirstUncovered(faceIndices, Covered(groups[..k])) == Some(groups[k][0]))
    && (forall k, m :: 0 <= k < |groups| && 0 < m < |groups[k]| ==>
          ReachedFrom(buf, groups[k][m], groups[k][..m]))
    && (forall k1, k2, g, h :: 0 <= k1 < k2 < |groups| && g in groups[k1] && h in groups[k2] ==>
          !SharesEdge(buf, g, h))
  }

  // ------------------------------------------------- reference functions

  /** The faces the inner loop pushes on the queue: the candidates, in list
      order and with their repeats, that are unprocessed and pass the slot
      test against `current`. */
  function Candidates(buf: seq<nat>, faceIndices: seq<int>, processed: set<int>, current: int): (r: seq<int>)
    ensures forall q :: q in r ==> q in faceIndices && q !in processed && SharesEdge(buf, current, q)
    ensures forall h :: h in faceIndices && h !in processed && SharesEdge(buf, current, h) ==> h in r
    ensures |r| <= |faceIndices|
    decreases |faceIndices|
  {
    if faceIndices == [] then []
    else
      var otherFace := faceIndices[0];
      assert forall h :: h in faceIndices ==> h == otherFace || h in faceIndices[1..];
      if otherFace !in processed && SharedSlots(buf, current, otherFace) >= 2 then
        [otherFace] + Candidates(buf, faceIndices[1..], processed, current)
      else Candidates(buf, faceIndices[1..], processed, current)
  }

  /** The candidates of a concatenation are those of each part, in order. */
  lemma {:induction false} CandidatesAppend(buf: seq<nat>, a: seq<int>, b: seq<int>, processed: set<int>, current: int)
    ensures Candidates(buf, a + b, processed, current)
         == Candidates(buf, a, processed, current) + Candidates(buf, b, processed, current)
    decreases |a|
  {
    if a == [] {
      assert a + b == b;
    } else {
      assert (a + b)[0] == a[0];
      assert (a + b)[1..] == a[1..] + b;
      CandidatesAppend(buf, a[1..], b, processed, current);
      var ca, cb := Candidates(buf, a[1..], processed, current), Candidates(buf, b, processed, current);
      assert [a[0]] + (ca + cb) == ([a[0]] + ca) + cb;
    }
  }

  /** Two passing candidates are pushed in list order, and a repeated one
      is pushed twice. */
  lemma CandidatesKeepOrderAndRepeats(buf: seq<nat>, x: int, y: int, processed: set<int>, current: int)
    requires x !in processed && SharesEdge(buf, current, x)
    requires y !in processed && SharesEdge(buf, current, y)
    ensures Candidates(buf, [x, y], processed, current) == [x, y]
  {
    assert [x, y][1..] == [y];
    assert [y][1..] == [];
  }

  /** The `while (queue.length > 0)` loop run to the end from the given
      processed set, queue and partial group: the finished group, in
      discovery order, and the processed set afterwards. */
  function FloodFrom(buf: seq<nat>, faceIndices: seq<int>, processed: set<int>, queue: seq<int>,
                     group: seq<int>): (seq<int>, set<int>)
    requires forall q :: q in queue ==> q in faceIndices
    decreases Elems(faceIndices) - processed, |queue|
  {
    if queue == [] then (group, processed)
    else if queue[0] in processed then FloodFrom(buf, faceIndices, processed, queue[1..], group)
    else
      var cur := queue[0];
      assert cur in Elems(faceIndices);
      var found := Candidates(buf, faceIndices, processed + {cur}, cur);
      FloodFrom(buf, faceIndices, processed + {cur}, queue[1..] + found, group + [cur])
  }

  /** The outer `forEach` over the first `n` candidates: the groups so far
      and the processed set. A flood from an unprocessed face always yields
      a non-empty group, so `group.length > 0` holds whenever it is tested. */
  function GroupsUpTo(buf: seq<nat>, faceIndices: seq<int>, n: nat): (seq<seq<int>>, set<int>)
    requires n <= |faceIndices|
  {
    if n == 0 then ([], {})
    else
      var prev := GroupsUpTo(buf, faceIndices, n - 1);
      var faceIdx := faceIndices[n - 1];
      if faceIdx in prev.1 then prev
      else
        var flood := FloodFrom(buf, faceIndices, prev.1, [faceIdx], []);
        (prev.0 + [flood.0], flood.1)
  }

  // --------------------------------------------------------------- loops

  /** The inner `for` loop (lines 93-106). */
  method AdjacentCandidates(buf: seq<nat>, faceIndices: seq<int>, processed: set<int>, current: int)
    returns (found: seq<int>)
    ensures found == Candidates(buf, faceIndices, processed, current)
    ensures forall q :: q in found ==> q in faceIndices && q !in processed && SharesEdge(buf, current, q)
    ensures forall h :: h in faceIndices && h !in processed && SharesEdge(buf, current, h) ==> h in found
  {
    found := [];
    for i := 0 to |faceIndices|
      invariant found + Candidates(buf, faceIndices[i..], processed, current)
             == Candidates(buf, faceIndices, processed, current)
    {
      assert faceIndices[i..][1..] == faceIndices[i + 1..];
      var otherFace := faceIndices[i];
      if otherFace in processed {
        continue;
      }
      if SharedSlots(buf, current, otherFace) >= 2 {
        ghost var rest := Candidates(buf, faceIndices[i + 1..], processed, current);
        assert found + ([otherFace] + rest) == (found + [otherFace]) + rest;
        found := found + [otherFace];
      }
    }
    assert found + [] == found;
  }

  /** The `while (queue.length > 0)` flood fill from `start` (lines 77-107):
      the group it builds, and the processed set afterwards. */
  method FloodGroup(buf: seq<nat>, faceIndices: seq<int>, processed0: set<int>, start: int)
    returns (group: seq<int>, processed: set<int>)
    requires start in faceIndices && start !in processed0
    ensures processed == processed0 + Elems(group)
    ensures processed0 !! Elems(group) && NoDup(group)
    ensures Elems(group) <= Elems(faceIndices)
    ensures group != [] && group[0] == start
    ensures forall m :: 0 < m < |group| ==> ReachedFrom(buf, group[m], group[..m])
    ensures forall g, h :: g in group && h in faceIndices && SharesEdge(buf, g, h) ==> h in processed
    ensures (group, processed) == FloodFrom(buf, faceIndices, processed0, [start], [])
  {
    group := [];
    processed := processed0;
    var queue := [start];
    while |queue| > 0
      invariant FloodInv(buf, faceIndices, processed0, start, group, processed, queue)
      invariant FloodFrom(buf, faceIndices, processed, queue, group) == FloodFrom(buf, faceIndices, processed0, [start], [])
      decreases Elems(faceIndices) - processed, |queue|
    {
      var currentFace := queue[0];
      if currentFace in processed {
        FloodSkip(buf, faceIndices, processed0, start, group, processed, queue);
        queue := queue[1..];
        continue;
      }
      var found := AdjacentCandidates(buf, faceIndices, processed + {currentFace}, currentFace);
      FloodAdd(buf, faceIndices, processed0, start, group, processed, queue, found);
      processed := processed + {currentFace};
      group := group + [currentFace];
      queue := queue[1..] + found;
    }
  }

  /** The invariant of the flood fill's `while` loop. */
  ghost predicate FloodInv(buf: seq<nat>, faceIndices: seq<int>, processed0: set<int>, start: int,
                           group: seq<int>, processed: set<int>, queue: seq<int>) {
    && start !in processed0
    && processed == processed0 + Elems(group)
    && processed0 !! Elems(group) && NoDup(group)
    && Elems(group) <= Elems(faceIndices)
    && (forall q :: q in queue ==> q in faceIndices)
    && (group == [] ==> queue == [start])
    && (group != [] ==> group[0] == start)
    && (forall m :: 0 < m < |group| ==> ReachedFrom(buf, group[m], group[..m]))
    && (group != [] ==> forall q :: q in queue && q !in processed ==> ReachedFrom(buf, q, group))
    && (forall g, h :: (g in group && h in faceIndices && SharesEdge(buf, g, h)) ==> h in processed || h in queue)
  }

  /** Dropping an already processed face from the queue keeps the invariant. */
  lemma FloodSkip(buf: seq<nat>, faceIndices: seq<int>, processed0: set<int>, start: int,
                  group: seq<int>, processed: set<int>, queue: seq<int>)
    requires FloodInv(buf, faceIndices, processed0, start, group, processed, queue)
    requires |queue| > 0 && queue[0] in processed
    ensures FloodInv(buf, faceIndices, processed0, start, group, processed, queue[1..])
  {
    assert group != [];
    assert forall q :: q in queue ==> q == queue[0] || q in queue[1..];
  }

  /** Taking the head of the queue into the group and enqueueing its
      unprocessed neighbours keeps the invariant. */
  lemma FloodAdd(buf: seq<nat>, faceIndices: seq<int>, processed0: set<int>, start: int,
                 group: seq<int>, processed: set<int>, queue: seq<int>, found: seq<int>)
    requires FloodInv(buf, faceIndices, processed0, start, group, processed, queue)
    requires |queue| > 0 && queue[0] !in processed
    requires forall q :: q in found ==>
      q in faceIndices && q !in processed + {queue[0]} && SharesEdge(buf, queue[0], q)
    requires forall h ::
      (h in faceIndices && h !in processed + {queue[0]} && SharesEdge(buf, queue[0], h)) ==> h in found
    ensures FloodInv(buf, faceIndices, processed0, start, group + [queue[0]], processed + {queue[0]},
                     queue[1..] + found)
  {
    var cur := queue[0];
    assert forall q :: q in queue ==> q == cur || q in queue[1..];
    assert NoDup(group + [cur]) by {
      assert cur !in group;
    }
    if group != [] {
      assert ReachedFrom(buf, cur, group);
    }
    FloodAddOrder(buf, group, cur);
    FloodAddQueue(buf, group, processed, queue, found);
    FloodAddEdges(buf, faceIndices, group, processed, queue, found);
  }

  /** Appending a face reached from the group keeps every member reached
      from the ones before it. */
  lemma FloodAddOrder(buf: seq<nat>, group: seq<int>, cur: int)
    requires forall m :: 0 < m < |group| ==> ReachedFrom(buf, group[m], group[..m])
    requires group != [] ==> ReachedFrom(buf, cur, group)
    ensures forall m :: 0 < m < |group + [cur]| ==> ReachedFrom(buf, (group + [cur])[m], (group + [cur])[..m])
  {
    var group' := group + [cur];
    GroupGrows(buf, group, cur);
    forall m | 0 < m < |group'|
      ensures ReachedFrom(buf, group'[m], group'[..m])
    {
      if m == |group| {
        assert group'[..m] == group;
      }
    }
  }

  /** Every unprocessed face in the new queue is reached from the new group. */
  lemma FloodAddQueue(buf: seq<nat>, group: seq<int>, processed: set<int>, queue: seq<int>, found: seq<int>)
    requires |queue| > 0 && (group == [] ==> |queue| == 1)
    requires group != [] ==> forall q :: q in queue && q !in processed ==> ReachedFrom(buf, q, group)
    requires forall q :: q in found ==> SharesEdge(buf, queue[0], q)
    ensures forall q :: q in queue[1..] + found && q !in processed + {queue[0]} ==>
      ReachedFrom(buf, q, group + [queue[0]])
  {
    var cur := queue[0];
    var group' := group + [cur];
    GroupGrows(buf, group, cur);
    forall q | q in queue[1..] + found && q !in processed + {cur}
      ensures ReachedFrom(buf, q, group')
    {
      if q in found {
        assert group'[|group|] == cur;
        assert SharesEdge(buf, group'[|group|], q);
      } else {
        assert q in queue && group != [];
      }
    }
  }

  /** Every neighbour of the new group is processed or queued. */
  lemma FloodAddEdges(buf: seq<nat>, faceIndices: seq<int>, group: seq<int>, processed: set<int>,
                      queue: seq<int>, found: seq<int>)
    requires |queue| > 0
    requires forall g, h :: (g in group && h in faceIndices && SharesEdge(buf, g, h)) ==> h in processed || h in queue
    requires forall h ::
      (h in faceIndices && h !in processed + {queue[0]} && SharesEdge(buf, queue[0], h)) ==> h in found
    ensures forall g, h :: (g in group + [queue[0]] && h in faceIndices && SharesEdge(buf, g, h)) ==>
      h in processed + {queue[0]} || h in queue[1..] + found
  {
    assert forall q :: q in queue ==> q == queue[0] || q in queue[1..];
  }

  lemma GroupGrows(buf: seq<nat>, group: seq<int>, x: int)
    ensures forall q :: ReachedFrom(buf, q, group) ==> ReachedFrom(buf, q, group + [x])
    ensures forall m :: 0 <= m <= |group| ==> (group + [x])[..m] == group[..m]
  {
    forall q | ReachedFrom(buf, q, group) ensures ReachedFrom(buf, q, group + [x]) {
      var p :| 0 <= p < |group| && SharesEdge(buf, group[p], q);
      assert (group + [x])[p] == group[p];
    }
  }

  /** After the outer `forEach` has visited the first `i` candidates. */
  ghost predicate GroupsSoFar(buf: seq<nat>, faceIndices: seq<int>, groups: seq<seq<int>>, processed: set<int>, i: nat) {
    && i <= |faceIndices|
    && processed == Covered(groups)
    && NoDup(Flatten(groups))
    && Covered(groups) <= Elems(faceIndices)
    && (forall j :: 0 <= j < i ==> faceIndices[j] in processed)
    && GroupsInOrder(buf, faceIndices, groups)
    && (forall g, h :: g in processed && h in faceIndices && SharesEdge(buf, g, h) ==> h in processed)
  }

  /** `groupAdjacentFaces(geometry, faceIndices)`: `[]` for a geometry
      without an index buffer, otherwise the groups in discovery order,
      which form a grouping in the sense of `IsGrouping`. */
  method GroupAdjacentFaces(index: Option<seq<nat>>, faceIndices: seq<int>) returns (groups: seq<seq<int>>)
    ensures index.None? ==> groups == []
    ensures index.Some? ==> IsGrouping(index.value, faceIndices, groups)
    ensures index.Some? ==> groups == GroupsUpTo(index.value, faceIndices, |faceIndices|).0
  {
    groups := [];
    if index.None? {
      return;
    }
    var buf := index.value;
    var processed: set<int> := {};
    for i := 0 to |faceIndices|
      invariant GroupsSoFar(buf, faceIndices, groups, processed, i)
      invariant groups == GroupsUpTo(buf, faceIndices, i).0 && processed == GroupsUpTo(buf, faceIndices, i).1
    {
      groups, processed := VisitCandidate(buf, faceIndices, groups, processed, i);
    }
    GroupsDone(buf, faceIndices, groups, processed);
  }

  /** The body of the outer `forEach` for `faceIndices[i]`: skip a face
      already grouped, otherwise flood from it and push the group. */
  method VisitCandidate(buf: seq<nat>, faceIndices: seq<int>, groups: seq<seq<int>>, processed: set<int>, i: nat)
    returns (groups': seq<seq<int>>, processed': set<int>)
    requires i < |faceIndices|
    requires GroupsSoFar(buf, faceIndices, groups, processed, i)
    requires groups == GroupsUpTo(buf, faceIndices, i).0 && processed == GroupsUpTo(buf, faceIndices, i).1
    ensures GroupsSoFar(buf, faceIndices, groups', processed', i + 1)
    ensures groups' == GroupsUpTo(buf, faceIndices, i + 1).0 && processed' == GroupsUpTo(buf, faceIndices, i + 1).1
  {
    var faceIdx := faceIndices[i];
    if faceIdx in processed {
      GroupsUpToSkip(buf, faceIndices, i);
      return groups, processed;
    }
    var group;
    group, processed' := FloodGroup(buf, faceIndices, processed, faceIdx);
    ExtendGroups(buf, faceIndices, groups, i, group, processed');
    GroupsUpToAdd(buf, faceIndices, i, group, processed');
    groups' := groups + [group];
  }

  /** A candidate already processed adds no group. */
  lemma GroupsUpToSkip(buf: seq<nat>, faceIndices: seq<int>, i: nat)
    requires i < |faceIndices| && faceIndices[i] in GroupsUpTo(buf, faceIndices, i).1
    ensures GroupsUpTo(buf, faceIndices, i + 1) == GroupsUpTo(buf, faceIndices, i)
  {
  }

  /** An unprocessed candidate adds the group its flood fill finds. */
  lemma GroupsUpToAdd(buf: seq<nat>, faceIndices: seq<int>, i: nat, group: seq<int>, processed': set<int>)
    requires i < |faceIndices| && faceIndices[i] !in GroupsUpTo(buf, faceIndices, i).1
    requires (group, processed') == FloodFrom(buf, faceIndices, GroupsUpTo(buf, faceIndices, i).1, [faceIndices[i]], [])
    ensures GroupsUpTo(buf, faceIndices, i + 1).0 == GroupsUpTo(buf, faceIndices, i).0 + [group]
    ensures GroupsUpTo(buf, faceIndices, i + 1).1 == processed'
  {
  }

  /** Once every candidate is visited the groups form a grouping. */
  lemma GroupsDone(buf: seq<nat>, faceIndices: seq<int>, groups: seq<seq<int>>, processed: set<int>)
    requires GroupsSoFar(buf, faceIndices, groups, processed, |faceIndices|)
    ensures IsGrouping(buf, faceIndices, groups)
  {
    assert forall h :: h in faceIndices ==> h in processed;
  }

  /** One new group from the flood fill keeps every part of `GroupsSoFar`. */
  lemma ExtendGroups(buf: seq<nat>, faceIndices: seq<int>, groups: seq<seq<int>>, i: nat,
                     group: seq<int>, processed': set<int>)
    requires GroupsSoFar(buf, faceIndices, groups, Covered(groups), i)
    requires i < |faceIndices| && faceIndices[i] !in Covered(groups)
    requires processed' == Covered(groups) + Elems(group)
    requires Covered(groups) !! Elems(group) && NoDup(group)
    requires Elems(group) <= Elems(faceIndices)
    requires group != [] && group[0] == faceIndices[i]
    requires forall m :: 0 < m < |group| ==> ReachedFrom(buf, group[m], group[..m])
    requires forall g, h :: g in group && h in faceIndices && SharesEdge(buf, g, h) ==> h in processed'
    ensures GroupsSoFar(buf, faceIndices, groups + [group], processed', i + 1)
  {
    FlattenAppend(groups, group);
    NoDupConcat(Flatten(groups), group);
    FirstUncoveredAt(faceIndices, Covered(groups), i);
    ExtendKeepsFirstUncovered(faceIndices, groups, group);
    ExtendKeepsReached(buf, groups, group);
    ExtendKeepsSeparated(buf, faceIndices, groups, group);
  }

  /** The new group starts at the first face the old groups leave out, so
      every group still does. */
  lemma ExtendKeepsFirstUncovered(faceIndices: seq<int>, groups: seq<seq<int>>, group: seq<int>)
    requires forall k :: 0 <= k < |groups| ==> groups[k] != []
    requires forall k :: 0 <= k < |groups| ==>
      FirstUncovered(faceIndices, Covered(groups[..k])) == Some(groups[k][0])
    requires group != [] && FirstUncovered(faceIndices, Covered(groups)) == Some(group[0])
    ensures forall k :: 0 <= k < |groups + [group]| ==>
      FirstUncovered(faceIndices, Covered((groups + [group])[..k])) == Some((groups + [group])[k][0])
  {
    var gs := groups + [group];
    forall k | 0 <= k < |gs|
      ensures FirstUncovered(faceIndices, Covered(gs[..k])) == Some(gs[k][0])
    {
      if k < |groups| {
        assert gs[..k] == groups[..k];
      } else {
        assert gs[..k] == groups;
      }
    }
  }

  /** Each later member of the new group is reached from an earlier one,
      and the old groups are unchanged. */
  lemma ExtendKeepsReached(buf: seq<nat>, groups: seq<seq<int>>, group: seq<int>)
    requires forall k, m :: 0 <= k < |groups| && 0 < m < |groups[k]| ==>
      ReachedFrom(buf, groups[k][m], groups[k][..m])
    requires forall m :: 0 < m < |group| ==> ReachedFrom(buf, group[m], group[..m])
    ensures forall k, m :: 0 <= k < |groups + [group]| && 0 < m < |(groups + [group])[k]| ==>
      ReachedFrom(buf, (groups + [group])[k][m], (groups + [group])[k][..m])
  {
    var gs := groups + [group];
    forall k, m | 0 <= k < |gs| && 0 < m < |gs[k]|
      ensures ReachedFrom(buf, gs[k][m], gs[k][..m])
    {
      if k < |groups| {
        assert gs[k] == groups[k];
      }
    }
  }

  /** The old faces are closed under the slot test and the new group lies
      outside them, so no old member links to a new one. */
  lemma ExtendKeepsSeparated(buf: seq<nat>, faceIndices: seq<int>, groups: seq<seq<int>>, group: seq<int>)
    requires forall k1, k2, g, h :: 0 <= k1 < k2 < |groups| && g in groups[k1] && h in groups[k2] ==>
      !SharesEdge(buf, g, h)
    requires forall g, h :: g in Covered(groups) && h in faceIndices && SharesEdge(buf, g, h) ==> h in Covered(groups)
    requires Covered(groups) !! Elems(group) && Elems(group) <= Elems(faceIndices)
    ensures forall k1, k2, g, h ::
      0 <= k1 < k2 < |groups + [group]| && g in (groups + [group])[k1] && h in (groups + [group])[k2] ==>
        !SharesEdge(buf, g, h)
  {
    var gs := groups + [group];
    forall k1, k2, g, h | 0 <= k1 < k2 < |gs| && g in gs[k1] && h in gs[k2]
      ensures !SharesEdge(buf, g, h)
    {
      if k2 == |groups| {
        CoveredContainsGroup(groups, k1);
        assert g in Covered(groups);
        assert h in Elems(group);
      } else {
        assert gs[k1] == groups[k1] && gs[k2] == groups[k2];
      }
    }
  }
}
