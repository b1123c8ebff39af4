/** The `useSelection` hook: a selection of mesh faces with a linear
    undo/redo history of snapshots, and the index-distance expansion
    `selectAdjacentFaces` that feeds it one batch. */
module UseSelection {
  import opened Common

  /** The hook's `Selection` value. `faces` is a JS `Set<number>`, whose
      iteration order (used by `Array.from`) is insertion order: a
      duplicate-free sequence, `delete` removes, `add` appends. */
  datatype Snapshot = Snapshot(faces: seq<int>, groupedFaces: seq<seq<int>>)

  const EmptySelection: Snapshot := Snapshot([], [])

  /** The three pieces of React state the hook owns. */
  datatype HookState = HookState(selection: Snapshot, history: seq<Snapshot>, historyIndex: int)

  /** `useState` initial values: the history starts EMPTY with index -1. */
  function Fresh(): HookState {
    HookState(EmptySelection, [], -1)
  }

  /** The bound `history.slice(0, historyIndex + 1)` and `history[newIndex]` rely on. */
  predicate IndexInRange(st: HookState) {
    -1 <= st.historyIndex < |st.history|
  }

  /** What every reachable hook state satisfies: the live selection is the
      history entry under the cursor, or the initial empty one before the
      first mutation, and no snapshot lists a face twice. */
  ghost predicate Consistent(st: HookState) {
    && IndexInRange(st)
    && (st.historyIndex == -1 <==> st.history == [])
    && (st.historyIndex >= 0 ==> st.selection == st.history[st.historyIndex])
    && (st.historyIndex == -1 ==> st.selection == EmptySelection)
    && NoDup(st.selection.faces)
    && forall k :: 0 <= k < |st.history| ==> NoDup(st.history[k].faces)
  }

  // ---------------------------------------------------------------- faces

  /** `Set.delete(x)` on an insertion-ordered set. */
  function Without(s: seq<int>, x: int): (r: seq<int>)
    ensures forall y :: y in r <==> y in s && y != x
    ensures NoDup(s) ==> NoDup(r)
    ensures |r| <= |s|
    ensures x !in s ==> r == s
  {
    if s == [] then []
    else if s[0] == x then Without(s[1..], x)
    else
      assert NoDup(s) ==> s[0] !in s[1..] by {
        if NoDup(s) { NoDupHead(s); }
      }
      [s[0]] + Without(s[1..], x)
  }

  /** In a duplicate-free set, deleting the face at position `k` keeps
      every other face in its order. */
  lemma {:induction false} WithoutAt(s: seq<int>, x: int, k: nat)
    requires NoDup(s) && k < |s| && s[k] == x
    ensures Without(s, x) == s[..k] + s[k + 1..]
    decreases k
  {
    NoDupHead(s);
    if k == 0 {
      assert Without(s, x) == Without(s[1..], x);
      assert s[..0] + s[1..] == s[1..];
    } else {
      assert s[0] != s[k];
      assert Without(s, x) == [s[0]] + Without(s[1..], x);
      NoDupTail(s);
      var t := s[1..];
      assert t[k - 1] == x;
      WithoutAt(t, x, k - 1);
      assert t[..k - 1] + t[k..] == s[1..k] + s[k + 1..];
      assert s[..k] + s[k + 1..] == [s[0]] + (s[1..k] + s[k + 1..]);
    }
  }

  /** The same, for every position the face can hold. */
  lemma WithoutKeepsOrder(s: seq<int>, x: int)
    ensures NoDup(s) ==> forall k :: 0 <= k < |s| && s[k] == x ==> Without(s, x) == s[..k] + s[k + 1..]
  {
    forall k | NoDup(s) && 0 <= k < |s| && s[k] == x
      ensures Without(s, x) == s[..k] + s[k + 1..]
    {
      WithoutAt(s, x, k);
    }
  }

  lemma NoDupTail(s: seq<int>)
    requires NoDup(s) && s != []
    ensures NoDup(s[1..])
  {
    forall i, j | 0 <= i < j < |s| - 1 ensures s[1..][i] != s[1..][j] {
      assert s[1..][i] == s[i + 1] && s[1..][j] == s[j + 1];
    }
  }

  lemma NoDupHead(s: seq<int>)
    requires NoDup(s) && s != []
    ensures s[0] !in s[1..]
  {
    forall j | 0 <= j < |s| - 1 ensures s[1..][j] != s[0] {
      assert s[1..][j] == s[j + 1];
    }
  }

  /** `Set.add(x)` on an insertion-ordered set. */
  function With(s: seq<int>, x: int): (r: seq<int>)
    ensures forall y :: y in r <==> y in s || y == x
    ensures NoDup(s) ==> NoDup(r)
    ensures |s| <= |r| <= |s| + 1 && r[..|s|] == s
  {
    if x in s then s else s + [x]
  }

  /** The body of `selectFace`: delete the face when present, add it otherwise. */
  function Toggled(s: seq<int>, f: int): (r: seq<int>)
    ensures f in r <==> f !in s
    ensures forall y :: y != f ==> (y in r <==> y in s)
    ensures NoDup(s) ==> NoDup(r)
    ensures f !in s ==> r == s + [f]
    ensures NoDup(s) ==> forall k :: 0 <= k < |s| && s[k] == f ==> r == s[..k] + s[k + 1..]
  {
    if f in s then WithoutKeepsOrder(s, f); Without(s, f) else s + [f]
  }

  /** The faces of `list` that a batch add appends after the faces in
      `seen`: those not in `seen`, each at its first occurrence, in list
      order. */
  function Added(seen: set<int>, list: seq<int>): (r: seq<int>)
    ensures forall y :: y in r <==> y in list && y !in seen
    ensures NoDup(r)
    decreases |list|
  {
    if list == [] then []
    else if list[0] in seen then Added(seen, list[1..])
    else
      assert forall y :: y in list <==> y == list[0] || y in list[1..];
      [list[0]] + Added(seen + {list[0]}, list[1..])
  }

  /** Adding one more face to the batch appends it exactly when it is new. */
  lemma {:induction false} AddedSnoc(seen: set<int>, a: seq<int>, x: int)
    ensures Added(seen, a + [x]) == Added(seen, a) + (if x in seen || x in a then [] else [x])
    decreases |a|
  {
    if a == [] {
      assert [] + [x] == [x];
      assert [x][1..] == [];
    } else {
      assert (a + [x])[0] == a[0];
      assert (a + [x])[1..] == a[1..] + [x];
      assert x in a <==> x == a[0] || x in a[1..];
      if a[0] in seen {
        AddedSnoc(seen, a[1..], x);
      } else {
        AddedSnoc(seen + {a[0]}, a[1..], x);
        var tail := if x in seen || x in a then [] else [x];
        assert [a[0]] + (Added(seen + {a[0]}, a[1..]) + tail) == ([a[0]] + Added(seen + {a[0]}, a[1..])) + tail;
      }
    }
  }

  /** `faceIndices.forEach(idx => newFaces.add(idx))`. */
  function WithAll(s: seq<int>, list: seq<int>): (r: seq<int>)
    ensures forall y :: y in r <==> y in s || y in list
    ensures NoDup(s) ==> NoDup(r)
    ensures |s| <= |r| && r[..|s|] == s
  {
    if list == [] then s else With(WithAll(s, list[..|list| - 1]), list[|list| - 1])
  }

  /** A batch add keeps the old faces in their order and then appends the
      batch's new faces in batch order, each once. */
  lemma {:induction false} WithAllAppendsAdded(s: seq<int>, list: seq<int>)
    ensures WithAll(s, list) == s + Added(Elems(s), list)
    decreases |list|
  {
    if list != [] {
      var front := list[..|list| - 1];
      var x := list[|list| - 1];
      assert list == front + [x];
      WithAllAppendsAdded(s, front);
      AddedSnoc(Elems(s), front, x);
      assert x in s + Added(Elems(s), front) <==> x in Elems(s) || x in front;
    }
  }

  // ------------------------------------------------------------ operations

  datatype Op =
    | SelectFace(face: int)
    | SelectFaces(batch: seq<int>)
    | ClearSelection
    | Undo
    | Redo

  predicate IsMutation(op: Op) {
    op.SelectFace? || op.SelectFaces? || op.ClearSelection?
  }

  /** The selection a mutation produces from the previous one. */
  function Mutated(sel: Snapshot, op: Op): Snapshot
    requires IsMutation(op)
  {
    match op
    case SelectFace(f) => Snapshot(Toggled(sel.faces, f), sel.groupedFaces)
    case SelectFaces(batch) => Snapshot(WithAll(sel.faces, batch), sel.groupedFaces)
    case ClearSelection => EmptySelection
  }

  /** `addToHistory`: drop the entries after the cursor, append a copy,
      move the cursor onto it. */
  function AddToHistory(st: HookState, snap: Snapshot): (r: HookState)
    requires IndexInRange(st)
    ensures IndexInRange(r)
  {
    var newHistory := st.history[..st.historyIndex + 1] + [snap];
    HookState(st.selection, newHistory, |newHistory| - 1)
  }

  function CanUndo(st: HookState): bool {
    st.historyIndex > 0
  }

  function CanRedo(st: HookState): bool {
    st.historyIndex < |st.history| - 1
  }

  /** One hook call, applied atomically. */
  function Step(st: HookState, op: Op): (r: HookState)
    requires IndexInRange(st)
    ensures IndexInRange(r)
  {
    match op
    case Undo =>
      if st.historyIndex > 0 then
        var newIndex := st.historyIndex - 1;
        HookState(st.history[newIndex], st.history, newIndex)
      else st
    case Redo =>
      if st.historyIndex < |st.history| - 1 then
        var newIndex := st.historyIndex + 1;
        HookState(st.history[newIndex], st.history, newIndex)
      else st
    case _ =>
      var sel := Mutated(st.selection, op);
      AddToHistory(st, sel).(selection := sel)
  }

  function Run(st: HookState, ops: seq<Op>): (r: HookState)
    requires IndexInRange(st)
    ensures IndexInRange(r)
    decreases |ops|
  {
    if ops == [] then st else Run(Step(st, ops[0]), ops[1..])
  }

  // ---------------------------------------------------------------- lemmas

  lemma ConsistentStep(st: HookState, op: Op)
    requires Consistent(st)
    ensures Consistent(Step(st, op))
  {
    if IsMutation(op) {
      var r := Step(st, op);
      forall k | 0 <= k < |r.history| ensures NoDup(r.history[k].faces) {
        if k <= st.historyIndex {
          assert r.history[k] == st.history[k];
        }
      }
    }
  }

  /** Every reachable state is consistent. */
  lemma {:induction false} ConsistentRun(st: HookState, ops: seq<Op>)
    requires Consistent(st)
    ensures Consistent(Run(st, ops))
    decreases |ops|
  {
    if ops != [] {
      ConsistentStep(st, ops[0]);
      ConsistentRun(Step(st, ops[0]), ops[1..]);
    }
  }

  lemma FreshIsConsistent()
    ensures Consistent(Fresh())
  {
  }

  /** `selectFace(f)` flips the membership of `f` and of no other face. */
  lemma SelectFaceFlipsOnly(st: HookState, f: int, g: int)
    requires IndexInRange(st)
    ensures g in Step(st, SelectFace(f)).selection.faces
        <==> (if g == f then g !in st.selection.faces else g in st.selection.faces)
  {
  }

  /** `selectFaces(list)` adds the whole batch as one union, keeps the old
      faces first and in order, and records exactly one history entry. */
  lemma SelectFacesIsOneUnion(st: HookState, batch: seq<int>)
    requires IndexInRange(st)
    ensures var r := Step(st, SelectFaces(batch));
      && Elems(r.selection.faces) == Elems(st.selection.faces) + Elems(batch)
      && r.selection.faces[..|st.selection.faces|] == st.selection.faces
      && |r.history| == st.historyIndex + 2
  {
    var r := Step(st, SelectFaces(batch));
    assert Elems(r.selection.faces) == Elems(st.selection.faces) + Elems(batch);
  }

  /** `clearSelection` empties both fields and is itself an undoable entry. */
  lemma ClearEmptiesAndRecords(st: HookState)
    requires IndexInRange(st)
    ensures var r := Step(st, ClearSelection);
      && r.selection.faces == [] && r.selection.groupedFaces == []
      && r.history[r.historyIndex] == EmptySelection
      && |r.history| == st.historyIndex + 2
  {
  }

  /** Every mutation keeps the entries up to the cursor, drops the rest,
      appends the new selection and leaves nothing to redo. */
  lemma MutationTruncatesAndAppends(st: HookState, op: Op)
    requires IndexInRange(st) && IsMutation(op)
    ensures var r := Step(st, op);
      && r.history == st.history[..st.historyIndex + 1] + [r.selection]
      && r.historyIndex == |r.history| - 1
      && !CanRedo(r)
      && (CanUndo(r) <==> st.historyIndex >= 0)
  {
  }

  /** `undo` is a no-op exactly when `canUndo` is false and otherwise
      restores the previous entry. */
  lemma UndoGuard(st: HookState)
    requires IndexInRange(st)
    ensures var r := Step(st, Undo);
      && (r != st <==> CanUndo(st))
      && (CanUndo(st) ==> r.selection == st.history[st.historyIndex - 1]
                          && r.historyIndex == st.historyIndex - 1 && r.history == st.history)
  {
  }

  /** `redo` is a no-op exactly when `canRedo` is false and otherwise
      restores the next entry. */
  lemma RedoGuard(st: HookState)
    requires IndexInRange(st)
    ensures var r := Step(st, Redo);
      && (r != st <==> CanRedo(st))
      && (CanRedo(st) ==> r.selection == st.history[st.historyIndex + 1]
                          && r.historyIndex == st.historyIndex + 1 && r.history == st.history)
  {
  }

  /** Undo followed by redo gives back the same state whenever undo was possible. */
  lemma UndoThenRedo(st: HookState)
    requires Consistent(st) && CanUndo(st)
    ensures Step(Step(st, Undo), Redo) == st
  {
  }

  /** Redo followed by undo gives back the same state whenever redo was possible. */
  lemma RedoThenUndo(st: HookState)
    requires Consistent(st) && CanRedo(st)
    ensures Step(Step(st, Redo), Undo) == st
  {
  }

  /** At the first entry undo is a no-op, so `undo(); redo()` moves FORWARD:
      after two toggles and one undo, undo-then-redo changes the state. */
  lemma UndoThenRedoAtFirstEntry()
    ensures var st := Run(Fresh(), [SelectFace(1), SelectFace(2), Undo]);
      && Consistent(st)
      && Step(Step(st, Undo), Redo) != st
  {
    var s1 := Step(Fresh(), SelectFace(1));
    var s2 := Step(s1, SelectFace(2));
    var s3 := Step(s2, Undo);
    assert s1.selection.faces == [1];
    assert s3.historyIndex == 0;
    assert Run(Fresh(), [SelectFace(1), SelectFace(2), Undo]) == s3 by {
      assert [SelectFace(1), SelectFace(2), Undo][1..] == [SelectFace(2), Undo];
      assert [SelectFace(2), Undo][1..] == [Undo];
    }
    ConsistentRun(Fresh(), [SelectFace(1), SelectFace(2), Undo]);
    assert Step(Step(s3, Undo), Redo).historyIndex == 1;
  }

  /** From a fresh hook the first mutation lands at index 0, where undo is
      a no-op: the selection from before it cannot be brought back. */
  lemma FirstMutationCannotBeUndone(op: Op)
    requires IsMutation(op)
    ensures var r := Step(Fresh(), op);
      && r.historyIndex == 0 && |r.history| == 1
      && !CanUndo(r) && Step(r, Undo) == r
  {
  }

  /** After the first mutation no later call ever moves the cursor back
      before it or replaces the entry it recorded. */
  lemma {:induction false} FirstEntryIsFloor(st: HookState, ops: seq<Op>)
    requires Consistent(st) && st.historyIndex >= 0
    ensures var r := Run(st, ops);
      && r.historyIndex >= 0 && |r.history| > 0 && r.history[0] == st.history[0]
    decreases |ops|
  {
    if ops != [] {
      var s := Step(st, ops[0]);
      ConsistentStep(st, ops[0]);
      assert s.history[0] == st.history[0];
      FirstEntryIsFloor(s, ops[1..]);
    }
  }

  /** Toggling the same face twice gives back the same set of faces
      (possibly in another insertion order) and records two entries. */
  lemma ToggleTwice(st: HookState, f: int)
    requires IndexInRange(st)
    ensures var r := Step(Step(st, SelectFace(f)), SelectFace(f));
      && Elems(r.selection.faces) == Elems(st.selection.faces)
      && |r.history| == st.historyIndex + 3
  {
    var r := Step(Step(st, SelectFace(f)), SelectFace(f));
    forall g ensures g in r.selection.faces <==> g in st.selection.faces {
      SelectFaceFlipsOnly(st, f, g);
      SelectFaceFlipsOnly(Step(st, SelectFace(f)), f, g);
    }
  }

  lemma RunCons(st: HookState, op: Op, ops: seq<Op>)
    requires IndexInRange(st)
    ensures Run(st, [op] + ops) == Run(Step(st, op), ops)
  {
    assert ([op] + ops)[1..] == ops;
  }

  /** Five calls in a row are the five steps in turn. */
  lemma RunFive(st: HookState, ops: seq<Op>)
    requires IndexInRange(st) && |ops| == 5
    ensures Run(st, ops)
         == Step(Step(Step(Step(Step(st, ops[0]), ops[1]), ops[2]), ops[3]), ops[4])
  {
    var s1 := Step(st, ops[0]);
    var s2 := Step(s1, ops[1]);
    var s3 := Step(s2, ops[2]);
    var s4 := Step(s3, ops[3]);
    assert ops[1..][1..] == ops[2..];
    assert ops[2..][1..] == ops[3..];
    assert ops[3..][1..] == ops[4..];
    assert ops[4..][1..] == [];
    assert Run(s4, ops[4..]) == Run(Step(s4, ops[4]), []);
    assert Run(s3, ops[3..]) == Run(s4, ops[4..]);
    assert Run(s2, ops[2..]) == Run(s3, ops[3..]);
    assert Run(s1, ops[1..]) == Run(s2, ops[2..]);
  }

  /** Three mutations from the initial state record exactly their three
      selections, with the cursor on the last. */
  lemma ThreeMutationsRecord(o1: Op, o2: Op, o3: Op)
    requires IsMutation(o1) && IsMutation(o2) && IsMutation(o3)
    ensures var s1 := Step(Fresh(), o1);
      var s2 := Step(s1, o2);
      var s3 := Step(s2, o3);
      s3.history == [s1.selection, s2.selection, s3.selection] && s3.historyIndex == 2
  {
    var s1 := Step(Fresh(), o1);
    MutationTruncatesAndAppends(Fresh(), o1);
    assert s1.history == [s1.selection];
    var s2 := Step(s1, o2);
    MutationTruncatesAndAppends(s1, o2);
    assert s2.history == [s1.selection, s2.selection];
    var s3 := Step(s2, o3);
    MutationTruncatesAndAppends(s2, o3);
  }

  /** Three mutations and two undos leave the selection of the first. */
  lemma ThreeMutationsTwoUndos(o1: Op, o2: Op, o3: Op)
    requires IsMutation(o1) && IsMutation(o2) && IsMutation(o3)
    ensures Run(Fresh(), [o1, o2, o3, Undo, Undo]).selection == Step(Fresh(), o1).selection
  {
    var s1 := Step(Fresh(), o1);
    var s3 := Step(Step(s1, o2), o3);
    ThreeMutationsRecord(o1, o2, o3);
    UndoGuard(s3);
    var s4 := Step(s3, Undo);
    UndoGuard(s4);
    RunFive(Fresh(), [o1, o2, o3, Undo, Undo]);
  }

  /** Three toggles and two undos leave the selection of the first toggle. */
  lemma ThreeTogglesTwoUndos(a: int, b: int, c: int)
    ensures Run(Fresh(), [SelectFace(a), SelectFace(b), SelectFace(c), Undo, Undo]).selection
         == Step(Fresh(), SelectFace(a)).selection
  {
    ThreeMutationsTwoUndos(SelectFace(a), SelectFace(b), SelectFace(c));
  }

  // ---------------------------------------- selectAdjacentFaces expansion

  /** The hard cap `selected.length < 100`. */
  const MaxExpansion: nat := 100

  function IndexDistance(i: int, j: int): nat {
    if i >= j then i - j else j - i
  }

  /** `0 <= i < index.count / 3` for an index buffer of `count` entries. */
  predicate IsFaceIndex(i: int, count: nat) {
    0 <= i && 3 * i < count
  }

  /** `q` lies within `radius` index-distance of some face in `s`. */
  ghost predicate NearSome(q: int, s: seq<int>, radius: int) {
    exists j :: 0 <= j < |s| && IndexDistance(q, s[j]) <= radius
  }

  /** What `selectAdjacentFaces` passes to `selectFaces`: at most 100
      distinct faces starting with `start`, every later one a face of the
      mesh within `radius` index-distance of a face taken before it, and,
      when the cap is not reached, every face of the mesh within `radius`
      of a selected face. */
  ghost predicate IsIndexExpansion(count: nat, start: int, radius: int, selected: seq<int>) {
    && 1 <= |selected| <= MaxExpansion
    && selected[0] == start
    && NoDup(selected)
    && (forall k :: 1 <= k < |selected| ==>
          IsFaceIndex(selected[k], count) && NearSome(selected[k], selected[..k], radius))
    && (|selected| < MaxExpansion ==>
          forall s, i :: s in selected && IsFaceIndex(i, count) && IndexDistance(i, s) <= radius
            ==> i in selected)
  }

  /** The faces from `i` on that the inner loop pushes: those of the mesh,
      in increasing index order, that are not yet processed, differ from
      `currentFace` and lie within `radius` of it; nothing at all once the cap
      is reached (`room` is `selected.length < 100`). */
  function NearFrom(count: nat, currentFace: int, processed: set<int>, radius: int, room: bool, i: nat): (r: seq<int>)
    ensures !room ==> r == []
    ensures forall q :: q in r ==>
      i <= q && IsFaceIndex(q, count) && q !in processed && q != currentFace
      && IndexDistance(q, currentFace) <= radius
    ensures room ==> forall j ::
      (i <= j && IsFaceIndex(j, count) && j !in processed && j != currentFace
       && IndexDistance(j, currentFace) <= radius) ==> j in r
    decreases count - 3 * i
  {
    if 3 * i >= count then []
    else if i != currentFace && i !in processed && IndexDistance(i, currentFace) <= radius && room then
      [i] + NearFrom(count, currentFace, processed, radius, room, i + 1)
    else NearFrom(count, currentFace, processed, radius, room, i + 1)
  }

  predicate Increasing(s: seq<int>) {
    forall a, b :: 0 <= a < b < |s| ==> s[a] < s[b]
  }

  /** The faces are pushed in strictly increasing index order. */
  lemma {:induction false} NearFromIncreasing(count: nat, currentFace: int, processed: set<int>, radius: int,
                                              room: bool, i: nat)
    ensures Increasing(NearFrom(count, currentFace, processed, radius, room, i))
    decreases count - 3 * i
  {
    if 3 * i < count {
      NearFromIncreasing(count, currentFace, processed, radius, room, i + 1);
      var rest := NearFrom(count, currentFace, processed, radius, room, i + 1);
      if i != currentFace && i !in processed && IndexDistance(i, currentFace) <= radius && room {
        var r := [i] + rest;
        forall a, b | 0 <= a < b < |r| ensures r[a] < r[b] {
          assert r[b] == rest[b - 1];
          if a > 0 {
            assert r[a] == rest[a - 1];
          } else {
            assert rest[b - 1] in rest;
          }
        }
      }
    }
  }

  /** The breadth-first loop of `selectAdjacentFaces` run to the end from
      the given processed set, queue and partial selection. */
  function Expansion(count: nat, radius: int, processed: set<int>, toProcess: seq<int>, selected: seq<int>): seq<int>
    decreases MaxExpansion - |selected|, |toProcess|
  {
    if toProcess == [] || |selected| >= MaxExpansion then selected
    else if toProcess[0] in processed then Expansion(count, radius, processed, toProcess[1..], selected)
    else
      var cur := toProcess[0];
      var found := NearFrom(count, cur, processed + {cur}, radius, |selected| + 1 < MaxExpansion, 0);
      Expansion(count, radius, processed + {cur}, toProcess[1..] + found, selected + [cur])
  }

  /** The inner `for` loop of `selectAdjacentFaces` (lines 133-142). */
  method FacesWithinRadius(count: nat, currentFace: int, processed: set<int>, radius: int, room: bool)
    returns (found: seq<int>)
    ensures found == NearFrom(count, currentFace, processed, radius, room, 0)
    ensures !room ==> found == []
    ensures forall q :: q in found ==>
      IsFaceIndex(q, count) && q !in processed && q != currentFace
      && IndexDistance(q, currentFace) <= radius
    ensures room ==> forall i ::
      (IsFaceIndex(i, count) && i !in processed && i != currentFace
       && IndexDistance(i, currentFace) <= radius) ==> i in found
  {
    found := [];
    var i := 0;
    while 3 * i < count
      invariant 0 <= i
      invariant found + NearFrom(count, currentFace, processed, radius, room, i)
             == NearFrom(count, currentFace, processed, radius, room, 0)
      decreases count - 3 * i
    {
      if i == currentFace || i in processed {
        i := i + 1;
        continue;
      }
      var distance := IndexDistance(i, currentFace);
      if distance <= radius && room {
        ghost var rest := NearFrom(count, currentFace, processed, radius, room, i + 1);
        assert found + ([i] + rest) == (found + [i]) + rest;
        found := found + [i];
      }
      i := i + 1;
    }
    assert found + [] == found;
  }

  /** The invariant of the breadth-first loop of `selectAdjacentFaces`. */
  ghost predicate ExpandInv(count: nat, start: int, radius: int, processed: set<int>,
                            toProcess: seq<int>, selected: seq<int>) {
    && processed == Elems(selected) && NoDup(selected)
    && |selected| <= MaxExpansion
    && (|selected| == 0 ==> toProcess == [start])
    && (|selected| > 0 ==> selected[0] == start)
    && (forall k :: 1 <= k < |selected| ==>
          IsFaceIndex(selected[k], count) && NearSome(selected[k], selected[..k], radius))
    && (|selected| > 0 ==> forall q :: q in toProcess && q !in processed ==>
          IsFaceIndex(q, count) && NearSome(q, selected, radius))
    && (|selected| < MaxExpansion ==>
          forall s, i :: s in processed && IsFaceIndex(i, count) && IndexDistance(i, s) <= radius
            ==> i in processed || i in toProcess)
  }

  /** The breadth-first `while` loop of `selectAdjacentFaces` (lines 121-143);
      the neighbour relation is the index distance `|i - j| <= radius`. */
  method ExpandByIndexDistance(count: nat, start: int, radius: int) returns (selected: seq<int>)
    ensures IsIndexExpansion(count, start, radius, selected)
    ensures selected == Expansion(count, radius, {}, [start], [])
  {
    var processed: set<int> := {};
    var toProcess: seq<int> := [start];
    selected := [];
    while |toProcess| > 0 && |selected| < MaxExpansion
      invariant ExpandInv(count, start, radius, processed, toProcess, selected)
      invariant Expansion(count, radius, processed, toProcess, selected) == Expansion(count, radius, {}, [start], [])
      decreases MaxExpansion - |selected|, |toProcess|
    {
      var currentFace := toProcess[0];
      if currentFace in processed {
        ExpandSkip(count, start, radius, processed, toProcess, selected);
        toProcess := toProcess[1..];
        continue;
      }
      var found := FacesWithinRadius(count, currentFace, processed + {currentFace}, radius,
                                     |selected| + 1 < MaxExpansion);
      ExpandAdd(count, start, radius, processed, toProcess, selected, found);
      processed := processed + {currentFace};
      selected := selected + [currentFace];
      toProcess := toProcess[1..] + found;
    }
    ExpandDone(count, start, radius, processed, toProcess, selected);
  }

  /** Dropping an already processed face from the queue keeps the invariant. */
  lemma ExpandSkip(count: nat, start: int, radius: int, processed: set<int>,
                   toProcess: seq<int>, selected: seq<int>)
    requires ExpandInv(count, start, radius, processed, toProcess, selected)
    requires |toProcess| > 0 && toProcess[0] in processed
    ensures ExpandInv(count, start, radius, processed, toProcess[1..], selected)
  {
    assert |selected| > 0;
    assert forall q :: q in toProcess ==> q == toProcess[0] || q in toProcess[1..];
  }

  /** Taking the head of the queue and enqueueing its unprocessed
      neighbours keeps the invariant. */
  lemma ExpandAdd(count: nat, start: int, radius: int, processed: set<int>,
                  toProcess: seq<int>, selected: seq<int>, found: seq<int>)
    requires ExpandInv(count, start, radius, processed, toProcess, selected)
    requires |toProcess| > 0 && toProcess[0] !in processed && |selected| < MaxExpansion
    requires var cur := toProcess[0];
      && (forall q :: q in found ==>
            IsFaceIndex(q, count) && q !in processed + {cur} && q != cur && IndexDistance(q, cur) <= radius)
      && (|selected| + 1 < MaxExpansion ==> forall i ::
            (IsFaceIndex(i, count) && i !in processed + {cur} && i != cur
             && IndexDistance(i, cur) <= radius) ==> i in found)
    ensures ExpandInv(count, start, radius, processed + {toProcess[0]}, toProcess[1..] + found,
                      selected + [toProcess[0]])
  {
    var cur := toProcess[0];
    var sel' := selected + [cur];
    var proc' := processed + {cur};
    var queue' := toProcess[1..] + found;
    ExtendPreservesHistory(selected, cur, radius);
    assert forall q :: q in toProcess ==> q == cur || q in toProcess[1..];
    if |selected| > 0 {
      assert IsFaceIndex(cur, count) && NearSome(cur, selected, radius);
    }
    assert NoDup(sel') by {
      assert cur !in selected;
    }
    forall k | 1 <= k < |sel'|
      ensures IsFaceIndex(sel'[k], count) && NearSome(sel'[k], sel'[..k], radius)
    {
      if k == |selected| {
        assert sel'[..k] == selected;
      }
    }
    forall q | q in queue' && q !in proc'
      ensures IsFaceIndex(q, count) && NearSome(q, sel', radius)
    {
      if q in found {
        assert sel'[|selected|] == cur;
        assert IndexDistance(q, sel'[|selected|]) <= radius;
      }
    }
  }

  /** When the loop stops its result is an index expansion. */
  lemma ExpandDone(count: nat, start: int, radius: int, processed: set<int>,
                   toProcess: seq<int>, selected: seq<int>)
    requires ExpandInv(count, start, radius, processed, toProcess, selected)
    requires !(|toProcess| > 0 && |selected| < MaxExpansion)
    ensures IsIndexExpansion(count, start, radius, selected)
  {
  }

  /** Appending a face that is near some earlier face keeps the "each face
      near an earlier one" property and the nearness of everything queued. */
  lemma ExtendPreservesHistory(selected: seq<int>, x: int, radius: int)
    ensures forall q :: NearSome(q, selected, radius) ==> NearSome(q, selected + [x], radius)
    ensures (selected + [x])[..|selected|] == selected
    ensures forall k :: 0 <= k < |selected| ==> (selected + [x])[..k] == selected[..k]
  {
    forall q | NearSome(q, selected, radius) ensures NearSome(q, selected + [x], radius) {
      var j :| 0 <= j < |selected| && IndexDistance(q, selected[j]) <= radius;
      assert (selected + [x])[j] == selected[j];
    }
  }

  // ------------------------------------------------------------ the hook

  class SelectionHook {
    var selection: Snapshot
    var history: seq<Snapshot>
    var historyIndex: int

    function State(): HookState
      reads this
    {
      HookState(selection, history, historyIndex)
    }

    ghost predicate Valid()
      reads this
    {
      Consistent(State())
    }

    constructor ()
      ensures Valid() && State() == Fresh()
    {
      selection := EmptySelection;
      history := [];
      historyIndex := -1;
    }

    /** `addToHistory`: the live selection itself is set by the caller. */
    method AddToHistory(newSelection: Snapshot)
      requires IndexInRange(State())
      modifies this
      ensures selection == old(selection)
      ensures history == old(history)[..old(historyIndex) + 1] + [newSelection]
      ensures historyIndex == |history| - 1
    {
      var newHistory := history[..historyIndex + 1];
      newHistory := newHistory + [newSelection];
      history := newHistory;
      historyIndex := |newHistory| - 1;
    }

    method SelectFace(faceIndex: int)
      requires Valid()
      modifies this
      ensures Valid() && State() == Step(old(State()), Op.SelectFace(faceIndex))
    {
      var newFaces := selection.faces;
      if faceIndex in newFaces {
        newFaces := Without(newFaces, faceIndex);
      } else {
        newFaces := newFaces + [faceIndex];
      }
      var newSelection := Snapshot(newFaces, selection.groupedFaces);
      ConsistentStep(State(), Op.SelectFace(faceIndex));
      AddToHistory(newSelection);
      selection := newSelection;
    }

    method SelectFaces(faceIndices: seq<int>)
      requires Valid()
      modifies this
      ensures Valid() && State() == Step(old(State()), Op.SelectFaces(faceIndices))
    {
      var newFaces := selection.faces;
      for i := 0 to |faceIndices|
        invariant newFaces == WithAll(selection.faces, faceIndices[..i])
      {
        assert faceIndices[..i + 1][..i] == faceIndices[..i];
        if faceIndices[i] !in newFaces {
          newFaces := newFaces + [faceIndices[i]];
        }
      }
      assert faceIndices[..|faceIndices|] == faceIndices;
      var newSelection := Snapshot(newFaces, selection.groupedFaces);
      ConsistentStep(State(), Op.SelectFaces(faceIndices));
      AddToHistory(newSelection);
      selection := newSelection;
    }

    method ClearSelection()
      requires Valid()
      modifies this
      ensures Valid() && State() == Step(old(State()), Op.ClearSelection)
    {
      var newSelection := Snapshot([], []);
      ConsistentStep(State(), Op.ClearSelection);
      AddToHistory(newSelection);
      selection := newSelection;
    }

    method Undo()
      requires Valid()
      modifies this
      ensures Valid() && State() == Step(old(State()), Op.Undo)
    {
      ConsistentStep(State(), Op.Undo);
      if historyIndex > 0 {
        var newIndex := historyIndex - 1;
        historyIndex := newIndex;
        selection := history[newIndex];
      }
    }

    method Redo()
      requires Valid()
      modifies this
      ensures Valid() && State() == Step(old(State()), Op.Redo)
    {
      ConsistentStep(State(), Op.Redo);
      if historyIndex < |history| - 1 {
        var newIndex := historyIndex + 1;
        historyIndex := newIndex;
        selection := history[newIndex];
      }
    }

    /** `selectAdjacentFaces(geometry, start, radius)`: nothing without an
        index buffer, otherwise one `selectFaces` call with the expansion. */
    method SelectAdjacentFaces(index: Option<seq<nat>>, startFaceIndex: int, radius: int)
      returns (selected: seq<int>)
      requires Valid()
      modifies this
      ensures Valid()
      ensures index.None? ==> State() == old(State())
      ensures index.Some? ==>
        IsIndexExpansion(|index.value|, startFaceIndex, radius, selected)
        && selected == Expansion(|index.value|, radius, {}, [startFaceIndex], [])
        && State() == Step(old(State()), Op.SelectFaces(selected))
    {
      selected := [];
      if index.None? {
        return;
      }
      selected := ExpandByIndexDistance(|index.value|, startFaceIndex, radius);
      SelectFaces(selected);
    }
  }
}
