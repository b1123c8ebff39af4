# 3d-Viewer: a Dafny model of face selection, measurement and annotation

3d-Viewer is a web application for dental 3-D models (STL and PLY meshes).
On the model page (`Visualizador`) a clinician can do three things:

- select mesh faces, with undo and redo, and save them as a named selection;
- measure the distance between two clicked points;
- drop text annotations on the mesh.

This project models the page's core in Dafny and proves properties of that model:

| Module | Models |
|---|---|
| `UseSelection` | The `useSelection` hook. It holds the live face set and a selection history with a cursor. The module covers toggling, batch union, clear, undo and redo, and the bounded "adjacent" expansion by face-index distance. |
| `AdjacencyGrouping` | The hook's `groupAdjacentFaces`. This is a flood fill over the candidate faces. Two faces are joined when at least two corner slots of one triangle match a corner of the other. |
| `SelectableModel` | The `SelectableModel` component. It splits the triangle index buffer into selected and unselected geometry. It also resolves which face a click hit, with a fallback search by vertex, and decides which callbacks a click fires. |
| `MeasureGesture` | The two-point gesture shared by both viewers. The first click stores A. The second click delivers (A, B) and resets. Switching measure mode on clears both points. |
| `Viewer3D` | The plain viewer: it picks the loader from the URL suffix and sends each mesh click to one callback. |
| `Viewer3DWithSelection` | The viewer the page uses. It has its own selection hook and measurement points. It highlights the live selection together with every saved one, forwards face clicks, and chooses when the orbit controls are enabled. |
| `Visualizador` | The page. It covers the mode buttons, the model URL, and the lists of measurements, annotations and saved selections with their create and delete handlers. The page also has a second selection hook of its own. |
| `AnotacaoTool`, `SelecaoTool` | The annotation form and the selection panel: their form state, their save requests and when their buttons are disabled. |
| `MedicaoService`, `Storage` | Two back-end services. `MedicaoService` is the distance between two points. `Storage` covers the file-name helpers: extension check, unique name and public URL. |
| `Records` | The records all of the above exchange. |
| `Common` | Option, points, duplicate-free sequences and ASCII lower-casing. |

How the front end's state is modelled:

- A component's state becomes a class.
- Its handlers become methods. Each method's `ensures` gives the whole new state. For the selection hook, that new state is a pure step function applied to the old state.
- The lemmas are about those step functions.
- A JavaScript `Set` becomes a duplicate-free `seq` in insertion order. The order matters because `Array.from(selection.faces)` is what gets saved.
- A Three.js index buffer becomes a `seq<nat>`. `getX` past its end gives `None`, and (like `undefined === undefined` in JavaScript) two `None`s match.
- Whatever the network, `alert` or `confirm` would return becomes a method parameter:
  - `created: Option<record>`: the stored record, or `None` when the request threw;
  - `deleted` or `succeeded`: a `bool`.

Where the system's written design and the code differ, the model follows the code:

- **Initial history.** The design says the initial empty selection is history entry 0. The code starts with an empty history and cursor -1 (useSelection.ts:20-21). So the first mutation can never be undone: `FirstMutationCannotBeUndone`.
- **Undo then redo.** The design says undo followed by redo changes nothing after any mutation. At history index 0, undo is refused but redo still moves forward, so the pair changes the selection: `UndoThenRedoAtFirstEntry`. It does hold whenever undo is possible: `UndoThenRedo`.
- **Adjacency symmetry.** The design says adjacency is symmetric. The "two of my slots match your corners" test is symmetric only for triangles with three different corners: `SharesEdgeSymmetric` and `SharesEdgeAsymmetricOnDegenerateFace`.
- **Face budget.** The design gives the grouper a face budget. `groupAdjacentFaces` has none; only `selectAdjacentFaces` stops at 100 faces.
- **Two selections.** Both the page and the viewer call `useSelection`. A face click toggles the face in both. The sidebar's clear, undo and redo reach only the page's copy, while the highlight shows the viewer's copy, so the two drift apart: `SidebarClearLeavesViewerBehind`, `Visualizador.Page.SidebarAction`.

## Model

| member | source | states |
|---|---|---|
| Common.Lower | frontend/src/components/Viewer3D.tsx:34 | Lower-casing keeps the length and maps each character through the ASCII letter rule. |
| Common.LastChars | frontend/src/components/Viewer3D.tsx:34 | `slice(-4)` yields the whole string when it is shorter than 4 and otherwise its last 4 characters. In both cases the result is a suffix of the input. |
| UseSelection.Without | frontend/src/hooks/useSelection.ts:37-38 | Deleting a face leaves exactly the other faces, keeps the set duplicate-free, and leaves the set unchanged when the face is absent. |
| UseSelection.WithoutAt | frontend/src/hooks/useSelection.ts:37-38 | In a duplicate-free set, deleting the face at position `k` gives the faces before `k` followed by those after it, so the rest keep their order. |
| UseSelection.WithoutKeepsOrder | frontend/src/hooks/useSelection.ts:37-38 | The same for every position the face holds. |
| UseSelection.With | frontend/src/hooks/useSelection.ts:39 | `Set.add` holds exactly the old faces and the new one, stays duplicate-free, keeps the old faces first in their order and grows by at most one. |
| UseSelection.Toggled | frontend/src/hooks/useSelection.ts:35-40 | The toggle and the order it leaves:<br>- The toggled face is present exactly when it was absent before.<br>- Every other face keeps its membership, and the set stays duplicate-free.<br>- A new face is appended at the end.<br>- A deleted face is cut out at its position, the rest keeping their order. |
| UseSelection.WithAll | frontend/src/hooks/useSelection.ts:48-50 | Adding a batch gives the union of both sets, with the old faces first in their order and no duplicates. |
| UseSelection.Added | frontend/src/hooks/useSelection.ts:48-50 | The faces a batch adds, as a head-first reference: exactly the batch's faces not already present, duplicate-free. Each is kept at its first occurrence, in batch order. |
| UseSelection.AddedSnoc | frontend/src/hooks/useSelection.ts:48-50 | One more face at the end of the batch is appended exactly when it is neither present nor earlier in the batch. |
| UseSelection.WithAllAppendsAdded | frontend/src/hooks/useSelection.ts:48-50 | A batch add is exactly the old faces in their order followed by `Added` of the batch. |
| UseSelection.Mutated | frontend/src/hooks/useSelection.ts:33-61 | No contract of its own: `SelectFaceFlipsOnly`, `SelectFacesIsOneUnion` and `ClearEmptiesAndRecords` state what each of the three mutations makes of the selection. |
| UseSelection.AddToHistory | frontend/src/hooks/useSelection.ts:23-31 | Recording a snapshot leaves the cursor within the history. |
| UseSelection.Step | frontend/src/hooks/useSelection.ts:33-168 | Every hook call keeps the cursor between -1 and the last history entry. |
| UseSelection.Run | frontend/src/hooks/useSelection.ts:23-168 | A sequence of hook calls keeps the cursor between -1 and the last history entry; `ConsistentRun` and `FirstEntryIsFloor` state what it preserves. |
| UseSelection.CanUndo | frontend/src/hooks/useSelection.ts:179 | No contract of its own: `UndoGuard` shows it holds exactly when undo changes the state. |
| UseSelection.CanRedo | frontend/src/hooks/useSelection.ts:180 | No contract of its own: `RedoGuard` shows it holds exactly when redo changes the state. |
| UseSelection.ConsistentStep | frontend/src/hooks/useSelection.ts:23-168 | Each hook call preserves the invariant that the live selection equals the history entry under the cursor (or is empty before the first mutation). |
| UseSelection.ConsistentRun | frontend/src/hooks/useSelection.ts:23-168 | Any sequence of hook calls preserves that invariant. |
| UseSelection.FreshIsConsistent | frontend/src/hooks/useSelection.ts:15-21 | The initial state (empty selection, empty history, cursor -1) satisfies the invariant. |
| UseSelection.SelectFaceFlipsOnly | frontend/src/hooks/useSelection.ts:33-45 | Toggling a face flips that face's membership and leaves every other face as it was. |
| UseSelection.SelectFacesIsOneUnion | frontend/src/hooks/useSelection.ts:47-55 | A batch select makes the selection the union of old and new faces and records it as one history entry. |
| UseSelection.ClearEmptiesAndRecords | frontend/src/hooks/useSelection.ts:57-61 | Clearing empties the selection and records the empty set as a new undoable entry. |
| UseSelection.MutationTruncatesAndAppends | frontend/src/hooks/useSelection.ts:23-31 | A mutation discards the redo future, appends the new snapshot and moves the cursor onto it. |
| UseSelection.UndoGuard | frontend/src/hooks/useSelection.ts:148-157 | Undo changes the state exactly when `canUndo` holds, and it then restores the previous entry. |
| UseSelection.RedoGuard | frontend/src/hooks/useSelection.ts:159-168 | Redo changes the state exactly when `canRedo` holds, and it then restores the next entry. |
| UseSelection.UndoThenRedo | frontend/src/hooks/useSelection.ts:148-168 | When undo is possible, undo followed by redo returns to the same state. |
| UseSelection.RedoThenUndo | frontend/src/hooks/useSelection.ts:148-168 | When redo is possible, redo followed by undo returns to the same state. |
| UseSelection.UndoThenRedoAtFirstEntry | frontend/src/hooks/useSelection.ts:149-160 | At index 0 with a future entry, undo does nothing but redo advances, so the pair changes the selection. |
| UseSelection.FirstMutationCannotBeUndone | frontend/src/hooks/useSelection.ts:20-21 | After the very first mutation, undo is disabled and leaves the selection in place. |
| UseSelection.FirstEntryIsFloor | frontend/src/hooks/useSelection.ts:23-168 | Once something is recorded, no later sequence of calls moves the cursor back to -1 or replaces the first recorded entry. |
| UseSelection.ToggleTwice | frontend/src/hooks/useSelection.ts:33-45 | Toggling a face twice restores the set of faces (its insertion order can change) and leaves two new entries after the cursor's old position. |
| UseSelection.ThreeMutationsTwoUndos | frontend/src/hooks/useSelection.ts:33-157 | Any three mutations from the initial state followed by two undos leave the selection of the first mutation. |
| UseSelection.ThreeMutationsRecord | frontend/src/hooks/useSelection.ts:15-30 | Three mutations from the initial state record exactly their three selections, with the cursor on the last. |
| UseSelection.ThreeTogglesTwoUndos | frontend/src/hooks/useSelection.ts:33-157 | Three toggles and two undos leave the state after the first toggle. |
| UseSelection.NearFrom | frontend/src/hooks/useSelection.ts:134-142 | The faces from a given index on that the inner loop pushes: each is a face of the mesh within `radius` of the current face, unprocessed and not the face itself; below the budget every such face is there, and at the budget none is. |
| UseSelection.NearFromIncreasing | frontend/src/hooks/useSelection.ts:134-142 | The faces are pushed in strictly increasing index order. |
| UseSelection.FacesWithinRadius | frontend/src/hooks/useSelection.ts:133-142 | The loop pushes exactly the faces of `NearFrom` from index 0, in that order: the faces within `radius` of the current face that are unprocessed and not the face itself, while `selected` is below the budget. |
| UseSelection.Expansion | frontend/src/hooks/useSelection.ts:125-143 | No contract of its own: the breadth-first loop run to the end from a given queue and selection, with each step's pushed faces given by `NearFrom`. `ExpandByIndexDistance` is proved to return it. |
| UseSelection.ExpandByIndexDistance | frontend/src/hooks/useSelection.ts:121-143 | The expansion has these properties:<br>- It starts at the start face, has no duplicates and holds at most 100 faces.<br>- Every later face is a face of the mesh within `radius` of an earlier one.<br>- Below the cap, it contains every face of the mesh within `radius` of a face it holds.<br>- It is exactly `Expansion` from the queue `[start]`, so its order is the breadth-first discovery order. |
| UseSelection.SelectionHook.constructor | frontend/src/hooks/useSelection.ts:15-21 | The hook starts with an empty selection, an empty history and index -1. |
| UseSelection.SelectionHook.AddToHistory | frontend/src/hooks/useSelection.ts:23-31 | The hook's history and index become those of the `AddToHistory` step. |
| UseSelection.SelectionHook.SelectFace | frontend/src/hooks/useSelection.ts:33-45 | The hook's state becomes the toggle step applied to the old state. |
| UseSelection.SelectionHook.SelectFaces | frontend/src/hooks/useSelection.ts:47-55 | The loop adding each face yields the union step on the old state. |
| UseSelection.SelectionHook.ClearSelection | frontend/src/hooks/useSelection.ts:57-61 | The hook's state becomes the clear step applied to the old state. |
| UseSelection.SelectionHook.Undo | frontend/src/hooks/useSelection.ts:148-157 | The hook's state becomes the undo step applied to the old state. |
| UseSelection.SelectionHook.Redo | frontend/src/hooks/useSelection.ts:159-168 | The hook's state becomes the redo step applied to the old state. |
| UseSelection.SelectionHook.SelectAdjacentFaces | frontend/src/hooks/useSelection.ts:117-146 | Without an index nothing changes. Otherwise the expansion, exactly `Expansion` from the start face, is unioned into the selection as one batch select. |
| AdjacencyGrouping.SharedSlots | frontend/src/hooks/useSelection.ts:97-102 | The number of the other face's slots matching a corner of the current face is at most 3. By `SharedSlotsCountsCommonVertices` it is exactly the number of common corners when both triangles have three different corners. |
| AdjacencyGrouping.SharesEdge | frontend/src/hooks/useSelection.ts:101-103 | No contract of its own: `SharedSlotsCountsCommonVertices`, `SharesEdgeSymmetric` and `SharesEdgeAsymmetricOnDegenerateFace` state when the two-slot test holds. |
| AdjacencyGrouping.SharedSlotsCountsCommonVertices | frontend/src/hooks/useSelection.ts:97-103 | For two triangles with three different corners each, the matching-slot count equals the size of the intersection of their corner sets, so the test holds exactly when the triangles have at least two corners in common. |
| AdjacencyGrouping.SharesEdgeSymmetric | frontend/src/hooks/useSelection.ts:101-103 | For two triangles whose three corners are all different, the two-slot test holds in both directions or in neither, because both sides count the same common corners. |
| AdjacencyGrouping.SharesEdgeAsymmetricOnDegenerateFace | frontend/src/hooks/useSelection.ts:101-103 | A triangle with a repeated corner can be linked to another while the other is not linked back. |
| AdjacencyGrouping.Candidates | frontend/src/hooks/useSelection.ts:93-106 | The faces the inner loop pushes: each is an unprocessed candidate passing the two-slot test, and every such candidate is there. |
| AdjacencyGrouping.CandidatesAppend | frontend/src/hooks/useSelection.ts:93-106 | The pushes for a concatenated list are those for the first part followed by those for the second, so the list order is kept. |
| AdjacencyGrouping.CandidatesKeepOrderAndRepeats | frontend/src/hooks/useSelection.ts:93-106 | Two passing candidates are pushed in list order, and a candidate listed twice is pushed twice. |
| AdjacencyGrouping.AdjacentCandidates | frontend/src/hooks/useSelection.ts:93-106 | The inner loop returns exactly `Candidates`: the unprocessed candidates that pass the two-slot test, in list order and with their repeats. |
| AdjacencyGrouping.FloodGroup | frontend/src/hooks/useSelection.ts:77-107 | The group starts at its seed, is duplicate-free, holds only unprocessed candidates, and each member after the seed was reached from an earlier member. It and the new processed set are exactly `FloodFrom` from the queue `[seed]`, so the group is in discovery order. |
| AdjacencyGrouping.FloodFrom | frontend/src/hooks/useSelection.ts:80-107 | No contract of its own: the `while` loop run to the end, taking the head of the queue and pushing its `Candidates`. `FloodGroup` is proved to return it. |
| AdjacencyGrouping.GroupsUpTo | frontend/src/hooks/useSelection.ts:74-112 | No contract of its own: the outer `forEach` over the first `n` candidates, flooding from each one not yet processed. `GroupAdjacentFaces` is proved to return it. |
| AdjacencyGrouping.VisitCandidate | frontend/src/hooks/useSelection.ts:75-111 | One pass of the outer `forEach`: the groups and processed set follow `GroupsUpTo` one candidate further, and the grouping invariant is kept. |
| AdjacencyGrouping.GroupAdjacentFaces | frontend/src/hooks/useSelection.ts:63-115 | Without an index the result is empty. Otherwise the groups have these properties:<br>- They are disjoint and cover exactly the distinct candidates.<br>- Each one starts at the first candidate not yet covered.<br>- Each later member links to an earlier member of its group.<br>- No member of a later group links to a member of an earlier one.<br>- They are exactly `GroupsUpTo` over all candidates, so each group lists its faces in discovery order. |
| SelectableModel.PartitionGeometry | frontend/src/components/SelectableModel.tsx:61-112 | An empty selection or a missing index gives no selected geometry and a copy of the mesh. Otherwise each triangle goes to the selected or the unselected index list, and an empty bucket has its fallback. |
| SelectableModel.Bucket | frontend/src/components/SelectableModel.tsx:78-93 | No contract of its own: `BucketSizes`, `OutOfRangeIdsIgnored`, `NothingSelectedKeepsAll` and `UnselectedEmptyIff` state how the triangles split, and `PartitionGeometry` is proved to build exactly these lists. |
| SelectableModel.BucketSizes | frontend/src/components/SelectableModel.tsx:76-93 | The selected bucket has three indices per selected face, and the two buckets together have three per face. |
| SelectableModel.OutOfRangeIdsIgnored | frontend/src/components/SelectableModel.tsx:78-80 | Selected ids at or beyond the face count have no effect on the partition. |
| SelectableModel.NothingSelectedKeepsAll | frontend/src/components/SelectableModel.tsx:78-93 | With no face in range selected, the unselected bucket is the whole index buffer. |
| SelectableModel.PartitionShape | frontend/src/components/SelectableModel.tsx:95-105 | There is selected geometry iff some face in range is selected. The unselected geometry falls back to a copy iff every face is selected. |
| SelectableModel.UnselectedEmptyIff | frontend/src/components/SelectableModel.tsx:103-105 | The unselected bucket is empty exactly when every face below the count is selected. |
| SelectableModel.FirstFaceWithVertexIsLowest | frontend/src/components/SelectableModel.tsx:141-152 | The face found has the vertex in one of its slots, and no lower face does. If there is no such face, no face has the vertex. |
| SelectableModel.FirstFaceWithVertex | frontend/src/components/SelectableModel.tsx:141-152 | No contract of its own: `FirstFaceWithVertexIsLowest` shows it finds the lowest face using the vertex, and `FindFaceWithVertex` is proved to return it. |
| SelectableModel.FindFaceWithVertex | frontend/src/components/SelectableModel.tsx:141-152 | The search loop with `break` returns the lowest face using the vertex, or nothing. |
| SelectableModel.HandleClick | frontend/src/components/SelectableModel.tsx:115-169 | A click fires, in order, the face selection, the measurement point and the annotation point, each under its own mode and callback. |
| SelectableModel.ResolvedFace | frontend/src/components/SelectableModel.tsx:134-153 | No contract of its own: `FallbackPicksLowestFace` shows that without a face index it is the lowest face using corner `a`. |
| SelectableModel.ClickEvents | frontend/src/components/SelectableModel.tsx:115-167 | No contract of its own: `ModesFireIndependently` and `MissFiresNothing` state which callbacks fire; `HandleClick` is proved to fire exactly these. |
| SelectableModel.ModesFireIndependently | frontend/src/components/SelectableModel.tsx:133-167 | Each event fires iff its mode is on, its callback is present and (for faces) a face index was resolved. |
| SelectableModel.MissFiresNothing | frontend/src/components/SelectableModel.tsx:116-130 | With every mode off, or with no intersection, a click fires nothing. |
| SelectableModel.FallbackPicksLowestFace | frontend/src/components/SelectableModel.tsx:137-153 | A hit without a face index reports the lowest face using corner `a`, and no face when none uses it. |
| MeasureGesture.ClickKeepsWellFormed | frontend/src/components/Viewer3DWithSelection.tsx:204-215 | A click never leaves a second point without a first one. |
| MeasureGesture.Click | frontend/src/components/Viewer3DWithSelection.tsx:204-215 | No contract of its own: `ClickKeepsWellFormed`, `FirstClickStoresA`, `SecondClick` and `FullGestureIgnoresClicks` state what one click does. |
| MeasureGesture.ModeChanged | frontend/src/components/Viewer3DWithSelection.tsx:197-202 | No contract of its own: `ModeOnResets` states that switching measure mode on clears both points and switching it off keeps them. |
| MeasureGesture.FirstClickStoresA | frontend/src/components/Viewer3DWithSelection.tsx:205-206 | The first click stores point A and completes nothing. |
| MeasureGesture.SecondClick | frontend/src/components/Viewer3DWithSelection.tsx:207-213 | With a completion callback the second click delivers (A, B) and clears both points. Without one it stores B and delivers nothing. |
| MeasureGesture.FullGestureIgnoresClicks | frontend/src/components/Viewer3DWithSelection.tsx:204-215 | Once both points are held, any further clicks change nothing and deliver nothing. |
| MeasureGesture.PairsOfClicksMeasure | frontend/src/components/Viewer3DWithSelection.tsx:204-215 | With a callback, an even run of clicks delivers consecutive pairs (p0,p1), (p2,p3), … and ends with no points held. |
| MeasureGesture.ModeOnResets | frontend/src/components/Viewer3DWithSelection.tsx:197-202 | Switching measure mode on clears both points. Switching it off keeps them. |
| MeasureGesture.PointPicker.constructor | frontend/src/components/Viewer3DWithSelection.tsx:178-179 | Both measurement points start empty. |
| MeasureGesture.PointPicker.HandleMedicaoClick | frontend/src/components/Viewer3D.tsx:200-211 | The picker's points and the delivered pair follow the gesture's click step; Viewer3DWithSelection.tsx repeats the same handler. |
| MeasureGesture.PointPicker.MeasureModeEffect | frontend/src/components/Viewer3D.tsx:193-198 | The picker follows the mode-change step. |
| Viewer3D.LoaderForSuffix | frontend/src/components/Viewer3D.tsx:34-44 | The STL loader is chosen iff the URL has at least 4 characters and its last 4 lower-case to ".stl". Every other URL, including a short one, gets the PLY loader. Viewer3DWithSelection.tsx lines 47-57 make the same choice. |
| Viewer3D.LoaderFor | frontend/src/components/Viewer3D.tsx:34-44 | No contract of its own: `LoaderForSuffix` states exactly when the STL loader is chosen. |
| Viewer3D.UpperCaseStlUsesStl | frontend/src/components/Viewer3D.tsx:34-39 | An upper-case ".STL" suffix still selects the STL loader. |
| Viewer3D.ShortUrlUsesPly | frontend/src/components/Viewer3D.tsx:34-43 | A URL shorter than 4 characters, such as "stl", falls to the PLY loader. |
| Viewer3D.MeshDispatchProperties | frontend/src/components/Viewer3D.tsx:163-174 | With neither mode on nothing fires, and at most one callback fires. Measurement wins when both modes are on, and the point delivered is the click point. |
| Viewer3D.MeshDispatch | frontend/src/components/Viewer3D.tsx:163-174 | No contract of its own: `MeshDispatchProperties` states when each callback fires. |
| Viewer3D.Viewer.constructor | frontend/src/components/Viewer3D.tsx:190-191 | The viewer starts with no measurement points. |
| Viewer3D.Viewer.HandleMeshClick | frontend/src/components/Viewer3D.tsx:163-174 | A mesh click updates the points as the dispatch and the gesture step say, or forwards the annotation point, or does nothing. |
| Viewer3DWithSelection.AllSelectedFaces | frontend/src/components/Viewer3DWithSelection.tsx:182-188 | A face is highlighted iff it is in the live selection or in some saved selection. |
| Viewer3DWithSelection.ControlsEnabled | frontend/src/components/Viewer3DWithSelection.tsx:290 | No contract of its own: the orbit controls are enabled when no mode is active. `Visualizador.ControlsAfterPress` states when a button press gives the camera back. |
| Viewer3DWithSelection.BothModesDispatchDiffers | frontend/src/components/SelectableModel.tsx:160-167 | With measure and annotate both on, the selectable model fires both callbacks, where the plain viewer fires only the measure one. |
| Viewer3DWithSelection.ModelCallbacks | frontend/src/components/Viewer3DWithSelection.tsx:236-245 | No contract of its own: `BothModesDispatchDiffers` uses it to show that the selectable model fires both the measure and the annotate callback when both modes are on. |
| Viewer3DWithSelection.SelectionViewer.constructor | frontend/src/components/Viewer3DWithSelection.tsx:177-179 | The viewer starts with a fresh selection hook and no measurement points. |
| Viewer3DWithSelection.SelectionViewer.HandleFaceSelect | frontend/src/components/Viewer3DWithSelection.tsx:217-224 | Only in selection mode does a face click toggle the viewer's own selection. It reaches the page only if the page gave a callback. |
| Viewer3DWithSelection.SelectionViewer.HighlightedFaces | frontend/src/components/Viewer3DWithSelection.tsx:182-188 | The highlighted set is the viewer's live faces together with all saved faces. |
| Visualizador.PressLeavesAtMostOne | frontend/src/pages/Visualizador.tsx:182-212 | After any mode button, at most one mode is on, whatever the state before. |
| Visualizador.PressSelecionar | frontend/src/pages/Visualizador.tsx:184-188 | No contract of its own: `PressLeavesAtMostOne`, `PressTwice` and `ControlsAfterPress` state what the press does. |
| Visualizador.PressMedir | frontend/src/pages/Visualizador.tsx:195-199 | No contract of its own: the same three lemmas cover it. |
| Visualizador.PressAnotar | frontend/src/pages/Visualizador.tsx:205-209 | No contract of its own: the same three lemmas cover it. |
| Visualizador.PressTwice | frontend/src/pages/Visualizador.tsx:182-212 | Pressing a button twice keeps only that mode's previous flag, so from all-off it returns to all-off. |
| Visualizador.ControlsAfterPress | frontend/src/pages/Visualizador.tsx:182-212 | A press gives the camera back exactly when it turns the pressed mode off. |
| Visualizador.AnnotationClickKeepsOneMode | frontend/src/pages/Visualizador.tsx:80-83 | An annotation click can only arrive in annotate mode, so setting that flag keeps at most one mode on. |
| Visualizador.ModelPath | frontend/src/pages/Visualizador.tsx:51-53 | The file path always starts with '/'. It is kept when it already does and is prefixed otherwise. |
| Visualizador.ModelPathIdempotent | frontend/src/pages/Visualizador.tsx:51-55 | Normalising twice equals normalising once, and a storage URL is used unchanged under the default base URL. |
| Visualizador.BaseUrl | frontend/src/pages/Visualizador.tsx:54 | No contract of its own: an unset or empty variable gives the default URL; `ModelPathIdempotent` uses the default. |
| Visualizador.ModelUrl | frontend/src/pages/Visualizador.tsx:51-55 | No contract of its own: `ModelPathIdempotent` shows that a storage URL under the default base is the base followed by that URL. |
| Visualizador.RemoveByIdMembers | frontend/src/pages/Visualizador.tsx:94 | Filtering by id removes exactly the records carrying that id. |
| Visualizador.RemoveById | frontend/src/pages/Visualizador.tsx:94 | No contract of its own: `RemoveByIdMembers`, `RemoveByIdAppend`, `RemoveAbsentId` and `CreateThenDelete` state what the filter keeps. |
| Visualizador.RemoveByIdAppend | frontend/src/pages/Visualizador.tsx:94 | Filtering keeps the survivors in order: it distributes over concatenation. |
| Visualizador.RemoveAbsentId | frontend/src/pages/Visualizador.tsx:104 | Deleting an id that no record carries leaves the list unchanged. |
| Visualizador.CreateThenDelete | frontend/src/pages/Visualizador.tsx:120-127 | Appending a record with a fresh id and then deleting that id restores the list. |
| Visualizador.SidebarClearLeavesViewerBehind | frontend/src/pages/Visualizador.tsx:237-241 | After one face click and a sidebar clear, the page's selection is empty while the viewer still holds the face. |
| Visualizador.Page.constructor | frontend/src/pages/Visualizador.tsx:17-27 | The page starts with every mode off, empty lists, no annotation point and two distinct fresh hooks. |
| Visualizador.Page.PressSelecionarButton | frontend/src/pages/Visualizador.tsx:182-188 | Selection mode flips, the other two modes switch off, and nothing else changes. |
| Visualizador.Page.PressMedirButton | frontend/src/pages/Visualizador.tsx:193-199 | Measure mode flips, the other two modes switch off, and nothing else changes. |
| Visualizador.Page.PressAnotarButton | frontend/src/pages/Visualizador.tsx:203-209 | Annotate mode flips, the other two modes switch off, and nothing else changes. |
| Visualizador.Page.HandleMedicaoComplete | frontend/src/pages/Visualizador.tsx:65-78 | The request carries the model id and the two points. A stored measurement is appended and measure mode ends. A failed request alerts and changes nothing. |
| Visualizador.Page.MeasureClick | frontend/src/components/Viewer3DWithSelection.tsx:204-215 | A measure click steps the viewer's picker. When the gesture completes, the page's handler sends exactly the completed pair, appends the stored measurement and ends measure mode, or alerts on failure. Otherwise nothing is sent and the page is unchanged. |
| Visualizador.Page.HandleAnotacaoClick | frontend/src/pages/Visualizador.tsx:80-83 | The point is kept for the form and annotate mode is set, without touching the other modes. |
| Visualizador.Page.HandleAnotacaoCreated | frontend/src/pages/Visualizador.tsx:85-89 | The annotation is appended, annotate mode ends and the pending point is cleared. |
| Visualizador.Page.HandleDeleteMedicao | frontend/src/pages/Visualizador.tsx:91-99 | The measurement list is filtered by id only when the delete succeeded. It alerts exactly when the delete failed. |
| Visualizador.Page.HandleDeleteAnotacao | frontend/src/pages/Visualizador.tsx:101-109 | The annotation list is filtered by id only when the delete succeeded. It alerts exactly when the delete failed. |
| Visualizador.Page.HandleDeleteSelecao | frontend/src/pages/Visualizador.tsx:124-132 | The saved-selection list is filtered by id only when the delete succeeded. It alerts exactly when the delete failed. |
| Visualizador.Page.HandleSelecaoSaved | frontend/src/pages/Visualizador.tsx:120-122 | The saved selection is appended. |
| Visualizador.Page.HandleSaveSelecao | frontend/src/pages/Visualizador.tsx:134-156 | With no faces there is an alert and nothing is sent. Otherwise the request carries the faces in insertion order. On success the record is appended and the page's selection is cleared (the viewer's is not). On failure there is an alert and nothing changes. |
| Visualizador.Page.FaceClick | frontend/src/pages/Visualizador.tsx:111-113 | In selection mode a face click toggles the face in both the viewer's and the page's hook. Otherwise neither hook changes. |
| Visualizador.Page.SidebarAction | frontend/src/pages/Visualizador.tsx:240-242 | Clear, undo and redo from the sidebar step the page's hook and leave the viewer's hook unchanged. |
| AnotacaoTool.TrimBlankIff | frontend/src/components/AnotacaoTool.tsx:36 | The trimmed text is empty exactly when every character is whitespace. |
| AnotacaoTool.Trim | frontend/src/components/AnotacaoTool.tsx:36 | No contract of its own: `TrimBlankIff` shows the trimmed text is empty exactly when every character is whitespace. |
| AnotacaoTool.TrimEnd | frontend/src/components/AnotacaoTool.tsx:36 | No contract of its own: `TrimEndShape` shows it removes a trailing run of whitespace and leaves a non-whitespace last character. |
| AnotacaoTool.TrimStart | frontend/src/components/AnotacaoTool.tsx:36 | No contract of its own: `TrimStartEmptyIff` shows it is empty exactly when the input is all whitespace. |
| AnotacaoTool.IsSpace | frontend/src/components/AnotacaoTool.tsx:36 | No contract of its own: the white-space and line-terminator code points that `trim` removes. |
| AnotacaoTool.TrimEndShape | frontend/src/components/AnotacaoTool.tsx:36 | The result of `trimEnd` is a prefix of the input, what it drops is all whitespace, and its last character is not whitespace. |
| AnotacaoTool.TrimStartEmptyIff | frontend/src/components/AnotacaoTool.tsx:36 | Trimming leading whitespace gives the empty string exactly when the input is all whitespace. |
| AnotacaoTool.CoordsOf | frontend/src/components/AnotacaoTool.tsx:40-42 | No contract of its own: the picked point's coordinates, or the origin without one. The request clause of `AnotacaoTool.AnnotationForm.HandleSubmit` sends them. |
| AnotacaoTool.AnnotationForm.constructor | frontend/src/components/AnotacaoTool.tsx:24-26 | The form starts hidden, empty and not loading. |
| AnotacaoTool.AnnotationForm.CoordinateEffect | frontend/src/components/AnotacaoTool.tsx:28-32 | A picked point in annotate mode opens the form. The effect never closes it. |
| AnotacaoTool.AnnotationForm.OpenForm | frontend/src/components/AnotacaoTool.tsx:66-72 | The "new annotation" button shows the form and keeps the text. |
| AnotacaoTool.AnnotationForm.Cancel | frontend/src/components/AnotacaoTool.tsx:85-90 | Cancel hides the form and discards the text. |
| AnotacaoTool.AnnotationForm.HandleSubmit | frontend/src/components/AnotacaoTool.tsx:34-57 | Sending and the state after it:<br>- Blank text sends nothing and changes nothing.<br>- Otherwise the untrimmed text is sent with the picked point or the origin.<br>- On success the record is delivered and the form is cleared and hidden.<br>- On failure there is an alert and the form stays as it was.<br>- Loading always ends. |
| SelecaoTool.NullIfEmpty | frontend/src/components/SelecaoTool.tsx:51 | No contract of its own: `s || null`, so the empty string becomes null. The request clause of `SelecaoTool.SelectionPanel.HandleSave` applies it to the identifier and the notes. |
| SelecaoTool.ButtonsMatchHook | frontend/src/components/SelecaoTool.tsx:93-124 | Undo (redo) is disabled exactly when pressing it would leave the hook unchanged. Clear and save are disabled exactly when nothing is selected. |
| SelecaoTool.Disabled | frontend/src/components/SelecaoTool.tsx:93-124 | No contract of its own: `ButtonsMatchHook` states when each toolbar button is disabled. |
| SelecaoTool.SelectionPanel.constructor | frontend/src/components/SelecaoTool.tsx:35-40 | The panel starts with the form hidden, type "face", colour #FFD700, empty fields and not loading. |
| SelecaoTool.SelectionPanel.HandleSave | frontend/src/components/SelecaoTool.tsx:42-77 | Saving and the state after it:<br>- No faces means an alert and nothing else.<br>- Otherwise the request goes through the page's handler when one is given, or is a direct create with empty fields as null.<br>- Success resets the form; failure alerts and keeps it.<br>- Loading always ends. |
| SelecaoTool.SelectionPanel.PressFormSave | frontend/src/components/SelecaoTool.tsx:191-197 | A press of the form's save button:<br>- While `SaveDisabled` holds it does nothing: no request, no alert, no state change.<br>- Otherwise the selection is non-empty, so the request from the form's fields is always sent and the empty-selection alert never shows.<br>- An alert shows exactly when the save fails.<br>- Success resets the form; failure keeps it. |
| SelecaoTool.SelectionPanel.ToggleSaveForm | frontend/src/components/SelecaoTool.tsx:117-120 | The toolbar save button toggles the form's visibility and keeps the fields. |
| SelecaoTool.SelectionPanel.CancelSaveForm | frontend/src/components/SelecaoTool.tsx:184-186 | Cancel hides the form and keeps what was typed. |
| SelecaoTool.SaveDisabled | frontend/src/components/SelecaoTool.tsx:194 | No contract of its own: the form's save button is disabled while loading or with no face selected. `SelecaoTool.SelectionPanel.PressFormSave` shows that an enabled button always sends the request. |
| MedicaoService.IsDistance | backend/src/services/medicao_service.ts:27-35 | No contract of its own: `d` is what `calculateDistance` returns when it is non-negative and its square is the sum of the squared coordinate differences. `DistanceIsUnique` shows at most one `d` qualifies. |
| MedicaoService.SquaredDistance | backend/src/services/medicao_service.ts:31-34 | The radicand is never negative, so the square root is always defined. |
| MedicaoService.DistanceIsUnique | backend/src/services/medicao_service.ts:34 | At most one non-negative value has the squared distance as its square, so the relation determines the result. |
| MedicaoService.DistanceIsSymmetric | backend/src/services/medicao_service.ts:27-35 | The distance from A to B is the distance from B to A. |
| MedicaoService.DistanceZeroIffSamePoint | backend/src/services/medicao_service.ts:27-35 | The distance is zero exactly when the two points coincide. |
| MedicaoService.DistanceIsTranslationInvariant | backend/src/services/medicao_service.ts:31-34 | Moving both points by the same vector leaves the distance unchanged. |
| MedicaoService.ThreeFourFive | backend/src/services/medicao_service.ts:27-35 | The points (0,0,0) and (3,4,0) are at distance 5. |
| Storage.ExtnameOfStemAndExt | backend/src/services/storage_service.ts:22 | For a plain stem and an extension (or no extension on a dotless stem), `extname` of the joined name is that extension. |
| Storage.UpperCaseExtensionAccepted | backend/src/services/storage_service.ts:21-24 | "x.STL" is accepted because the extension is lower-cased before the check. |
| Storage.LeadingDotRejected | backend/src/services/storage_service.ts:21-24 | ".stl" is rejected: a leading dot marks a hidden file, which has no extension. |
| Storage.NoDotRejected | backend/src/services/storage_service.ts:21-24 | "stl" without a dot is rejected. |
| Storage.InnerStlIgnored | backend/src/services/storage_service.ts:21-24 | "a.stl.zip" is rejected: only the last extension counts. |
| Storage.LastPlyAccepted | backend/src/services/storage_service.ts:21-24 | "a.zip.ply" is accepted through its last extension. |
| Storage.NatToDecimal | backend/src/services/storage_service.ts:28-30 | The timestamp is written with decimal digits only, and is never empty. |
| Storage.ExtnameIsExtension | backend/src/services/storage_service.ts:22 | What `extname` returns is empty or a dot followed by no further dot or slash. |
| Storage.Extname | backend/src/services/storage_service.ts:22 | No contract of its own: `ExtnameIsExtension` and `ExtnameOfStemAndExt` state what it returns. |
| Storage.ValidateFileExtension | backend/src/services/storage_service.ts:21-24 | No contract of its own: `ValidatedExactlyStlOrPly`, the lemmas on "x.STL", ".stl", "stl", "a.stl.zip" and "a.zip.ply", and `GeneratedNameKeepsExtension` state its verdicts. |
| Storage.ValidatedExactlyStlOrPly | backend/src/core/constants.ts:8-13 | The allowed list is the STL list followed by the PLY list, so a name validates exactly when its lower-cased extension is ".stl" or ".ply". |
| Storage.GeneratedNameKeepsExtension | backend/src/services/storage_service.ts:26-31 | The generated name has the same extension as the original, so a valid upload stays valid. |
| Storage.GeneratedNameHasNoSlash | backend/src/services/storage_service.ts:26-31 | The generated name contains no '/', so it stays inside the upload directory. |
| Storage.GenerateUniqueFilename | backend/src/services/storage_service.ts:26-31 | No contract of its own: `GeneratedNameKeepsExtension` and `GeneratedNameHasNoSlash` state what the name keeps. |
| Storage.GetFileUrl | backend/src/services/storage_service.ts:37-39 | No contract of its own: `FileUrlRoundTrip` shows the file name is recovered from the URL. |
| Storage.LastSegment | backend/src/services/modelo3d_service.ts:65 | No contract of its own: `FileUrlRoundTrip` uses it to recover the stored name. |
| Storage.FileUrlRoundTrip | backend/src/services/modelo3d_service.ts:65 | Taking the last '/'-separated segment of a public URL for a slash-free file name gives back that name. |

## Left out

- Rendering is not modelled: Three.js materials, opacity, lights, markers, lines, cursors and hint texts. Only the geometry split that decides what is highlighted is part of the model.
- Normalising the loaded geometry (`computeVertexNormals`, `center`, scaling) is left out. It is floating-point work on positions and no decision depends on it.
- Raycasting, and turning screen coordinates into a ray, are left out. The first intersection (its face index, corner `a` and point) is a parameter of `SelectableModel.HandleClick`.
- SelectableModel.HandleClick: the click properties assume the raycast reports the mesh that was hit. The listener calls `intersectObject(meshRef.current!, false)` (SelectableModel.tsx:128) on the `<group>` the ref is attached to (line 196), without recursion into its child meshes. Under three.js semantics that call likely returns no intersection, in which case no page callback fires from this component. This rests on reading the three.js API; it was not executed, and three.js is not part of this model.
- React scheduling is not modelled: batched `setState`, effects running after render, and stale closures. Handlers are atomic state updates on the current state.
- Network calls are not modelled: HTTP, the services' database access, authentication, and `loadModelo`. Their outcomes are parameters (`created`, `deleted`, `succeeded`). `loadModelo` is modelled only for how it builds the model URL.
- `confirm` dialogs and list rendering in the tool panels are left out. The page's delete handlers are modelled from the point where they are called.
- The form fields' `onChange` setters are left out, because they only copy input into state. So are `setTexto` in the annotation form and `setTipo`, `setCor` and the others in the selection panel.
- The `groupedFaces` field of a selection is carried in every snapshot. No hook operation ever fills it: the toggle and batch mutations keep it unchanged and clear empties it. Its per-group deep copy in `addToHistory` is not distinguished from sharing, since values in the model are immutable.
- The page's `onSelectionChange` handler is left out, because it does nothing. It is named only so the viewer's notification effect has a target.
- The plain `Viewer3D`'s marker rendering and the `MedicaoTool` list are left out, because they are presentation only.
- `ModelUploader` and the other pages (login, patients) are outside this model.
- The storage service's filesystem side effects (`ensureUploadDir`, `getFilePath`, `deleteFile`) are left out, because they are I/O.
- `Date.now()` and `Math.random()` are inputs to `Storage.GenerateUniqueFilename`. The random part is only required to be base-36 characters.
- MedicaoService.DistanceIsUnique: states only that at most one distance exists. That one does exist is not stated, because Dafny's reals have no square root and no completeness principle to build one.
- MedicaoService.IsDistance: the `Math.sqrt` result is stated as a relation, not computed: `d >= 0` and `d * d` equals the sum of squares, over exact reals. IEEE rounding is not modelled.
- Common.Lower: only the ASCII letters are lower-cased. JavaScript would also fold other Unicode letters.
- SelectableModel.PartitionGeometry: it requires the index buffer length to be a multiple of 3. The component reads whole triangles, and `index.count / 3` for other lengths would read past the buffer.
- UseSelection.SelectionHook.SelectAdjacentFaces: no file calls `selectAdjacentFaces`; the hook only returns it (useSelection.ts:174). The model takes `radius` as a parameter, so the default of 1 is not modelled.
