# swiftBlock blocking bookkeeping, in Dafny

swiftBlock is a Blender add-on for building hexahedral block meshes. The
user draws a wireframe; a block finder turns it into blocks (8 vertex ids
each), block faces (4 vertex ids, plus the block on the `pos` side and the
block on the `neg` side, -1 meaning none) and edge groups (sets of aligned
edges that must share a cell count). This project models the integer
bookkeeping in `__init__.py` that keeps those structures and the mesh
consistent, and proves what it promises:

- **Topology repair** (`repair_blockFacesEdges`) runs whenever a block is
  enabled or disabled. It shows or hides the quad of each block face, and
  hides or shows the mesh edge of each block edge.
- **A build** (`BuildBlocking.invoke`) has five steps:
  - it creates the blocks;
  - it records the block edges and stamps their group id on the mesh edges;
  - it renumbers the face sides past the gaps in the block ids reported by
    the finder;
  - it turns mesh edges to the computed directions;
  - it then repairs.
- **Block lookup** from a vertex selection (`GetBlock`).
- **Edge-group operators**: select aligned edges, flip a group, and set, get
  or delete a named group (stored as a comma-joined string of edge indices).
- **What the mesh writer gathers**: the enabled blocks and faces, the region
  names, and the block edges bucketed by group.
- **Small helpers**: the patch colour, the patch name normalisation, and the
  vertex-ordering walk of `sortedVertices`.

Modules:

- `Mesh` holds the shared datatypes, the `Option`/`Result` wrappers and the
  mesh-edge lookup.
- `Repair`, `Renumber`, `EdgeGroups`, `NamedGroups`, `Selection`, `Writer` and
  `Helpers` hold the specification functions and their lemmas.
- `SwiftBlock.BlockingObject` is the blocking object. It is a class whose
  fields are the block, face, block-edge and edge-group lists, the set of
  mesh quads and the array of mesh edges. Each operator is a method proved
  against the specification functions.

The mesh is abstracted as follows:

- A quad face of the mesh is the set of its vertex ids. `bm.faces.get`
  matches a face whose vertices are the given ones in cyclic order, in either
  winding. The face records of a build list their four vertices in cyclic
  order, and for those the set of vertex ids identifies the quad.
- A mesh edge is its two endpoints in stored order, its `groupid` layer
  value, its selection flag and its hidden flag.
- `bm.edges.get` is the first edge joining the two vertices in either order.

Python behaviour is written out where it matters:

- `max` of an empty list fails. `max` with a key returns the first maximum.
- A negative subscript counts from the end.
- `%` by a positive number is never negative.
- `str.strip` removes the characters for which `str.isspace` holds.
- An exception part-way through an operator leaves the changes made before
  it. The model reports an `IndexError`, an `AttributeError` on `None`, a
  `ValueError` from `int` and a `ValueError` from `max` of an empty list as
  `Err` or `false`, and states what was already done. The two `KeyError`
  paths of a build are not reported: `BuildBlocking` requires that every
  vertex pair the finder reports is a mesh edge, and that every face number
  has an entry in the face adjacency (see "Left out").
- The O-grid correction of the renumbering applies only when the largest
  referenced block index exceeds `len(blocks) - 1`. It then subtracts from
  each index the number of missing indices below it.
- When `max` fails during a build, the blocks, the block edges and the
  stamped group ids are already replaced. The face records are not.
- Flipping an edge group swaps the endpoints of every edge in the group of
  the first selected edge.
- `hide_set(True)` hides an edge and deselects it; `hide_set(False)` shows it
  and keeps its selection. Setting `select = True` on a hidden edge has no
  effect.

## Model

| member | source | states |
|---|---|---|
| Mesh.SelectEdge | __init__.py:357 | `select = True` selects a visible edge and leaves a hidden one as it was; nothing but the selection changes |
| Mesh.HideSet | __init__.py:1162-1165 | `hide_set` sets the hidden flag; hiding also deselects, showing keeps the selection; endpoints and group id are kept |
| Mesh.FindEdge | __init__.py:1157 | the edge found joins the two vertices in either order, and no earlier edge does; None only when no edge joins them |
| Mesh.FindEdgeIgnoresFlags | __init__.py:1157 | reversing edges or changing their flags or group ids never changes which edge the lookup finds |
| Mesh.FindEdgeSymmetric | __init__.py:1157 | the lookup does not depend on the order in which the two vertices are named |
| Repair.Decision | __init__.py:1133-1154 | a face record with both sides set wants its quad iff exactly one of the two blocks is enabled; with one side set, iff that block is enabled; with neither set, it decides nothing |
| Repair.RepairFacesAt | __init__.py:1130-1154 | after the face loop, a quad exists iff the last record with that quad that decides anything wants it; quads no record decides keep their presence |
| Repair.FaceRule | __init__.py:1130-1154 | for records with distinct quads: both sides set, present afterwards iff exactly one block is enabled; one side set, iff that block is enabled; neither set, presence unchanged |
| Repair.RepairFacesIdempotent | __init__.py:1130-1154 | running the face loop again without toggling a block changes no face |
| Repair.RepairEdges | __init__.py:1156-1165 | the edge loop keeps every edge's endpoints and group id, and never selects an edge that was not selected |
| Repair.RepairEdgesStep | __init__.py:1156-1165 | each block edge record applies `hide_set` to the mesh edge it finds: hidden and deselected when no enabled block holds both endpoints, shown with its selection kept otherwise; nothing else changes |
| Repair.ListedStep | __init__.py:1156-1157 | one more block edge record lists exactly one more mesh edge: the one it finds, if any |
| Repair.EdgeRule | __init__.py:1156-1165 | afterwards the mesh edge of every block edge record is visible iff some enabled block contains both of its endpoints, and it is selected iff it was selected and is visible |
| Repair.RepairEdgesIdempotent | __init__.py:1156-1165 | running the edge loop again without toggling a block changes no edge |
| Repair.EdgesPresentEndpoints | __init__.py:1157 | whether every block edge has a mesh edge does not depend on which way round the mesh edges are stored |
| Renumber.Refs | __init__.py:849-851 | the referenced block ids: every `pos` and `neg` entry of every face is among them |
| Renumber.RefsExact | __init__.py:849-851 | every referenced block id is a `pos` or `neg` entry of some face |
| Renumber.Max | __init__.py:856 | the largest referenced id: it is one of the ids and none is larger |
| Renumber.GapsExact | __init__.py:857-859 | the decrease list holds exactly the ids in [0, max) that no face references, in strictly increasing order |
| Renumber.DecreaseList | __init__.py:855-859 | the decrease list is empty unless the largest referenced id exceeds `len(blocks) - 1`; otherwise it is the unreferenced ids below the maximum |
| Renumber.CountGapsBelow | __init__.py:869 | the number of decrease-list entries below the given id |
| Renumber.RenumberFaces | __init__.py:846-878 | fails iff no face references a block (`max` of an empty list); otherwise one enabled record per finder face, with the finder's vertices and face id; each side is -1 when its list is empty, else its first entry shifted down past the gaps |
| Renumber.RenumberEach | __init__.py:861-878 | the face loop: one enabled record per finder face, in order, with the finder's vertices, the matched face id and both sides renumbered |
| Renumber.RenumberSide | __init__.py:866-878 | a side is -1 for an empty list, else its first entry less the number of gaps below it |
| Renumber.RenumberKeepsInRange | __init__.py:856 | when the largest referenced id is at most `len(blocks) - 1`, no id changes |
| Renumber.ShiftCountsIds | __init__.py:855-876 | with gaps, a referenced id becomes the number of distinct referenced ids below it |
| Renumber.RenumberOrdered | __init__.py:855-876 | with gaps, renumbered ids are non-negative and strictly order-preserving |
| Renumber.RenumberConsecutive | __init__.py:855-876 | with gaps, consecutive referenced ids become consecutive numbers (no gaps remain) |
| Renumber.ShiftConsecutive | __init__.py:857-876 | consecutive referenced ids below the maximum are shifted to consecutive numbers |
| Renumber.RenumberStartsAtZero | __init__.py:855-876 | with gaps, the smallest referenced id becomes 0 |
| Renumber.ShiftNegative | __init__.py:869-870 | an id below zero is never shifted |
| Selection.Overlap | __init__.py:404 | the number of a block's vertices that are selected is at most the number of its vertices |
| Selection.OverlapAllSelected | __init__.py:404 | a block all of whose vertices are selected has full overlap |
| Selection.FirstMax | __init__.py:411 | the index of the first maximum: no entry is larger and every earlier entry is smaller |
| Selection.GetBlock | __init__.py:394-417 | error iff there are no blocks; otherwise the first block with all 8 vertices selected if there is one, else a block of largest overlap, the earliest on ties |
| EdgeGroups.AlignedSelectionGrows | __init__.py:348-360 | selecting aligned edges never deselects and changes only selection flags |
| EdgeGroups.AlignedSelectionIdempotent | __init__.py:348-360 | selecting aligned edges a second time changes nothing |
| EdgeGroups.GroupSelectedPrefix | __init__.py:352-357 | looking at one more edge adds its group to the selected groups iff it is selected |
| EdgeGroups.FirstSelected | __init__.py:372-374 | the first selected edge: it is selected and no earlier edge is; None iff nothing is selected |
| EdgeGroups.FlipTargets | __init__.py:371-378 | the indices collected are exactly the edges in the group of the first selected edge, in increasing order |
| EdgeGroups.FlipKeepsGroups | __init__.py:367-386 | with no selection flipping changes nothing; it never changes group ids or selection |
| EdgeGroups.FlipInvolution | __init__.py:367-386 | flipping twice with the same selection restores the original endpoints |
| EdgeGroups.EdgeDict | __init__.py:806-808 | every stored (v0, v1) is a key, and every key maps to an edge stored that way |
| EdgeGroups.EdgeDictLast | __init__.py:806-808 | when several edges are stored as the same pair, the dictionary maps the pair to the last of them |
| EdgeGroups.GroupRecords | __init__.py:830-835 | one record per pair of a group, in order, with the group's id |
| EdgeGroups.GroupRecordsStep | __init__.py:830-835 | one more pair of a group adds one record at the end, with the group's id |
| EdgeGroups.Records | __init__.py:829-835 | every record's id is the index of a group of the finder's output |
| EdgeGroups.GroupsInMeshRecords | __init__.py:836-839 | when every pair of every group is a mesh edge stored one way or the other, so is every record |
| EdgeGroups.StampedGroupOfRecord | __init__.py:829-840 | when no mesh edge is claimed by two groups, every record's mesh edge carries that record's group id after stamping |
| EdgeGroups.Stamped | __init__.py:829-840 | stamping changes group ids only: endpoints, selection and hidden flags are kept |
| EdgeGroups.StampedStep | __init__.py:836-840 | stamping one more record rewrites only the group id of the edge it looks up, in either orientation |
| EdgeGroups.EdgeDictEndpoints | __init__.py:886-888 | the dictionary rebuilt after stamping equals the one built before, because stamping keeps endpoints |
| EdgeGroups.Flatten | __init__.py:889-891 | every direction of every group is visited |
| EdgeGroups.ReorientedStep | __init__.py:891-895 | a direction not stored as asked reverses the edge stored the other way round; any other direction changes nothing |
| EdgeGroups.ReorientedPrefixStep | __init__.py:889-895 | the step of ReorientedStep, inside the loop over one group's directions |
| EdgeGroups.ReorientedSameEdges | __init__.py:893-895 | re-orienting only swaps the two endpoints of an edge |
| EdgeGroups.DirectionRealised | __init__.py:889-895 | a direction stored the other way round, and reversed by no other request, is stored as asked afterwards |
| EdgeGroups.DirectionKept | __init__.py:889-895 | a direction already stored is left alone when no request reverses that edge |
| EdgeGroups.DuplicateDirectionCancels | __init__.py:886-895 | because the dictionary is not updated during the loop, asking for the same direction twice more undoes itself |
| NamedGroups.DecimalRoundTrip | __init__.py:527-549 | parsing the decimal text of an edge index gives the index back |
| NamedGroups.Split | __init__.py:527 | splitting on ',' always gives at least one part, and no part holds a comma |
| NamedGroups.SplitNoComma | __init__.py:527 | text without a comma splits into itself alone |
| NamedGroups.SplitAtComma | __init__.py:527 | text with no comma before a given comma splits into that text, then the parts of the rest |
| NamedGroups.GroupEdgesRoundTrip | __init__.py:527-549 | for any non-empty list of edge indices, splitting and parsing the joined string gives the list back |
| NamedGroups.EmptyGroupFails | __init__.py:527-549 | an empty selection is stored as '' and does not parse |
| NamedGroups.FindGroup | __init__.py:550-551 | the first group with the name: it has the name and no earlier one does; None iff no group has it |
| NamedGroups.SetGroupSpec | __init__.py:550-556 | setting keeps names unique, stores the string under the name, leaves other names' groups as they were, and appends only when the name is new |
| NamedGroups.DelGroupSpec | __init__.py:507-511 | deleting reports whether the name was present, keeps names unique, and removes exactly the group with that name |
| NamedGroups.SelectIndicesAll | __init__.py:528-529 | when every index is in range, exactly the listed edges are selected |
| NamedGroups.SelectIndicesStops | __init__.py:528-529 | after an index out of range, the rest of the list is not read |
| NamedGroups.SelectGroupsStops | __init__.py:525-529 | after a group that fails, the later groups are not read |
| NamedGroups.SelectGroupsNone | __init__.py:525-526 | with no group of that name, nothing is selected and the operator succeeds |
| NamedGroups.SelectGroupsUnique | __init__.py:525-529 | with unique names, only the group with that name is read |
| NamedGroups.SetThenGet | __init__.py:519-556 | setting a group from a non-empty selection and getting it again selects exactly those edge indices |
| NamedGroups.SelectedIndices | __init__.py:546-548 | the indices of exactly the selected edges, in strictly increasing order |
| Writer.EnabledBlocksMembers | __init__.py:934-935 | the blocks kept are exactly the enabled ones |
| Writer.EnabledFacesMembers | __init__.py:954-956 | the faces kept are exactly the enabled ones |
| Writer.CollectBlocks | __init__.py:932-940 | the vertex lists of the enabled blocks, in order, with their region names (the name for a named region, else '') in step |
| Writer.CollectFaces | __init__.py:953-956 | the vertex lists of the enabled faces, in order |
| Writer.MaxGroup | __init__.py:944-947 | `ngroups` is at least every record's group id and is one of them, or 0 |
| Writer.BucketEdges | __init__.py:943-951 | `ngroups + 1` buckets; bucket g holds the endpoints of group g's records in record order |
| Writer.BucketsPartition | __init__.py:949-951 | every record lands in exactly one bucket: the bucket sizes add up to the number of records |
| Helpers.PatchColor | __init__.py:559-561 | the colour of a patch number, any integer, is one of the seven palette entries |
| Helpers.PatchColorPeriodic | __init__.py:559-561 | patch numbers seven apart get the same colour |
| Helpers.PatchColorsDistinct | __init__.py:559-561 | seven consecutive patch numbers get seven different colours |
| Helpers.StripStartRemovesSpace | __init__.py:578 | the characters removed from the front are all whitespace |
| Helpers.StripEndRemovesSpace | __init__.py:578 | the characters removed from the back are all whitespace |
| Helpers.StripEnds | __init__.py:578 | a stripped name neither starts nor ends with whitespace |
| Helpers.StripSpec | __init__.py:578 | stripping gives a contiguous piece of the name, and everything cut off before and after it is whitespace |
| Helpers.UnderscoresKeepEnds | __init__.py:578 | replacing spaces by underscores keeps a name free of whitespace at either end |
| Helpers.StripTrimmed | __init__.py:578 | a name without whitespace at either end is its own strip |
| Helpers.NormaliseIdempotent | __init__.py:578-579 | a normalised patch name holds no space and no whitespace at either end, and normalising it again changes nothing |
| Helpers.FirstTouching | __init__.py:1375-1376 | the first remaining edge touching the current vertex; no earlier edge touches it |
| Helpers.FindTouching | __init__.py:1375-1376 | the inner loop stops at the first remaining edge touching the current vertex, or past the end |
| Helpers.WalkCounts | __init__.py:1374-1383 | at most one vertex per round; each vertex added consumes one edge, removed from the caller's list, and no edge is consumed twice |
| Helpers.WalkLinks | __init__.py:1374-1383 | each consecutive pair of the output is an input edge, in either orientation |
| Helpers.WalkEndsStuck | __init__.py:1374-1383 | a walk that adds fewer vertices than it has rounds ends at a vertex no remaining edge touches |
| Helpers.WalkStuck | __init__.py:1374-1383 | once no edge touches the current vertex, the remaining rounds change nothing |
| Helpers.SortedVertices | __init__.py:1368-1383 | the output starts at the start vertex and continues with the walk; what is left of the caller's list is the walk's remainder |
| SwiftBlock.NewBlocks | __init__.py:816-821 | one enabled block per vertex list, with id equal to its index |
| SwiftBlock.BlockingObject.constructor | __init__.py:105-177 | a mesh object before any build has no blocks, faces, block edges or groups |
| SwiftBlock.BlockingObject.RepairBlockFacesEdges | __init__.py:1127-1168 | succeeds iff every face side is -1 or a block index and every block edge has a mesh edge; the quads become the face fold and the edges the edge repair; on a failure, the records handled before it stay applied (a bad face record leaves the edges untouched) |
| SwiftBlock.BlockingObject.RepairEdgeFlags | __init__.py:1156-1165 | the edge loop succeeds iff every block edge record has a mesh edge; the edges become the edge repair (each record's edge shown, or hidden and deselected), or on failure the repair of the records before the first one without a mesh edge |
| SwiftBlock.BlockingObject.HeldByEnabledBlock | __init__.py:1159-1162 | the block loop finds the edge visible iff some enabled block holds both endpoints |
| SwiftBlock.BlockingObject.EnableBlock | __init__.py:483-495 | an index in range toggles exactly that block's enabled flag (negative indices from the end), then repairs, a failed repair leaving the face and edge records handled before the failure applied; an index out of range changes nothing |
| SwiftBlock.BlockingObject.EdgeSelectAligned | __init__.py:348-360 | the edges become the original selection plus every visible edge whose group id is that of a selected edge; nothing but selection flags changes |
| SwiftBlock.BlockingObject.FlipEdge | __init__.py:367-386 | exactly the edges in the group of the first selected edge have their endpoints swapped |
| SwiftBlock.BlockingObject.SetEdgeGroup | __init__.py:540-557 | the selected edge indices, comma-joined, are stored under the name, in the first group with it or in a new group at the end |
| SwiftBlock.BlockingObject.DelEdgeGroup | __init__.py:504-511 | the first group with the name is removed, and the result says whether there was one |
| SwiftBlock.BlockingObject.GetEdgeGroup | __init__.py:519-531 | all edges are deselected, then the visible edges listed by each group with the name are selected; a bad list or an index past the last edge stops it with what was selected so far |
| SwiftBlock.BlockingObject.DeselectAll | __init__.py:522 | every edge is deselected and nothing else changes |
| SwiftBlock.BlockingObject.SelectListed | __init__.py:528-529 | the listed visible edges are selected in turn, on top of the earlier selection; an index past the last edge stops it with what was selected so far |
| SwiftBlock.BlockingObject.CreateBlocks | __init__.py:816-821 | the blocks are replaced by one fresh block per vertex list |
| SwiftBlock.BlockingObject.StampGroup | __init__.py:830-840 | one record per pair of the group is appended, and the group's id is stamped on each pair's mesh edge |
| SwiftBlock.BlockingObject.StampRecord | __init__.py:831-840 | one record is appended and its id stamped on the mesh edge it names, in either orientation |
| SwiftBlock.BlockingObject.StampBlockEdges | __init__.py:828-840 | the block edges become the records of the finder's groups, and the mesh edges carry the stamped group ids |
| SwiftBlock.BlockingObject.TurnEdge | __init__.py:892-895 | a direction not stored as asked reverses the edge stored the other way round; otherwise nothing changes |
| SwiftBlock.BlockingObject.TurnGroup | __init__.py:891-895 | the inner loop applies the directions of one group in order |
| SwiftBlock.BlockingObject.TurnEdges | __init__.py:886-895 | the mesh edges end up re-oriented by all the computed directions, looked up in the dictionary taken before the loop |
| SwiftBlock.BlockingObject.BuildBlocking | __init__.py:816-898 | new blocks and block edges, with group ids stamped; fails with face records untouched iff no face references a block; otherwise renumbered face records and edges turned to the computed directions, then the repair of those turned edges, which on failure leaves the records handled before it applied and is reported as an error |

## Left out

- The block finder, `getEdgeDirections` and `findFace` are not part of this model. The sources of `blockBuilder` and `utils` are not available. Their outputs are parameters of `BuildBlocking`: block vertex lists, edge groups, face adjacency, face vertices, mesh face ids and edge directions.
- `BuildBlocking` requires that every pair the finder reports is an edge of the mesh, stored one way or the other. Otherwise the source stops with a `KeyError` part-way through the stamping or direction loop; the model does not capture that partial state.
- The face adjacency (`face_info`) is taken as a list indexed by face number, not as a dictionary. `BuildBlocking` requires an entry for every face number; a missing one is a `KeyError` in the source, which the model does not capture.
- Grading (`collectEdges`, `setCellSize`), snapping, edge-direction drawing, panels, operator `draw` wrappers and mode switches are left out. These are floating-point, user-interface or editor-refresh code.
- `scene.block_index`, set by `EnableBlock`, is left out. It is user-interface state.
- `hide_set` also hides or shows an edge's vertices, and hiding an edge hides the faces around it. The model keeps only the edge's hidden and selection flags; quads carry no hidden flag.
- RepairBlockFacesEdges: `bm.faces.new` also creates every edge of a new quad that the mesh lacks. The model's edge array never grows. So when a block edge's mesh edge was deleted and a quad created by the face loop contains it, the model fails the edge loop where the source finds the new edge and carries on.
- EnableBlock: runs the repair above, so it fails in the same case of a deleted edge on a newly created quad.
- BuildBlocking: runs the repair above, so its reported repair failure has the same gap for a deleted edge on a newly created quad.
- A face record whose vertex ids are out of range, or repeat (`bm.verts[...]` fails, `bm.faces.new` refuses), is not modelled. A quad is just its vertex set.
- `ensure_lookup_table` failures in `GetEdgeGroup` are not modelled. Neither is selection flushing from edges to vertices and faces.
- Patch bookkeeping through materials is left out: it depends on Blender's material operators. Only the name normalisation and the colour are modelled.
- `writeMesh`'s file writing, grading collection and mesher call are left out, and so is the build it first runs when the object has no blocks (that build is `BuildBlocking`, modelled on its own). Only the block, face and block-edge gathering is modelled.
- `sortedVertices` is modelled without its coordinate output, string formatting and float arc length. Its first argument enters only as the number of rounds.
- GetBlock's "No block found" report is dead code (a block is always truthy), and is not modelled. With no blocks, `max` fails first, which the model reports as an error.
- NamedGroups.ParseGroupEdges: accepts only plain decimal digits. Python's `int` also accepts signs, surrounding whitespace and underscores. Such strings are never produced by `SetEdgeGroup`.
- Writer.BucketEdges: requires group ids that are not negative. Every block edge record is created with an `enumerate` index. A negative id would index the bucket list from the end in Python.
- Repair.ValidSide: a side index other than -1 must lie in range. Python would also accept another negative index, counting from the end. The renumbering never produces one from non-negative finder ids (Renumber.RenumberOrdered).
- Helpers.PatchColor: the palette holds the source's decimal values as exact reals. Floating-point representation is not modelled.
