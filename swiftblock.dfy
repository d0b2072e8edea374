/**
  The blocking object: a mesh object that carries, next to its edges and quad
  faces, the list of blocks found in it, the block faces and block edges of the
  last build, and the user's named edge groups.  Its operators change these in
  place.
 */
module SwiftBlock {
  import opened Mesh
  import opened Repair
  import opened Renumber
  import opened EdgeGroups
  import opened NamedGroups

  /** The blocks a build creates: one per vertex list, with id `i`, name
      "block", enabled and not a named region. */
  function NewBlocks(blockVerts: seq<seq<int>>): (r: seq<Block>)
    ensures |r| == |blockVerts|
    ensures forall i :: 0 <= i < |r| ==> r[i].id == i && r[i].verts == blockVerts[i] && r[i].enabled
  {
    seq(|blockVerts|, i requires 0 <= i < |blockVerts| => Block(i, "block", blockVerts[i], true, false))
  }

  /** The index a Python subscript `xs[i]` reads, negative indices counting from the end. */
  function PyIndex(i: int, n: nat): int
  {
    if i < 0 then i + n else i
  }

  class BlockingObject {
    var blocks: seq<Block>
    var blockFaces: seq<BlockFace>
    var blockEdges: seq<BlockEdge>
    var edgeGroups: seq<EdgeGroup>
    /** The quad faces of the mesh, each as the set of its vertex ids. */
    var meshFaces: set<set<int>>
    /** The edges of the mesh; their number never changes here. */
    const edges: array<MeshEdge>

    /** A mesh object before any build: no blocks, faces, block edges or groups. */
    constructor (meshEdges: seq<MeshEdge>, quads: set<set<int>>)
      ensures blocks == [] && blockFaces == [] && blockEdges == [] && edgeGroups == []
      ensures meshFaces == quads && edges[..] == meshEdges && fresh(edges)
    {
      blocks, blockFaces, blockEdges, edgeGroups := [], [], [], [];
      meshFaces := quads;
      edges := new MeshEdge[|meshEdges|](i requires 0 <= i < |meshEdges| => meshEdges[i]);
    }

    // ---- repair_blockFacesEdges ----

    /** Shows or hides the quad of every block face and the mesh edge of every
        block edge from the enabled flags.  The source fails on the first
        record whose side index is out of range, or whose mesh edge does not
        exist; the model reports `false` there and keeps what was done before. */
    method RepairBlockFacesEdges() returns (ok: bool)
      modifies `meshFaces, edges
      ensures Repaired(blocks, blockFaces, blockEdges, old(meshFaces), old(edges[..]), ok, meshFaces, edges[..])
    {
      var i := 0;
      while i < |blockFaces|
        invariant 0 <= i <= |blockFaces| && ValidFaces(blocks, blockFaces[..i])
        invariant edges[..] == old(edges[..])
        invariant meshFaces == RepairFaces(blocks, blockFaces[..i], old(meshFaces))
      {
        var f := blockFaces[i];
        assert blockFaces[..i + 1][..i] == blockFaces[..i];
        if !ValidFace(blocks, f) {
          return false;
        }
        assert ValidFaces(blocks, blockFaces[..i + 1]);
        var quad := set v | v in f.verts;
        if f.pos != NoBlock && f.neg != NoBlock {
          if (!blocks[f.pos].enabled && blocks[f.neg].enabled) || (blocks[f.pos].enabled && !blocks[f.neg].enabled) {
            if quad !in meshFaces {
              meshFaces := meshFaces + {quad};
            }
          } else if quad in meshFaces {
            meshFaces := meshFaces - {quad};
          }
        } else if f.pos == NoBlock && f.neg != NoBlock {
          if blocks[f.neg].enabled {
            if quad !in meshFaces {
              meshFaces := meshFaces + {quad};
            }
          } else if quad in meshFaces {
            meshFaces := meshFaces - {quad};
          }
        } else if f.pos != NoBlock && f.neg == NoBlock {
          if blocks[f.pos].enabled {
            if quad !in meshFaces {
              meshFaces := meshFaces + {quad};
            }
          } else if quad in meshFaces {
            meshFaces := meshFaces - {quad};
          }
        }
        i := i + 1;
      }
      assert blockFaces[..i] == blockFaces;
      ok := RepairEdgeFlags();
    }

    /** The edge loop of the repair. */
    method RepairEdgeFlags() returns (ok: bool)
      modifies edges
      ensures ok <==> EdgesPresent(old(edges[..]), blockEdges)
      ensures ok ==> edges[..] == RepairEdges(blocks, blockEdges, old(edges[..]))
      ensures !ok ==> exists p :: 0 <= p < |blockEdges| &&
                        (forall m :: 0 <= m < p ==>
                           FindEdge(old(edges[..]), blockEdges[m].v1, blockEdges[m].v2).Some?) &&
                        FindEdge(old(edges[..]), blockEdges[p].v1, blockEdges[p].v2).None? &&
                        edges[..] == RepairEdges(blocks, blockEdges[..p], old(edges[..]))
    {
      ghost var start := edges[..];
      var j := 0;
      while j < |blockEdges|
        invariant 0 <= j <= |blockEdges|
        invariant forall m :: 0 <= m < j ==> FindEdge(start, blockEdges[m].v1, blockEdges[m].v2).Some?
        invariant edges[..] == RepairEdges(blocks, blockEdges[..j], start)
      {
        var e := blockEdges[j];
        FindEdgeIgnoresFlags(edges[..], start, e.v1, e.v2);
        RepairEdgesStep(blocks, blockEdges, start, j);
        var found := FindEdge(edges[..], e.v1, e.v2);
        if found.None? {
          return false;
        }
        var visible := HeldByEnabledBlock(e.v1, e.v2);
        var k := found.value;
        if visible {
          edges[k] := HideSet(edges[k], false);
        } else {
          edges[k] := HideSet(edges[k], true);
        }
        j := j + 1;
      }
      assert blockEdges[..j] == blockEdges;
      return true;
    }

    /** The inner block loop of the edge repair: whether some enabled block
        holds both endpoints. */
    method HeldByEnabledBlock(a: int, b: int) returns (visible: bool)
      ensures visible == EdgeVisible(blocks, a, b)
    {
      visible := false;
      var i := 0;
      while i < |blocks|
        invariant 0 <= i <= |blocks|
        invariant visible <==> exists m :: 0 <= m < i && blocks[m].enabled && a in blocks[m].verts && b in blocks[m].verts
      {
        if blocks[i].enabled && a in blocks[i].verts && b in blocks[i].verts {
          visible := true;
        }
        i := i + 1;
      }
    }

    // ---- EnableBlock ----

    /** Toggles the enabled flag of block `blockid` (a Python subscript) and
        repairs faces and edges, a failed repair leaving what it did before
        failing.  An index out of range changes nothing. */
    method EnableBlock(blockid: int) returns (ok: bool)
      modifies `blocks, `meshFaces, edges
      ensures -|old(blocks)| <= blockid < |old(blocks)| ==>
                var i := PyIndex(blockid, |old(blocks)|);
                && blocks == old(blocks)[i := old(blocks)[i].(enabled := !old(blocks)[i].enabled)]
                && Repaired(blocks, blockFaces, blockEdges, old(meshFaces), old(edges[..]), ok, meshFaces, edges[..])
      ensures !(-|old(blocks)| <= blockid < |old(blocks)|) ==>
                !ok && blocks == old(blocks) && meshFaces == old(meshFaces) && edges[..] == old(edges[..])
    {
      if !(-|blocks| <= blockid < |blocks|) {
        return false;
      }
      var i := PyIndex(blockid, |blocks|);
      if blocks[i].enabled {
        blocks := blocks[i := blocks[i].(enabled := false)];
      } else {
        blocks := blocks[i := blocks[i].(enabled := true)];
      }
      ok := RepairBlockFacesEdges();
    }

    // ---- EdgeSelectAligned ----

    /** Selects every edge that shares its group id with a selected edge. */
    method EdgeSelectAligned()
      modifies edges
      ensures edges[..] == AlignedSelection(old(edges[..]))
    {
      ghost var start := edges[..];
      var n := edges.Length;
      var i := 0;
      while i < n
        invariant 0 <= i <= n
        invariant forall k :: 0 <= k < n ==>
                    edges[k] == start[k].(selected := start[k].selected ||
                                                      (!start[k].hidden && GroupSelected(start[..i], start[k].group)))
      {
        forall h {
          GroupSelectedPrefix(start, i, h);
        }
        if edges[i].selected {
          var groupid := edges[i].group;
          var m := 0;
          while m < n
            invariant 0 <= m <= n
            invariant forall k :: 0 <= k < n ==>
                        edges[k] == start[k].(selected := start[k].selected ||
                                                          (!start[k].hidden && (GroupSelected(start[..i], start[k].group)
                                                          || (k < m && start[k].group == groupid))))
          {
            if edges[m].group == groupid {
              edges[m] := SelectEdge(edges[m]);
            }
            m := m + 1;
          }
        }
        i := i + 1;
      }
      assert start[..n] == start;
    }

    // ---- FlipEdge ----

    /** Reverses every edge in the group of the first selected edge. */
    method FlipEdge()
      modifies edges
      ensures edges[..] == Flipped(old(edges[..]))
    {
      ghost var start := edges[..];
      var flip := FlipTargets(edges[..]);
      var i := 0;
      while i < |flip|
        invariant 0 <= i <= |flip|
        invariant forall k :: 0 <= k < edges.Length ==>
                    edges[k] == if k in flip[..i] then Reversed(start[k]) else start[k]
      {
        var fe := flip[i];
        assert fe !in flip[..i];
        assert flip[..i + 1] == flip[..i] + [fe];
        edges[fe] := edges[fe].(v0 := edges[fe].v1, v1 := edges[fe].v0);
        i := i + 1;
      }
      assert flip[..i] == flip;
    }

    // ---- named edge groups ----

    /** Stores the indices of the selected edges under `name`, overwriting the
        first group of that name or appending a new one. */
    method SetEdgeGroup(name: string)
      modifies `edgeGroups
      ensures edgeGroups == SetGroup(old(edgeGroups), name, Join(SelectedIndices(edges[..])))
    {
      var selected: seq<nat> := [];
      var e := 0;
      while e < edges.Length
        invariant 0 <= e <= edges.Length
        invariant selected == SelectedIndices(edges[..e])
      {
        assert edges[..e + 1][..e] == edges[..e];
        if edges[e].selected {
          selected := selected + [e];
        }
        e := e + 1;
      }
      assert edges[..e] == edges[..];
      var text := Join(selected);
      var i := 0;
      while i < |edgeGroups|
        invariant 0 <= i <= |edgeGroups| && edgeGroups == old(edgeGroups)
        invariant forall j :: 0 <= j < i ==> edgeGroups[j].name != name
      {
        if edgeGroups[i].name == name {
          edgeGroups := edgeGroups[i := edgeGroups[i].(edges := text)];
          return;
        }
        i := i + 1;
      }
      edgeGroups := edgeGroups + [EdgeGroup(name, text)];
    }

    /** Removes the first group called `name`; `false` if there is none. */
    method DelEdgeGroup(name: string) returns (found: bool)
      modifies `edgeGroups
      ensures (edgeGroups, found) == DelGroup(old(edgeGroups), name)
    {
      var i := 0;
      while i < |edgeGroups|
        invariant 0 <= i <= |edgeGroups| && edgeGroups == old(edgeGroups)
        invariant forall j :: 0 <= j < i ==> edgeGroups[j].name != name
      {
        if edgeGroups[i].name == name {
          edgeGroups := edgeGroups[..i] + edgeGroups[i + 1..];
          return true;
        }
        i := i + 1;
      }
      return false;
    }

    /** Deselects every edge, then selects the edges listed by each group called
        `name` in turn; a listed edge that is hidden stays unselected.  A list
        that does not parse or an index past the last edge stops the operator
        (`false`), keeping what was selected so far. */
    method GetEdgeGroup(name: string) returns (ok: bool)
      modifies edges
      ensures ok == SelectGroups(edgeGroups, name, edges.Length).1
      ensures forall k :: 0 <= k < edges.Length ==>
                edges[k] == old(edges[k]).(selected := !old(edges[k]).hidden && k in SelectGroups(edgeGroups, name, edges.Length).0)
    {
      ghost var start := edges[..];
      DeselectAll();
      var n := edges.Length;
      var g := 0;
      while g < |edgeGroups|
        invariant 0 <= g <= |edgeGroups| && SelectGroups(edgeGroups[..g], name, n).1
        invariant forall k :: 0 <= k < n ==>
                    edges[k] == start[k].(selected := !start[k].hidden && k in SelectGroups(edgeGroups[..g], name, n).0)
      {
        assert edgeGroups[..g + 1][..g] == edgeGroups[..g];
        if edgeGroups[g].name == name {
          var parsed := ParseGroupEdges(edgeGroups[g].edges);
          if parsed.None? {
            SelectGroupsStops(edgeGroups, name, n, g + 1);
            return false;
          }
          var listed := SelectListed(start, SelectGroups(edgeGroups[..g], name, n).0, parsed.value);
          if !listed {
            SelectGroupsStops(edgeGroups, name, n, g + 1);
            return false;
          }
        }
        g := g + 1;
      }
      assert edgeGroups[..g] == edgeGroups;
      return true;
    }

    /** `select_all(action="DESELECT")`: every edge deselected. */
    method DeselectAll()
      modifies edges
      ensures forall k :: 0 <= k < edges.Length ==> edges[k] == old(edges[k]).(selected := false)
    {
      var e := 0;
      while e < edges.Length
        invariant 0 <= e <= edges.Length
        invariant forall k :: 0 <= k < edges.Length ==>
                    edges[k] == old(edges[k]).(selected := k >= e && old(edges[k]).selected)
      {
        edges[e] := edges[e].(selected := false);
        e := e + 1;
      }
    }

    /** The inner loop of GetEdgeGroup: selects the listed visible edges in turn
        and stops (`false`) at the first index past the last edge. */
    method SelectListed(ghost start: seq<MeshEdge>, ghost before: set<nat>, xs: seq<nat>) returns (ok: bool)
      requires |start| == edges.Length
      requires forall k :: 0 <= k < edges.Length ==> edges[k] == start[k].(selected := !start[k].hidden && k in before)
      modifies edges
      ensures ok == SelectIndices(xs, edges.Length).1
      ensures forall k :: 0 <= k < edges.Length ==>
                edges[k] == start[k].(selected := !start[k].hidden && k in before + SelectIndices(xs, edges.Length).0)
    {
      var n := edges.Length;
      var m := 0;
      while m < |xs|
        invariant 0 <= m <= |xs| && SelectIndices(xs[..m], n).1
        invariant forall k :: 0 <= k < n ==>
                    edges[k] == start[k].(selected := !start[k].hidden && k in before + SelectIndices(xs[..m], n).0)
      {
        assert xs[..m + 1][..m] == xs[..m];
        if xs[m] >= n {
          SelectIndicesStops(xs, n, m + 1);
          return false;
        }
        edges[xs[m]] := SelectEdge(edges[xs[m]]);
        m := m + 1;
      }
      assert xs[..m] == xs;
      return true;
    }

    // ---- BuildBlocking ----

    /** The block loop of a build: the block list replaced by fresh blocks. */
    method CreateBlocks(blockVerts: seq<seq<int>>)
      modifies `blocks
      ensures blocks == NewBlocks(blockVerts)
    {
      var newBlocks: seq<Block> := [];
      var i := 0;
      while i < |blockVerts|
        invariant 0 <= i <= |blockVerts| && |newBlocks| == i
        invariant forall j :: 0 <= j < i ==> newBlocks[j] == Block(j, "block", blockVerts[j], true, false)
      {
        newBlocks := newBlocks + [Block(i, "block", blockVerts[i], true, false)];
        i := i + 1;
      }
      assert newBlocks == NewBlocks(blockVerts);
      blocks := newBlocks;
    }

    /** The inner block edge loop, over the pairs of group `id`. */
    method StampGroup(ghost start: seq<MeshEdge>, edgeDict: map<(int, int), nat>, id: int, g: seq<(int, int)>)
      requires edgeDict == EdgeDict(start) && |start| == edges.Length
      requires forall m :: 0 <= m < |g| ==> (g[m].0, g[m].1) in edgeDict || (g[m].1, g[m].0) in edgeDict
      requires RecordsInMesh(edgeDict, blockEdges) && edges[..] == Stamped(start, blockEdges)
      modifies `blockEdges, edges
      ensures blockEdges == old(blockEdges) + GroupRecords(id, g)
      ensures RecordsInMesh(edgeDict, blockEdges) && edges[..] == Stamped(start, blockEdges)
    {
      var m := 0;
      while m < |g|
        invariant 0 <= m <= |g|
        invariant blockEdges == old(blockEdges) + GroupRecords(id, g[..m])
        invariant RecordsInMesh(edgeDict, blockEdges)
        invariant edges[..] == Stamped(start, blockEdges)
      {
        ghost var before := blockEdges;
        StampRecord(start, edgeDict, BlockEdge(id, g[m].0, g[m].1));
        GroupRecordsStep(id, g, m);
        assert old(blockEdges) + GroupRecords(id, g[..m + 1]) == before + [BlockEdge(id, g[m].0, g[m].1)];
        m := m + 1;
      }
      assert g[..m] == g;
    }

    /** The body of the stamping loop: the record is appended and its id
        stamped on the mesh edge it names, in either orientation. */
    method StampRecord(ghost start: seq<MeshEdge>, edgeDict: map<(int, int), nat>, record: BlockEdge)
      requires edgeDict == EdgeDict(start) && |start| == edges.Length
      requires (record.v1, record.v2) in edgeDict || (record.v2, record.v1) in edgeDict
      requires RecordsInMesh(edgeDict, blockEdges) && edges[..] == Stamped(start, blockEdges)
      modifies `blockEdges, edges
      ensures blockEdges == old(blockEdges) + [record]
      ensures RecordsInMesh(edgeDict, blockEdges) && edges[..] == Stamped(start, blockEdges)
    {
      StampedStep(start, blockEdges, record);
      blockEdges := blockEdges + [record];
      var be := Lookup(edgeDict, record.v1, record.v2);
      edges[be] := edges[be].(group := record.id);
    }

    /** The block edge loop of a build: one record per pair of each edge group,
        and the group's index stamped on the pair's mesh edge. */
    method StampBlockEdges(groups: seq<seq<(int, int)>>)
      requires GroupsInMesh(EdgeDict(edges[..]), groups)
      modifies `blockEdges, edges
      ensures RecordsInMesh(EdgeDict(old(edges[..])), Records(groups))
      ensures blockEdges == Records(groups)
      ensures edges[..] == Stamped(old(edges[..]), Records(groups))
    {
      ghost var start := edges[..];
      GroupsInMeshRecords(EdgeDict(start), groups);
      var edgeDict := EdgeDict(edges[..]);
      blockEdges := [];
      var i := 0;
      while i < |groups|
        invariant 0 <= i <= |groups| && blockEdges == Records(groups[..i])
        invariant RecordsInMesh(edgeDict, blockEdges)
        invariant edges[..] == Stamped(start, blockEdges)
      {
        RecordsPrefix(groups, i);
        StampGroup(start, edgeDict, i, groups[i]);
        i := i + 1;
      }
      assert groups[..i] == groups;
    }

    /** One step of the direction loop: reverse the mesh edge stored as the
        reverse of `e`, unless `e` itself is stored. */
    method TurnEdge(edgeList: map<(int, int), nat>, e: (int, int))
      requires (e.0, e.1) in edgeList || (e.1, e.0) in edgeList
      requires forall key :: key in edgeList ==> edgeList[key] < edges.Length
      modifies edges
      ensures (e.0, e.1) !in edgeList ==>
                var k := edgeList[(e.1, e.0)]; edges[..] == old(edges[..])[k := Reversed(old(edges[k]))]
      ensures (e.0, e.1) in edgeList ==> edges[..] == old(edges[..])
    {
      if (e.0, e.1) !in edgeList {
        var ei := edgeList[(e.1, e.0)];
        edges[ei] := edges[ei].(v0 := edges[ei].v1, v1 := edges[ei].v0);
      }
    }

    /** The inner direction loop, over the directions of one group. */
    method TurnGroup(ghost start: seq<MeshEdge>, ghost done: seq<(int, int)>, edgeList: map<(int, int), nat>,
                     ed: seq<(int, int)>)
      requires edgeList == EdgeDict(start) && |start| == edges.Length
      requires forall m :: 0 <= m < |ed| ==> (ed[m].0, ed[m].1) in edgeList || (ed[m].1, ed[m].0) in edgeList
      requires edges[..] == Reoriented(start, done)
      modifies edges
      ensures edges[..] == Reoriented(start, done + ed)
    {
      assert done + ed[..0] == done;
      var m := 0;
      while m < |ed|
        invariant 0 <= m <= |ed|
        invariant edges[..] == Reoriented(start, done + ed[..m])
      {
        ReorientedPrefixStep(start, done, ed, m);
        TurnEdge(edgeList, ed[m]);
        m := m + 1;
      }
      assert ed[..m] == ed;
    }

    /** The direction loop of a build: each requested direction that is not
        stored as asked reverses the mesh edge stored the other way round, as
        found in the dictionary taken before the loop. */
    method TurnEdges(dirs: seq<seq<(int, int)>>)
      requires GroupsInMesh(EdgeDict(edges[..]), dirs)
      modifies edges
      ensures edges[..] == Reoriented(old(edges[..]), Flatten(dirs))
    {
      ghost var start := edges[..];
      var edgeList := EdgeDict(edges[..]);
      var d := 0;
      while d < |dirs|
        invariant 0 <= d <= |dirs|
        invariant edges[..] == Reoriented(start, Flatten(dirs[..d]))
      {
        assert dirs[..d + 1][..d] == dirs[..d];
        TurnGroup(start, Flatten(dirs[..d]), edgeList, dirs[d]);
        d := d + 1;
      }
      assert dirs[..d] == dirs;
    }

    /** Rebuilds the blocking from what the block finder reported for this
        mesh: the vertex lists of the blocks, the edge groups (pairs of aligned
        edges), the blocks on either side of each block face with the face's
        vertices and matching mesh face id, and the directions computed for the
        edges.  It creates the blocks, records the block edges and stamps their
        group ids on the mesh edges, renumbers the face sides past the gaps in
        the reported block ids, turns mesh edges to the computed directions and
        repairs.  With no block referenced by any face, `max` fails after the
        stamping; a failed repair is reported too. */
    method BuildBlocking(blockVerts: seq<seq<int>>, groups: seq<seq<(int, int)>>,
                         info: seq<FaceAdjacency>, nodes: seq<seq<int>>, faceIds: seq<int>,
                         dirs: seq<seq<(int, int)>>)
      returns (r: Result<nat>)
      requires |nodes| <= |info| && |faceIds| == |nodes|
      requires GroupsInMesh(EdgeDict(edges[..]), groups) && GroupsInMesh(EdgeDict(edges[..]), dirs)
      modifies `blocks, `blockEdges, `blockFaces, `meshFaces, edges
      ensures RecordsInMesh(EdgeDict(old(edges[..])), Records(groups))
      ensures blocks == NewBlocks(blockVerts) && blockEdges == Records(groups)
      ensures |Refs(info)| == 0 ==>
                && r.Err? && blockFaces == old(blockFaces) && meshFaces == old(meshFaces)
                && edges[..] == Stamped(old(edges[..]), Records(groups))
      ensures |Refs(info)| > 0 ==>
                && |blockFaces| == |nodes|
                && (forall i :: 0 <= i < |nodes| ==>
                      blockFaces[i] == BlockFace(faceIds[i], nodes[i],
                                                 NewSide(info[i].pos, Decrease(info, |blockVerts| - 1)),
                                                 NewSide(info[i].neg, Decrease(info, |blockVerts| - 1)), true))
                && (r.Ok? <==> ValidFaces(blocks, blockFaces) &&
                               EdgesPresent(Stamped(old(edges[..]), Records(groups)), blockEdges))
                && Repaired(blocks, blockFaces, blockEdges, old(meshFaces),
                            Reoriented(Stamped(old(edges[..]), Records(groups)), Flatten(dirs)),
                            r.Ok?, meshFaces, edges[..])
      ensures r.Ok? ==>
                && r.value == |blockVerts|
                && ValidFaces(blocks, blockFaces)
                && meshFaces == RepairFaces(blocks, blockFaces, old(meshFaces))
                && edges[..] == RepairEdges(blocks, blockEdges,
                                            Reoriented(Stamped(old(edges[..]), Records(groups)), Flatten(dirs)))
    {
      ghost var start := edges[..];
      CreateBlocks(blockVerts);
      StampBlockEdges(groups);
      ghost var stamped := edges[..];
      var faces := RenumberFaces(info, nodes, faceIds, |blocks| - 1);
      if faces.Err? {
        return Err(faces.msg);
      }
      blockFaces := faces.value;
      EdgeDictEndpoints(stamped, start);
      TurnEdges(dirs);
      ghost var turned := edges[..];
      ReorientedSameEdges(stamped, Flatten(dirs));
      var repaired := RepairBlockFacesEdges();
      if !repaired {
        EdgesPresentEndpoints(turned, stamped, blockEdges);
        return Err("repair failed");
      }
      EdgesPresentEndpoints(turned, stamped, blockEdges);
      return Ok(|blockVerts|);
    }
  }
}
