/**
  Topology repair (`repair_blockFacesEdges`): after a block is enabled or
  disabled, the quad faces and the block edges of the mesh are shown or hidden
  again from the enabled flags alone, without re-running the block finder.

  The mesh's quad faces are a set of vertex sets (a face is found by its
  vertices, in any order); the repair creates or removes the quad of each face
  record in turn.  The mesh's edges carry a hidden flag.
 */
module Repair {
  import opened Mesh

  /** A `pos`/`neg` value repair can use: NoBlock or an index into the blocks. */
  predicate ValidSide(blocks: seq<Block>, side: int)
  {
    side == NoBlock || 0 <= side < |blocks|
  }

  predicate ValidFace(blocks: seq<Block>, f: BlockFace)
  {
    ValidSide(blocks, f.pos) && ValidSide(blocks, f.neg)
  }

  predicate ValidFaces(blocks: seq<Block>, faces: seq<BlockFace>)
  {
    forall i :: 0 <= i < |faces| ==> ValidFace(blocks, faces[i])
  }

  /** The mesh face a record stands for: the set of its vertex ids. */
  function Quad(f: BlockFace): set<int>
  {
    set v | v in f.verts
  }

  /** What repair does with the quad of one record: Some(true) makes sure it
      exists, Some(false) makes sure it does not, None leaves it as it is. */
  function Decision(blocks: seq<Block>, f: BlockFace): (d: Option<bool>)
    requires ValidFace(blocks, f)
    ensures d.None? <==> f.pos == NoBlock && f.neg == NoBlock
    ensures f.pos != NoBlock && f.neg != NoBlock ==>
              d == Some(blocks[f.pos].enabled != blocks[f.neg].enabled)
    ensures f.pos == NoBlock && f.neg != NoBlock ==> d == Some(blocks[f.neg].enabled)
    ensures f.pos != NoBlock && f.neg == NoBlock ==> d == Some(blocks[f.pos].enabled)
  {
    if f.pos != NoBlock && f.neg != NoBlock then
      Some((!blocks[f.pos].enabled && blocks[f.neg].enabled) ||
           (blocks[f.pos].enabled && !blocks[f.neg].enabled))
    else if f.pos == NoBlock && f.neg != NoBlock then
      Some(blocks[f.neg].enabled)
    else if f.pos != NoBlock && f.neg == NoBlock then
      Some(blocks[f.pos].enabled)
    else
      None
  }

  /** One iteration of the face loop. */
  function ApplyFace(blocks: seq<Block>, f: BlockFace, mesh: set<set<int>>): set<set<int>>
    requires ValidFace(blocks, f)
  {
    match Decision(blocks, f)
    case Some(true) => mesh + {Quad(f)}
    case Some(false) => mesh - {Quad(f)}
    case None => mesh
  }

  /** The mesh faces after the face loop has run over all the records in order. */
  function RepairFaces(blocks: seq<Block>, faces: seq<BlockFace>, mesh: set<set<int>>): set<set<int>>
    requires ValidFaces(blocks, faces)
  {
    if |faces| == 0 then mesh
    else ApplyFace(blocks, faces[|faces| - 1], RepairFaces(blocks, faces[..|faces| - 1], mesh))
  }

  /** The decision of the last record for quad `q` that decides anything. */
  function LastDecision(blocks: seq<Block>, faces: seq<BlockFace>, q: set<int>): Option<bool>
    requires ValidFaces(blocks, faces)
  {
    if |faces| == 0 then None
    else
      var f := faces[|faces| - 1];
      if Quad(f) == q && Decision(blocks, f).Some? then Decision(blocks, f)
      else LastDecision(blocks, faces[..|faces| - 1], q)
  }

  /** After repair a quad exists exactly as the last record that decides it
      says, and quads no record decides are left as they were. */
  lemma {:induction false} RepairFacesAt(blocks: seq<Block>, faces: seq<BlockFace>, mesh: set<set<int>>, q: set<int>)
    requires ValidFaces(blocks, faces)
    ensures q in RepairFaces(blocks, faces, mesh) <==>
              match LastDecision(blocks, faces, q)
              case Some(shown) => shown
              case None => q in mesh
  {
    if |faces| > 0 {
      RepairFacesAt(blocks, faces[..|faces| - 1], mesh, q);
    }
  }

  /** Repairing twice without toggling a block gives the same faces as repairing once. */
  lemma RepairFacesIdempotent(blocks: seq<Block>, faces: seq<BlockFace>, mesh: set<set<int>>)
    requires ValidFaces(blocks, faces)
    ensures RepairFaces(blocks, faces, RepairFaces(blocks, faces, mesh)) == RepairFaces(blocks, faces, mesh)
  {
    var once := RepairFaces(blocks, faces, mesh);
    forall q | true
      ensures q in RepairFaces(blocks, faces, once) <==> q in once
    {
      RepairFacesAt(blocks, faces, once, q);
      RepairFacesAt(blocks, faces, mesh, q);
    }
  }

  /** No two records stand for the same quad. */
  predicate DistinctQuads(faces: seq<BlockFace>)
  {
    forall i, j :: 0 <= i < j < |faces| ==> Quad(faces[i]) != Quad(faces[j])
  }

  lemma {:induction false} LastDecisionUnique(blocks: seq<Block>, faces: seq<BlockFace>, i: nat)
    requires ValidFaces(blocks, faces) && DistinctQuads(faces) && i < |faces|
    ensures LastDecision(blocks, faces, Quad(faces[i])) == Decision(blocks, faces[i])
  {
    if i < |faces| - 1 {
      LastDecisionUnique(blocks, faces[..|faces| - 1], i);
    } else {
      var prefix := faces[..|faces| - 1];
      LastDecisionAbsent(blocks, prefix, Quad(faces[i]));
    }
  }

  lemma {:induction false} LastDecisionAbsent(blocks: seq<Block>, faces: seq<BlockFace>, q: set<int>)
    requires ValidFaces(blocks, faces)
    requires forall j :: 0 <= j < |faces| ==> Quad(faces[j]) != q
    ensures LastDecision(blocks, faces, q) == None
  {
    if |faces| > 0 {
      LastDecisionAbsent(blocks, faces[..|faces| - 1], q);
    }
  }

  /** The face rule, for records with distinct quads: with both sides set the
      quad exists afterwards iff exactly one of the two blocks is enabled; with
      one side set iff that block is enabled; with neither it is untouched. */
  lemma FaceRule(blocks: seq<Block>, faces: seq<BlockFace>, mesh: set<set<int>>, i: nat)
    requires ValidFaces(blocks, faces) && DistinctQuads(faces) && i < |faces|
    ensures var f, after := faces[i], RepairFaces(blocks, faces, mesh);
      && (f.pos != NoBlock && f.neg != NoBlock ==>
            (Quad(f) in after <==> blocks[f.pos].enabled != blocks[f.neg].enabled))
      && (f.pos == NoBlock && f.neg != NoBlock ==> (Quad(f) in after <==> blocks[f.neg].enabled))
      && (f.pos != NoBlock && f.neg == NoBlock ==> (Quad(f) in after <==> blocks[f.pos].enabled))
      && (f.pos == NoBlock && f.neg == NoBlock ==> (Quad(f) in after <==> Quad(f) in mesh))
  {
    LastDecisionUnique(blocks, faces, i);
    RepairFacesAt(blocks, faces, mesh, Quad(faces[i]));
  }

  /** Some enabled block has both `a` and `b` among its vertices. */
  predicate EdgeVisible(blocks: seq<Block>, a: int, b: int)
  {
    exists j :: 0 <= j < |blocks| && blocks[j].enabled && a in blocks[j].verts && b in blocks[j].verts
  }

  /** Every block edge record has a mesh edge (the edge loop looks each one up). */
  predicate EdgesPresent(edges: seq<MeshEdge>, blockEdges: seq<BlockEdge>)
  {
    forall j :: 0 <= j < |blockEdges| ==> FindEdge(edges, blockEdges[j].v1, blockEdges[j].v2).Some?
  }

  /** Whether every record has a mesh edge depends only on the edges' endpoints,
      not on which way round they are stored. */
  lemma EdgesPresentEndpoints(xs: seq<MeshEdge>, ys: seq<MeshEdge>, blockEdges: seq<BlockEdge>)
    requires SameEdges(xs, ys)
    ensures EdgesPresent(xs, blockEdges) == EdgesPresent(ys, blockEdges)
  {
    forall j | 0 <= j < |blockEdges|
      ensures FindEdge(xs, blockEdges[j].v1, blockEdges[j].v2) == FindEdge(ys, blockEdges[j].v1, blockEdges[j].v2)
    {
      FindEdgeIgnoresFlags(xs, ys, blockEdges[j].v1, blockEdges[j].v2);
    }
  }

  /** Mesh edge `k` is the one some block edge record looks up. */
  predicate Listed(edges: seq<MeshEdge>, blockEdges: seq<BlockEdge>, k: nat)
  {
    exists j :: 0 <= j < |blockEdges| && FindEdge(edges, blockEdges[j].v1, blockEdges[j].v2) == Some(k)
  }

  /** The mesh edges after the edge loop: a listed edge is hidden, and so
      deselected, unless an enabled block holds both its endpoints, in which
      case it is shown; every other edge is unchanged. */
  function RepairEdges(blocks: seq<Block>, blockEdges: seq<BlockEdge>, edges: seq<MeshEdge>): (r: seq<MeshEdge>)
    ensures SameEndpoints(r, edges)
    ensures forall k :: 0 <= k < |edges| ==> r[k].group == edges[k].group
    ensures forall k :: 0 <= k < |edges| && r[k].selected ==> edges[k].selected
  {
    seq(|edges|, k requires 0 <= k < |edges| =>
      if Listed(edges, blockEdges, k)
      then HideSet(edges[k], !EdgeVisible(blocks, edges[k].v0, edges[k].v1))
      else edges[k])
  }

  /** Handling one more block edge record: its mesh edge, if the record finds
      one, is hidden (and deselected) exactly when no enabled block holds both
      endpoints, and shown otherwise. */
  lemma RepairEdgesStep(blocks: seq<Block>, blockEdges: seq<BlockEdge>, edges: seq<MeshEdge>, j: nat)
    requires j < |blockEdges|
    ensures var e, before := blockEdges[j], RepairEdges(blocks, blockEdges[..j], edges);
      RepairEdges(blocks, blockEdges[..j + 1], edges) ==
        match FindEdge(edges, e.v1, e.v2)
        case None => before
        case Some(k) => before[k := HideSet(before[k], !EdgeVisible(blocks, e.v1, e.v2))]
  {
    var e := blockEdges[j];
    var before := RepairEdges(blocks, blockEdges[..j], edges);
    var after := RepairEdges(blocks, blockEdges[..j + 1], edges);
    forall k | 0 <= k < |edges| {
      ListedStep(edges, blockEdges, j, k);
    }
    match FindEdge(edges, e.v1, e.v2)
    case None =>
      assert after == before;
    case Some(k) =>
      assert EdgeVisible(blocks, edges[k].v0, edges[k].v1) == EdgeVisible(blocks, e.v1, e.v2);
      assert after == before[k := HideSet(before[k], !EdgeVisible(blocks, e.v1, e.v2))];
  }

  /** An edge is listed by one more record iff it was listed before or that
      record finds it. */
  lemma ListedStep(edges: seq<MeshEdge>, blockEdges: seq<BlockEdge>, j: nat, k: nat)
    requires j < |blockEdges|
    ensures Listed(edges, blockEdges[..j + 1], k) <==>
              Listed(edges, blockEdges[..j], k) || FindEdge(edges, blockEdges[j].v1, blockEdges[j].v2) == Some(k)
  {
    var shorter, longer := blockEdges[..j], blockEdges[..j + 1];
    assert longer[j] == blockEdges[j];
    if Listed(edges, shorter, k) {
      var i :| 0 <= i < |shorter| && FindEdge(edges, shorter[i].v1, shorter[i].v2) == Some(k);
      assert longer[i] == shorter[i];
    }
    if Listed(edges, longer, k) && FindEdge(edges, blockEdges[j].v1, blockEdges[j].v2) != Some(k) {
      var i :| 0 <= i < |longer| && FindEdge(edges, longer[i].v1, longer[i].v2) == Some(k);
      assert shorter[i] == longer[i];
    }
  }

  /** The edge rule: afterwards the mesh edge of every block edge record is
      visible iff some enabled block contains both of its endpoints, and it
      keeps its selection only if it is visible. */
  lemma EdgeRule(blocks: seq<Block>, blockEdges: seq<BlockEdge>, edges: seq<MeshEdge>, j: nat)
    requires EdgesPresent(edges, blockEdges) && j < |blockEdges|
    ensures var e := blockEdges[j]; var k := FindEdge(edges, e.v1, e.v2).value;
      && RepairEdges(blocks, blockEdges, edges)[k].hidden == !EdgeVisible(blocks, e.v1, e.v2)
      && RepairEdges(blocks, blockEdges, edges)[k].selected == (edges[k].selected && EdgeVisible(blocks, e.v1, e.v2))
  {
    var e := blockEdges[j];
    var k := FindEdge(edges, e.v1, e.v2).value;
    assert Listed(edges, blockEdges, k);
  }

  /** Repairing the edges twice gives the same edges as repairing once. */
  lemma RepairEdgesIdempotent(blocks: seq<Block>, blockEdges: seq<BlockEdge>, edges: seq<MeshEdge>)
    ensures RepairEdges(blocks, blockEdges, RepairEdges(blocks, blockEdges, edges))
         == RepairEdges(blocks, blockEdges, edges)
  {
    var once := RepairEdges(blocks, blockEdges, edges);
    forall j | 0 <= j < |blockEdges|
      ensures FindEdge(once, blockEdges[j].v1, blockEdges[j].v2) == FindEdge(edges, blockEdges[j].v1, blockEdges[j].v2)
    {
      FindEdgeIgnoresFlags(once, edges, blockEdges[j].v1, blockEdges[j].v2);
    }
    forall k | 0 <= k < |edges|
      ensures Listed(once, blockEdges, k) == Listed(edges, blockEdges, k)
    {
      if Listed(edges, blockEdges, k) {
        var j :| 0 <= j < |blockEdges| && FindEdge(edges, blockEdges[j].v1, blockEdges[j].v2) == Some(k);
        assert FindEdge(once, blockEdges[j].v1, blockEdges[j].v2) == Some(k);
      }
      if Listed(once, blockEdges, k) {
        var j :| 0 <= j < |blockEdges| && FindEdge(once, blockEdges[j].v1, blockEdges[j].v2) == Some(k);
        assert FindEdge(edges, blockEdges[j].v1, blockEdges[j].v2) == Some(k);
      }
    }
  }

  // ---- the whole repair ----

  /** What `repair_blockFacesEdges` leaves behind, going from quads `q0` and
      edges `e0` to quads `q1` and edges `e1`; `ok` says whether it ran to the
      end.  The face loop stops at the first face record with a side out of
      range, leaving the edges alone and the quads of the records before it
      applied; the edge loop stops at the first block edge without a mesh
      edge, leaving the records before it applied. */
  predicate Repaired(blocks: seq<Block>, faces: seq<BlockFace>, blockEdges: seq<BlockEdge>,
                     q0: set<set<int>>, e0: seq<MeshEdge>, ok: bool, q1: set<set<int>>, e1: seq<MeshEdge>)
  {
    && (ok <==> ValidFaces(blocks, faces) && EdgesPresent(e0, blockEdges))
    && (ValidFaces(blocks, faces) ==> q1 == RepairFaces(blocks, faces, q0))
    && (ok ==> e1 == RepairEdges(blocks, blockEdges, e0))
    && (!ValidFaces(blocks, faces) ==>
          && e1 == e0
          && exists p :: 0 <= p < |faces| && ValidFaces(blocks, faces[..p]) &&
               !ValidFace(blocks, faces[p]) && q1 == RepairFaces(blocks, faces[..p], q0))
    && (ValidFaces(blocks, faces) && !ok ==>
          exists p :: 0 <= p < |blockEdges| &&
            (forall m :: 0 <= m < p ==> FindEdge(e0, blockEdges[m].v1, blockEdges[m].v2).Some?) &&
            FindEdge(e0, blockEdges[p].v1, blockEdges[p].v2).None? &&
            e1 == RepairEdges(blocks, blockEdges[..p], e0))
  }
}
