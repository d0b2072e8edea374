/**
  The data model of a SwiftBlock blocking object: the records the add-on keeps
  on the Blender object (blocks, block faces, block edges, named edge groups)
  and the edges of the wireframe mesh with the per-edge layers the operators
  read and write.  Everything is addressed by integer index.
 */
module Mesh {

  datatype Option<T> = None | Some(value: T)

  datatype Result<T> = Ok(value: T) | Err(msg: string)

  /** The value a face record stores in `pos` or `neg` when no block is on that side. */
  const NoBlock: int := -1

  /** A block record: its id, its region name, its 8 vertex ids, whether it is
      enabled and whether it is a named region. */
  datatype Block = Block(id: int, name: string, verts: seq<int>, enabled: bool, namedRegion: bool)

  /** A block face record: the mesh face it was matched to, its 4 vertex ids,
      the block on its positive and negative side (NoBlock for none). */
  datatype BlockFace = BlockFace(id: int, verts: seq<int>, pos: int, neg: int, enabled: bool)

  /** A block edge record: the edge group it belongs to and its two vertex ids. */
  datatype BlockEdge = BlockEdge(id: int, v1: int, v2: int)

  /** A named edge group: its name and its edge indices joined by commas. */
  datatype EdgeGroup = EdgeGroup(name: string, edges: string)

  /** An edge of the blocking mesh: its endpoints in stored order and its
      `groupid` layer, selection flag and hidden flag. */
  datatype MeshEdge = MeshEdge(v0: int, v1: int, group: int, selected: bool, hidden: bool)

  /** The edge connects `a` and `b`, in either order. */
  predicate Joins(e: MeshEdge, a: int, b: int)
  {
    (e.v0 == a && e.v1 == b) || (e.v0 == b && e.v1 == a)
  }

  /** The edge with its endpoints exchanged, everything else kept. */
  function Reversed(e: MeshEdge): (r: MeshEdge)
    ensures r.v0 == e.v1 && r.v1 == e.v0
    ensures r.group == e.group && r.selected == e.selected && r.hidden == e.hidden
  {
    e.(v0 := e.v1, v1 := e.v0)
  }

  /** `e.select = True`: Blender ignores the request on a hidden edge. */
  function SelectEdge(e: MeshEdge): (r: MeshEdge)
    ensures r.selected == (e.selected || !e.hidden)
    ensures r.v0 == e.v0 && r.v1 == e.v1 && r.group == e.group && r.hidden == e.hidden
  {
    if e.hidden then e else e.(selected := true)
  }

  /** `e.hide_set(state)`: hiding an edge also deselects it; showing it keeps
      its selection. */
  function HideSet(e: MeshEdge, state: bool): (r: MeshEdge)
    ensures r.hidden == state && r.selected == (e.selected && !state)
    ensures r.v0 == e.v0 && r.v1 == e.v1 && r.group == e.group
  {
    if state then e.(hidden := true, selected := false) else e.(hidden := false)
  }

  /** Two edge lists with the same endpoints at every index (flags may differ). */
  predicate SameEndpoints(xs: seq<MeshEdge>, ys: seq<MeshEdge>)
  {
    |xs| == |ys| && forall k :: 0 <= k < |xs| ==> xs[k].v0 == ys[k].v0 && xs[k].v1 == ys[k].v1
  }

  /** Two edge lists joining the same pairs of vertices at every index, each
      edge stored either way round (flags may differ). */
  predicate SameEdges(xs: seq<MeshEdge>, ys: seq<MeshEdge>)
  {
    |xs| == |ys| && forall k :: 0 <= k < |xs| ==> Joins(xs[k], ys[k].v0, ys[k].v1)
  }

  /** `bm.edges.get((a, b))`: the first edge joining `a` and `b`, in either order. */
  function FindEdge(edges: seq<MeshEdge>, a: int, b: int): (r: Option<nat>)
    ensures r.Some? ==> r.value < |edges| && Joins(edges[r.value], a, b)
    ensures r.Some? ==> forall k :: 0 <= k < r.value ==> !Joins(edges[k], a, b)
    ensures r.None? ==> forall k :: 0 <= k < |edges| ==> !Joins(edges[k], a, b)
  {
    if |edges| == 0 then None
    else
      var r := FindEdge(edges[..|edges| - 1], a, b);
      if r.Some? then r
      else if Joins(edges[|edges| - 1], a, b) then Some(|edges| - 1)
      else None
  }

  /** FindEdge looks only at the two endpoints, in either order, so reversing
      edges or changing their flags or group ids does not move it. */
  lemma {:induction false} FindEdgeIgnoresFlags(xs: seq<MeshEdge>, ys: seq<MeshEdge>, a: int, b: int)
    requires SameEdges(xs, ys)
    ensures FindEdge(xs, a, b) == FindEdge(ys, a, b)
  {
    if |xs| > 0 {
      FindEdgeIgnoresFlags(xs[..|xs| - 1], ys[..|ys| - 1], a, b);
    }
  }

  /** FindEdge does not care which endpoint is named first. */
  lemma FindEdgeSymmetric(edges: seq<MeshEdge>, a: int, b: int)
    ensures FindEdge(edges, a, b) == FindEdge(edges, b, a)
  {
  }
}
