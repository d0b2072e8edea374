/**
  Edge-group operations on the mesh edges: selecting every edge aligned with a
  selected one, flipping the direction of a whole group, stamping the group ids
  a build found onto the `groupid` layer, and re-orienting stored edges to the
  directions the build computed.
 */
module EdgeGroups {
  import opened Mesh

  // ---- EdgeSelectAligned ----

  /** Some originally selected edge shares group `g`. */
  predicate GroupSelected(edges: seq<MeshEdge>, g: int)
  {
    exists j :: 0 <= j < |edges| && edges[j].selected && edges[j].group == g
  }

  /** The selection after "select aligned": an edge is selected afterwards iff
      it was selected, or it is visible and its group id is that of some
      selected edge (Blender ignores a request to select a hidden edge). */
  function AlignedSelection(edges: seq<MeshEdge>): (r: seq<MeshEdge>)
    ensures |r| == |edges|
  {
    seq(|edges|, k requires 0 <= k < |edges| =>
      edges[k].(selected := edges[k].selected || (!edges[k].hidden && GroupSelected(edges, edges[k].group))))
  }

  /** Selecting aligned edges never deselects and touches nothing but the
      selection flags. */
  lemma AlignedSelectionGrows(edges: seq<MeshEdge>)
    ensures forall k :: 0 <= k < |edges| && edges[k].selected ==> AlignedSelection(edges)[k].selected
    ensures forall k :: 0 <= k < |edges| ==>
              AlignedSelection(edges)[k] == edges[k].(selected := AlignedSelection(edges)[k].selected)
  {
  }

  /** Selecting aligned edges a second time changes nothing. */
  lemma AlignedSelectionIdempotent(edges: seq<MeshEdge>)
    ensures AlignedSelection(AlignedSelection(edges)) == AlignedSelection(edges)
  {
    var once := AlignedSelection(edges);
    forall g | GroupSelected(once, g)
      ensures GroupSelected(edges, g)
    {
      var j :| 0 <= j < |once| && once[j].selected && once[j].group == g;
      if !edges[j].selected {
        var i :| 0 <= i < |edges| && edges[i].selected && edges[i].group == edges[j].group;
      }
    }
    forall g | GroupSelected(edges, g)
      ensures GroupSelected(once, g)
    {
      var j :| 0 <= j < |edges| && edges[j].selected && edges[j].group == g;
      assert once[j].selected;
    }
  }

  /** Looking one edge further: the groups selected among the first `i + 1`
      edges are those among the first `i`, plus edge `i`'s group if it is selected. */
  lemma GroupSelectedPrefix(edges: seq<MeshEdge>, i: nat, g: int)
    requires i < |edges|
    ensures GroupSelected(edges[..i + 1], g) <==>
              GroupSelected(edges[..i], g) || (edges[i].selected && edges[i].group == g)
  {
    var longer, shorter := edges[..i + 1], edges[..i];
    if GroupSelected(longer, g) && !(edges[i].selected && edges[i].group == g) {
      var j :| 0 <= j < |longer| && longer[j].selected && longer[j].group == g;
      assert shorter[j] == longer[j];
    }
    if GroupSelected(shorter, g) {
      var j :| 0 <= j < |shorter| && shorter[j].selected && shorter[j].group == g;
      assert longer[j] == shorter[j];
    }
    if edges[i].selected && edges[i].group == g {
      assert longer[i] == edges[i];
    }
  }

  // ---- FlipEdge ----

  /** The group flipped by FlipEdge: that of the first selected edge, if any. */
  function FirstSelected(edges: seq<MeshEdge>): (r: Option<nat>)
    ensures r.Some? ==> r.value < |edges| && edges[r.value].selected
    ensures r.Some? ==> forall k :: 0 <= k < r.value ==> !edges[k].selected
    ensures r.None? ==> forall k :: 0 <= k < |edges| ==> !edges[k].selected
  {
    if |edges| == 0 then None
    else
      var r := FirstSelected(edges[..|edges| - 1]);
      if r.Some? then r
      else if edges[|edges| - 1].selected then Some(|edges| - 1)
      else None
  }

  /** Edge `k` is in the group of the first selected edge. */
  predicate ToFlip(edges: seq<MeshEdge>, k: nat)
    requires k < |edges|
  {
    var first := FirstSelected(edges);
    first.Some? && edges[k].group == edges[first.value].group
  }

  /** The edges after FlipEdge: the edges of the first selected edge's group are
      reversed, all other edges are as they were. */
  function Flipped(edges: seq<MeshEdge>): (r: seq<MeshEdge>)
    ensures |r| == |edges|
  {
    seq(|edges|, k requires 0 <= k < |edges| => if ToFlip(edges, k) then Reversed(edges[k]) else edges[k])
  }

  /** FirstSelected depends only on the selection flags. */
  lemma {:induction false} FirstSelectedOnSelection(xs: seq<MeshEdge>, ys: seq<MeshEdge>)
    requires |xs| == |ys| && forall k :: 0 <= k < |xs| ==> xs[k].selected == ys[k].selected
    ensures FirstSelected(xs) == FirstSelected(ys)
  {
    if |xs| > 0 {
      FirstSelectedOnSelection(xs[..|xs| - 1], ys[..|ys| - 1]);
    }
  }

  /** Flipping changes nothing without a selection, and never changes group ids
      or selection. */
  lemma FlipKeepsGroups(edges: seq<MeshEdge>)
    ensures FirstSelected(edges).None? ==> Flipped(edges) == edges
    ensures forall k :: 0 <= k < |edges| ==>
              Flipped(edges)[k].group == edges[k].group && Flipped(edges)[k].selected == edges[k].selected
  {
  }

  /** Flipping twice with the same selection restores the original endpoints. */
  lemma FlipInvolution(edges: seq<MeshEdge>)
    ensures Flipped(Flipped(edges)) == edges
  {
    var once := Flipped(edges);
    FirstSelectedOnSelection(once, edges);
    forall k | 0 <= k < |edges|
      ensures Flipped(once)[k] == edges[k]
    {
      assert ToFlip(once, k) == ToFlip(edges, k);
    }
  }

  /** The first loop of FlipEdge: the indices of the edges in the group of the
      first selected edge, in increasing order. */
  method FlipTargets(edges: seq<MeshEdge>) returns (flip: seq<nat>)
    ensures forall i :: 0 <= i < |flip| ==> flip[i] < |edges| && ToFlip(edges, flip[i])
    ensures forall k :: 0 <= k < |edges| && ToFlip(edges, k) ==> k in flip
    ensures forall i, j :: 0 <= i < j < |flip| ==> flip[i] < flip[j]
  {
    flip := [];
    var e := 0;
    while e < |edges|
      invariant 0 <= e <= |edges|
      invariant forall k :: 0 <= k < e ==> !edges[k].selected
      invariant flip == []
    {
      if edges[e].selected {
        var groupid := edges[e].group;
        var i := 0;
        while i < |edges|
          invariant 0 <= i <= |edges|
          invariant forall m :: 0 <= m < |flip| ==> flip[m] < i && edges[flip[m]].group == groupid
          invariant forall k :: 0 <= k < i && edges[k].group == groupid ==> k in flip
          invariant forall m, n :: 0 <= m < n < |flip| ==> flip[m] < flip[n]
        {
          if edges[i].group == groupid {
            flip := flip + [i];
          }
          i := i + 1;
        }
        return;
      }
      e := e + 1;
    }
  }

  // ---- group-id stamping after a build ----

  /** `edgeDict` of the build: each directed (v0, v1) of the mesh edges mapped
      to the index of the last edge stored that way. */
  function EdgeDict(edges: seq<MeshEdge>): (d: map<(int, int), nat>)
    ensures forall k :: 0 <= k < |edges| ==> (edges[k].v0, edges[k].v1) in d
    ensures forall key :: key in d ==> d[key] < |edges| && (edges[d[key]].v0, edges[d[key]].v1) == key
  {
    if |edges| == 0 then map[]
    else
      var last := |edges| - 1;
      EdgeDict(edges[..last])[(edges[last].v0, edges[last].v1) := last]
  }

  /** For a pair stored by several edges, the dictionary keeps the last of them. */
  lemma {:induction false} EdgeDictLast(edges: seq<MeshEdge>, k: nat)
    requires k < |edges|
    ensures var key := (edges[k].v0, edges[k].v1);
      && k <= EdgeDict(edges)[key]
      && forall m :: EdgeDict(edges)[key] < m < |edges| ==> (edges[m].v0, edges[m].v1) != key
  {
    var last := |edges| - 1;
    var key := (edges[k].v0, edges[k].v1);
    var d := EdgeDict(edges);
    var keyLast := (edges[last].v0, edges[last].v1);
    if key == keyLast {
      assert d[key] == last;
    } else {
      var init := edges[..last];
      var d0 := EdgeDict(init);
      assert init[k] == edges[k];
      EdgeDictLast(init, k);
      assert d[key] == d0[key];
      forall m | d[key] < m < |edges|
        ensures (edges[m].v0, edges[m].v1) != key
      {
        if m < last {
          assert init[m] == edges[m];
        }
      }
    }
  }

  /** The dictionary lookup of the build: `(a, b)` if stored that way, else `(b, a)`. */
  function Lookup(dict: map<(int, int), nat>, a: int, b: int): nat
    requires (a, b) in dict || (b, a) in dict
  {
    if (a, b) in dict then dict[(a, b)] else dict[(b, a)]
  }

  /** The records of one edge group: its pairs, in order, with the group's id. */
  function GroupRecords(id: int, g: seq<(int, int)>): (r: seq<BlockEdge>)
    ensures |r| == |g|
    ensures forall m :: 0 <= m < |g| ==> r[m] == BlockEdge(id, g[m].0, g[m].1)
  {
    if |g| == 0 then [] else GroupRecords(id, g[..|g| - 1]) + [BlockEdge(id, g[|g| - 1].0, g[|g| - 1].1)]
  }

  /** One more pair of the group adds one record at the end. */
  lemma GroupRecordsStep(id: int, g: seq<(int, int)>, m: nat)
    requires m < |g|
    ensures GroupRecords(id, g[..m + 1]) == GroupRecords(id, g[..m]) + [BlockEdge(id, g[m].0, g[m].1)]
  {
    assert g[..m + 1][..m] == g[..m];
  }

  /** The block edge records of a build: group `i` of the finder's output
      becomes records with id `i`, in order. */
  function Records(groups: seq<seq<(int, int)>>): (r: seq<BlockEdge>)
    ensures forall j :: 0 <= j < |r| ==> 0 <= r[j].id < |groups|
  {
    if |groups| == 0 then []
    else
      var i := |groups| - 1;
      Records(groups[..i]) + GroupRecords(i, groups[i])
  }

  /** Every record's edge is in the mesh, stored one way or the other. */
  predicate RecordsInMesh(dict: map<(int, int), nat>, records: seq<BlockEdge>)
  {
    forall j :: 0 <= j < |records| ==> (records[j].v1, records[j].v2) in dict || (records[j].v2, records[j].v1) in dict
  }

  /** The group id of mesh edge `k` after stamping: the id of the last record
      that looks `k` up, or `before` if none does. */
  function StampedGroup(dict: map<(int, int), nat>, records: seq<BlockEdge>, k: nat, before: int): int
    requires RecordsInMesh(dict, records)
  {
    if |records| == 0 then before
    else
      var r := records[|records| - 1];
      if Lookup(dict, r.v1, r.v2) == k then r.id
      else StampedGroup(dict, records[..|records| - 1], k, before)
  }

  /** When every mesh edge is looked up by records of at most one group, each
      record's mesh edge ends up carrying that record's group id. */
  lemma {:induction false} StampedGroupOfRecord(dict: map<(int, int), nat>, records: seq<BlockEdge>, j: nat, before: int)
    requires RecordsInMesh(dict, records) && j < |records|
    requires forall i, m ::
               (0 <= i < |records| && 0 <= m < |records| &&
                Lookup(dict, records[i].v1, records[i].v2) == Lookup(dict, records[m].v1, records[m].v2))
               ==> records[i].id == records[m].id
    ensures StampedGroup(dict, records, Lookup(dict, records[j].v1, records[j].v2), before) == records[j].id
  {
    var n := |records| - 1;
    if j < n && Lookup(dict, records[n].v1, records[n].v2) != Lookup(dict, records[j].v1, records[j].v2) {
      StampedGroupOfRecord(dict, records[..n], j, before);
    }
  }

  /** Every edge pair of every group is an edge of the mesh, stored one way or
      the other (the block finder only reports edges of the mesh it was given). */
  predicate GroupsInMesh(dict: map<(int, int), nat>, groups: seq<seq<(int, int)>>)
  {
    forall g, m :: 0 <= g < |groups| && 0 <= m < |groups[g]| ==>
      (groups[g][m].0, groups[g][m].1) in dict || (groups[g][m].1, groups[g][m].0) in dict
  }

  lemma {:induction false} GroupsInMeshRecords(dict: map<(int, int), nat>, groups: seq<seq<(int, int)>>)
    requires GroupsInMesh(dict, groups)
    ensures RecordsInMesh(dict, Records(groups))
  {
    if |groups| > 0 {
      var i := |groups| - 1;
      assert GroupsInMesh(dict, groups[..i]) by {
        forall g, m | 0 <= g < i && 0 <= m < |groups[..i][g]|
          ensures (groups[..i][g][m].0, groups[..i][g][m].1) in dict || (groups[..i][g][m].1, groups[..i][g][m].0) in dict
        {
          assert groups[..i][g] == groups[g];
        }
      }
      GroupsInMeshRecords(dict, groups[..i]);
    }
  }

  /** The records of the first `i + 1` groups: those of the first `i`, then
      group `i`'s pairs with id `i`. */
  lemma RecordsPrefix(groups: seq<seq<(int, int)>>, i: nat)
    requires i < |groups|
    ensures Records(groups[..i + 1]) == Records(groups[..i]) + GroupRecords(i, groups[i])
  {
    assert groups[..i + 1][..i] == groups[..i];
  }

  /** The mesh edges after the stamping loop: every edge's group id replaced by
      the id of the last record looking it up, endpoints and flags kept. */
  function Stamped(edges: seq<MeshEdge>, records: seq<BlockEdge>): (r: seq<MeshEdge>)
    requires RecordsInMesh(EdgeDict(edges), records)
    ensures SameEndpoints(r, edges)
    ensures forall k :: 0 <= k < |edges| ==> r[k].selected == edges[k].selected && r[k].hidden == edges[k].hidden
  {
    seq(|edges|, k requires 0 <= k < |edges| =>
      edges[k].(group := StampedGroup(EdgeDict(edges), records, k, edges[k].group)))
  }

  /** Stamping one more record rewrites the group id of that record's edge. */
  lemma StampedStep(edges: seq<MeshEdge>, records: seq<BlockEdge>, r: BlockEdge)
    requires RecordsInMesh(EdgeDict(edges), records)
    requires (r.v1, r.v2) in EdgeDict(edges) || (r.v2, r.v1) in EdgeDict(edges)
    ensures RecordsInMesh(EdgeDict(edges), records + [r])
    ensures var k := Lookup(EdgeDict(edges), r.v1, r.v2);
      Stamped(edges, records + [r]) == Stamped(edges, records)[k := Stamped(edges, records)[k].(group := r.id)]
  {
    var longer := records + [r];
    assert longer[..|records|] == records;
    forall j | 0 <= j < |longer|
      ensures (longer[j].v1, longer[j].v2) in EdgeDict(edges) || (longer[j].v2, longer[j].v1) in EdgeDict(edges)
    {
      if j < |records| {
        assert longer[j] == records[j];
      }
    }
  }

  /** The dictionary of the edges depends only on their endpoints. */
  lemma {:induction false} EdgeDictEndpoints(xs: seq<MeshEdge>, ys: seq<MeshEdge>)
    requires SameEndpoints(xs, ys)
    ensures EdgeDict(xs) == EdgeDict(ys)
  {
    if |xs| > 0 {
      EdgeDictEndpoints(xs[..|xs| - 1], ys[..|ys| - 1]);
    }
  }

  // ---- re-orienting edges to the computed directions ----

  /** The number of requested directions that reverse mesh edge `k`: those not
      stored as asked whose reverse is stored as edge `k`.  The dictionary is
      the one taken before the loop; it is not updated while edges are flipped. */
  function Hits(dict: map<(int, int), nat>, dirs: seq<(int, int)>, k: nat): nat
  {
    if |dirs| == 0 then 0
    else
      var e := dirs[|dirs| - 1];
      Hits(dict, dirs[..|dirs| - 1], k) +
        (if (e.0, e.1) !in dict && (e.1, e.0) in dict && dict[(e.1, e.0)] == k then 1 else 0)
  }

  /** All the directions of all the groups, in loop order. */
  function Flatten(groups: seq<seq<(int, int)>>): (r: seq<(int, int)>)
    ensures forall g, m :: 0 <= g < |groups| && 0 <= m < |groups[g]| ==> groups[g][m] in r
  {
    if |groups| == 0 then [] else Flatten(groups[..|groups| - 1]) + groups[|groups| - 1]
  }

  /** The mesh edges after the re-orientation loop: an edge reversed an odd
      number of times is stored the other way round, every other edge is as it was. */
  function Reoriented(edges: seq<MeshEdge>, dirs: seq<(int, int)>): (r: seq<MeshEdge>)
    ensures |r| == |edges|
  {
    seq(|edges|, k requires 0 <= k < |edges| =>
      if Hits(EdgeDict(edges), dirs, k) % 2 == 1 then Reversed(edges[k]) else edges[k])
  }

  /** Re-orienting only ever swaps the two endpoints of an edge. */
  lemma ReorientedSameEdges(edges: seq<MeshEdge>, dirs: seq<(int, int)>)
    ensures SameEdges(Reoriented(edges, dirs), edges)
  {
  }

  /** One more direction of the group being handled: as ReorientedStep, with
      the directions handled so far split into earlier groups and a prefix of
      this one. */
  lemma ReorientedPrefixStep(edges: seq<MeshEdge>, done: seq<(int, int)>, ed: seq<(int, int)>, m: nat)
    requires m < |ed|
    ensures var dict, before, e := EdgeDict(edges), Reoriented(edges, done + ed[..m]), ed[m];
      Reoriented(edges, done + ed[..m + 1]) ==
        if (e.0, e.1) !in dict && (e.1, e.0) in dict
        then before[dict[(e.1, e.0)] := Reversed(before[dict[(e.1, e.0)]])]
        else before
  {
    assert ed[..m + 1] == ed[..m] + [ed[m]];
    assert done + ed[..m + 1] == (done + ed[..m]) + [ed[m]];
    ReorientedStep(edges, done + ed[..m], ed[m]);
  }

  /** One more direction: if it is not stored as asked but its reverse is,
      the edge stored the other way round is reversed; otherwise nothing
      changes. */
  lemma ReorientedStep(edges: seq<MeshEdge>, dirs: seq<(int, int)>, e: (int, int))
    ensures var dict, before := EdgeDict(edges), Reoriented(edges, dirs);
      Reoriented(edges, dirs + [e]) ==
        if (e.0, e.1) !in dict && (e.1, e.0) in dict
        then before[dict[(e.1, e.0)] := Reversed(before[dict[(e.1, e.0)]])]
        else before
  {
    var dict, longer := EdgeDict(edges), dirs + [e];
    assert longer[..|dirs|] == dirs;
    var flips := (e.0, e.1) !in dict && (e.1, e.0) in dict;
    forall k | 0 <= k < |edges|
      ensures Hits(dict, longer, k) == Hits(dict, dirs, k) + if flips && dict[(e.1, e.0)] == k then 1 else 0
    {
    }
    var before, after := Reoriented(edges, dirs), Reoriented(edges, longer);
    if flips {
      var t := dict[(e.1, e.0)];
      forall k | 0 <= k < |edges|
        ensures after[k] == before[t := Reversed(before[t])][k]
      {
        if k == t {
          ParityFlip(Hits(dict, dirs, k));
        }
      }
      assert after == before[t := Reversed(before[t])];
    } else {
      assert after == before;
    }
  }

  /** One more hit flips the parity. */
  lemma ParityFlip(h: nat)
    ensures ((h + 1) % 2 == 1) == (h % 2 != 1)
  {
  }

  /** A requested direction whose mesh edge is stored the other way round, and
      which is the only request reversing that edge, is realised afterwards. */
  lemma DirectionRealised(edges: seq<MeshEdge>, dirs: seq<(int, int)>, i: nat)
    requires i < |dirs| && (dirs[i].0, dirs[i].1) !in EdgeDict(edges) && (dirs[i].1, dirs[i].0) in EdgeDict(edges)
    requires Hits(EdgeDict(edges), dirs, EdgeDict(edges)[(dirs[i].1, dirs[i].0)]) == 1
    ensures var k := EdgeDict(edges)[(dirs[i].1, dirs[i].0)];
      Reoriented(edges, dirs)[k].v0 == dirs[i].0 && Reoriented(edges, dirs)[k].v1 == dirs[i].1
  {
  }

  /** A requested direction already stored is left alone when no request
      reverses that edge. */
  lemma DirectionKept(edges: seq<MeshEdge>, dirs: seq<(int, int)>, i: nat)
    requires i < |dirs| && (dirs[i].0, dirs[i].1) in EdgeDict(edges)
    requires Hits(EdgeDict(edges), dirs, EdgeDict(edges)[(dirs[i].0, dirs[i].1)]) == 0
    ensures var k := EdgeDict(edges)[(dirs[i].0, dirs[i].1)];
      Reoriented(edges, dirs)[k].v0 == dirs[i].0 && Reoriented(edges, dirs)[k].v1 == dirs[i].1
  {
  }

  /** Because the loop reads the dictionary taken before it started, a
      direction requested twice more reverses its edge twice and so undoes itself. */
  lemma DuplicateDirectionCancels(edges: seq<MeshEdge>, dirs: seq<(int, int)>, e: (int, int))
    ensures Reoriented(edges, dirs + [e, e]) == Reoriented(edges, dirs)
  {
    var dict := EdgeDict(edges);
    var longer := dirs + [e, e];
    assert longer[..|longer| - 1] == dirs + [e];
    assert (dirs + [e])[..|dirs|] == dirs;
    forall k | 0 <= k < |edges|
      ensures Hits(dict, longer, k) % 2 == Hits(dict, dirs, k) % 2
    {
    }
  }
}
