/**
  What `writeMesh` gathers from the blocking object before handing it to the
  mesher: the enabled blocks with a parallel list of region names, the enabled
  faces, and the block edges bucketed by edge group.
 */
module Writer {
  import opened Mesh

  /** The enabled blocks, in order. */
  function EnabledBlocks(blocks: seq<Block>): (r: seq<Block>)
    ensures |r| <= |blocks|
  {
    if |blocks| == 0 then []
    else
      EnabledBlocks(blocks[..|blocks| - 1]) +
      if blocks[|blocks| - 1].enabled then [blocks[|blocks| - 1]] else []
  }

  /** The blocks kept are exactly the enabled ones. */
  lemma {:induction false} EnabledBlocksMembers(blocks: seq<Block>)
    ensures forall b :: b in EnabledBlocks(blocks) <==> b in blocks && b.enabled
  {
    if |blocks| > 0 {
      EnabledBlocksMembers(blocks[..|blocks| - 1]);
      assert forall b :: b in blocks <==> b in blocks[..|blocks| - 1] || b == blocks[|blocks| - 1];
    }
  }

  /** The name written for a block: its name if it is a named region, else ''. */
  function RegionName(b: Block): string
  {
    if b.namedRegion then b.name else ""
  }

  /** The enabled faces, in order. */
  function EnabledFaces(faces: seq<BlockFace>): (r: seq<BlockFace>)
    ensures |r| <= |faces|
  {
    if |faces| == 0 then []
    else
      EnabledFaces(faces[..|faces| - 1]) +
      if faces[|faces| - 1].enabled then [faces[|faces| - 1]] else []
  }

  /** The faces kept are exactly the enabled ones. */
  lemma {:induction false} EnabledFacesMembers(faces: seq<BlockFace>)
    ensures forall f :: f in EnabledFaces(faces) <==> f in faces && f.enabled
  {
    if |faces| > 0 {
      EnabledFacesMembers(faces[..|faces| - 1]);
      assert forall f :: f in faces <==> f in faces[..|faces| - 1] || f == faces[|faces| - 1];
    }
  }

  /** The block loop of writeMesh: the vertex lists of the enabled blocks and,
      in step, their region names. */
  method CollectBlocks(blocks: seq<Block>) returns (verts: seq<seq<int>>, names: seq<string>)
    ensures |verts| == |names| == |EnabledBlocks(blocks)|
    ensures forall i :: 0 <= i < |verts| ==>
              verts[i] == EnabledBlocks(blocks)[i].verts && names[i] == RegionName(EnabledBlocks(blocks)[i])
  {
    verts, names := [], [];
    var i := 0;
    while i < |blocks|
      invariant 0 <= i <= |blocks|
      invariant |verts| == |names| == |EnabledBlocks(blocks[..i])|
      invariant forall j :: 0 <= j < |verts| ==>
                  verts[j] == EnabledBlocks(blocks[..i])[j].verts &&
                  names[j] == RegionName(EnabledBlocks(blocks[..i])[j])
    {
      assert blocks[..i + 1][..i] == blocks[..i];
      if blocks[i].enabled {
        verts := verts + [blocks[i].verts];
        names := names + [if blocks[i].namedRegion then blocks[i].name else ""];
      }
      i := i + 1;
    }
    assert blocks[..i] == blocks;
  }

  /** The face loop of writeMesh: the vertex lists of the enabled faces. */
  method CollectFaces(faces: seq<BlockFace>) returns (verts: seq<seq<int>>)
    ensures |verts| == |EnabledFaces(faces)|
    ensures forall i :: 0 <= i < |verts| ==> verts[i] == EnabledFaces(faces)[i].verts
  {
    verts := [];
    var i := 0;
    while i < |faces|
      invariant 0 <= i <= |faces|
      invariant |verts| == |EnabledFaces(faces[..i])|
      invariant forall j :: 0 <= j < |verts| ==> verts[j] == EnabledFaces(faces[..i])[j].verts
    {
      assert faces[..i + 1][..i] == faces[..i];
      if faces[i].enabled {
        verts := verts + [faces[i].verts];
      }
      i := i + 1;
    }
    assert faces[..i] == faces;
  }

  /** `ngroups`: the largest group id of the records, at least 0. */
  function MaxGroup(records: seq<BlockEdge>): (m: nat)
    ensures forall j :: 0 <= j < |records| ==> records[j].id <= m
    ensures m == 0 || exists j :: 0 <= j < |records| && records[j].id == m
  {
    if |records| == 0 then 0
    else
      var m := MaxGroup(records[..|records| - 1]);
      var last := records[|records| - 1].id;
      if last > m then last else m
  }

  /** The endpoint pairs of the records of group `g`, in record order. */
  function InGroup(records: seq<BlockEdge>, g: int): seq<(int, int)>
  {
    if |records| == 0 then []
    else
      var r := records[|records| - 1];
      InGroup(records[..|records| - 1], g) + if r.id == g then [(r.v1, r.v2)] else []
  }

  /** The total number of pairs in a list of buckets. */
  function TotalSize(buckets: seq<seq<(int, int)>>): nat
  {
    if |buckets| == 0 then 0 else TotalSize(buckets[..|buckets| - 1]) + |buckets[|buckets| - 1]|
  }

  /** The bucketing loops of writeMesh: one bucket per group id 0..ngroups,
      each holding the endpoints of that group's records in order.  Group ids
      are never negative: every record is created with an `enumerate` index. */
  method BucketEdges(records: seq<BlockEdge>) returns (buckets: seq<seq<(int, int)>>)
    requires forall j :: 0 <= j < |records| ==> records[j].id >= 0
    ensures |buckets| == MaxGroup(records) + 1
    ensures forall g :: 0 <= g < |buckets| ==> buckets[g] == InGroup(records, g)
  {
    var ngroups := 0;
    var i := 0;
    while i < |records|
      invariant 0 <= i <= |records|
      invariant ngroups == MaxGroup(records[..i])
    {
      assert records[..i + 1][..i] == records[..i];
      ngroups := if ngroups > records[i].id then ngroups else records[i].id;
      i := i + 1;
    }
    assert records[..i] == records;
    buckets := seq(ngroups + 1, _ => []);
    i := 0;
    while i < |records|
      invariant 0 <= i <= |records| && |buckets| == ngroups + 1
      invariant forall g :: 0 <= g < |buckets| ==> buckets[g] == InGroup(records[..i], g)
    {
      assert records[..i + 1][..i] == records[..i];
      var g := records[i].id;
      buckets := buckets[g := buckets[g] + [(records[i].v1, records[i].v2)]];
      i := i + 1;
    }
    assert records[..i] == records;
  }

  /** Every record lands in exactly one bucket: the bucket sizes add up to the
      number of records. */
  lemma {:induction false} BucketsPartition(records: seq<BlockEdge>, n: nat)
    requires forall j :: 0 <= j < |records| ==> 0 <= records[j].id < n
    ensures TotalSize(seq(n, g => InGroup(records, g))) == |records|
  {
    if |records| > 0 {
      var init := records[..|records| - 1];
      var last := records[|records| - 1];
      BucketsPartition(init, n);
      TotalSizeBump(seq(n, g => InGroup(init, g)), seq(n, g => InGroup(records, g)), last.id);
    } else {
      TotalSizeEmpty(seq(n, g => InGroup(records, g)));
    }
  }

  lemma {:induction false} TotalSizeEmpty(xs: seq<seq<(int, int)>>)
    requires forall h :: 0 <= h < |xs| ==> xs[h] == []
    ensures TotalSize(xs) == 0
  {
    if |xs| > 0 {
      TotalSizeEmpty(xs[..|xs| - 1]);
    }
  }

  /** Adding one pair to one bucket adds one to the total. */
  lemma {:induction false} TotalSizeBump(xs: seq<seq<(int, int)>>, ys: seq<seq<(int, int)>>, g: int)
    requires |xs| == |ys| && 0 <= g < |xs|
    requires |ys[g]| == |xs[g]| + 1
    requires forall h :: 0 <= h < |xs| && h != g ==> |ys[h]| == |xs[h]|
    ensures TotalSize(ys) == TotalSize(xs) + 1
  {
    var n := |xs| - 1;
    if g < n {
      TotalSizeBump(xs[..n], ys[..n], g);
    } else {
      TotalSizeSame(xs[..n], ys[..n]);
    }
  }

  lemma {:induction false} TotalSizeSame(xs: seq<seq<(int, int)>>, ys: seq<seq<(int, int)>>)
    requires |xs| == |ys| && forall h :: 0 <= h < |xs| ==> |ys[h]| == |xs[h]|
    ensures TotalSize(ys) == TotalSize(xs)
  {
    if |xs| > 0 {
      TotalSizeSame(xs[..|xs| - 1], ys[..|ys| - 1]);
    }
  }
}
