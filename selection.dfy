/**
  GetBlock: the block a vertex selection stands for.  The first block whose 8
  vertices are all selected wins; failing that, the block with the largest
  overlap, the earliest one on ties (Python's `max` keeps the first maximum).
 */
module Selection {
  import opened Mesh

  /** `[v in selection for v in b.verts].count(True)`. */
  function Overlap(verts: seq<int>, selection: seq<int>): (r: nat)
    ensures r <= |verts|
  {
    if |verts| == 0 then 0
    else Overlap(verts[..|verts| - 1], selection) + (if verts[|verts| - 1] in selection then 1 else 0)
  }

  /** A block all of whose listed vertices are selected has full overlap. */
  lemma {:induction false} OverlapAllSelected(verts: seq<int>, selection: seq<int>)
    requires forall i :: 0 <= i < |verts| ==> verts[i] in selection
    ensures Overlap(verts, selection) == |verts|
  {
    if |verts| > 0 {
      OverlapAllSelected(verts[..|verts| - 1], selection);
    }
  }

  /** `max(enumerate(occs), key=lambda x: x[1])[0]`: the index of the first maximum. */
  function FirstMax(occs: seq<nat>): (k: nat)
    requires |occs| > 0
    ensures k < |occs|
    ensures forall j :: 0 <= j < |occs| ==> occs[j] <= occs[k]
    ensures forall j :: 0 <= j < k ==> occs[j] < occs[k]
  {
    if |occs| == 1 then 0
    else
      var k := FirstMax(occs[..|occs| - 1]);
      if occs[|occs| - 1] > occs[k] then |occs| - 1 else k
  }

  /** The index of the block GetBlock picks; an error when there are no blocks
      (`max` of an empty list). */
  method GetBlock(blocks: seq<Block>, selection: seq<int>) returns (r: Result<nat>)
    ensures r.Err? <==> |blocks| == 0
    ensures r.Ok? ==> r.value < |blocks|
    ensures r.Ok? && Overlap(blocks[r.value].verts, selection) == 8 ==>
              forall j :: 0 <= j < r.value ==> Overlap(blocks[j].verts, selection) != 8
    ensures r.Ok? && (exists j :: 0 <= j < |blocks| && Overlap(blocks[j].verts, selection) == 8) ==>
              Overlap(blocks[r.value].verts, selection) == 8
    ensures r.Ok? && Overlap(blocks[r.value].verts, selection) != 8 ==>
              && (forall j :: 0 <= j < |blocks| ==>
                    Overlap(blocks[j].verts, selection) <= Overlap(blocks[r.value].verts, selection))
              && (forall j :: 0 <= j < r.value ==>
                    Overlap(blocks[j].verts, selection) < Overlap(blocks[r.value].verts, selection))
  {
    var occs: seq<nat> := [];
    var i := 0;
    while i < |blocks|
      invariant 0 <= i <= |blocks| && |occs| == i
      invariant forall j :: 0 <= j < i ==> occs[j] == Overlap(blocks[j].verts, selection) != 8
    {
      var occ := Overlap(blocks[i].verts, selection);
      if occ == 8 {
        return Ok(i);
      }
      occs := occs + [occ];
      i := i + 1;
    }
    if |occs| == 0 {
      return Err("max() arg is an empty sequence");
    }
    var best := FirstMax(occs);
    return Ok(best);
  }
}
