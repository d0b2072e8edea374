/**
  Face-adjacency renumbering after a build (`BuildBlocking.invoke`).

  The block finder reports, for every face, the list of blocks on its positive
  and on its negative side.  With an o-grid those block indices may skip
  numbers; when the largest referenced index exceeds the number of blocks
  minus one, every index that is not referenced below the largest one is a
  gap, and each face's first `pos`/`neg` index is moved down by the number of
  gaps below it.
 */
module Renumber {
  import opened Mesh

  /** What the block finder reports about one face. */
  datatype FaceAdjacency = FaceAdjacency(pos: seq<int>, neg: seq<int>)

  /** All block indices referenced by the faces, in face order. */
  function Refs(info: seq<FaceAdjacency>): (r: seq<int>)
    ensures forall i, x :: 0 <= i < |info| && (x in info[i].pos || x in info[i].neg) ==> x in r
  {
    if |info| == 0 then []
    else Refs(info[..|info| - 1]) + info[|info| - 1].pos + info[|info| - 1].neg
  }

  /** Refs holds nothing else: every id in it is on one side of some face. */
  lemma {:induction false} RefsExact(info: seq<FaceAdjacency>)
    ensures forall x :: x in Refs(info) ==>
              exists i :: 0 <= i < |info| && (x in info[i].pos || x in info[i].neg)
  {
    if |info| > 0 {
      var init := info[..|info| - 1];
      RefsExact(init);
      forall x | x in Refs(info)
        ensures exists i :: 0 <= i < |info| && (x in info[i].pos || x in info[i].neg)
      {
        if x in Refs(init) {
          var i :| 0 <= i < |init| && (x in init[i].pos || x in init[i].neg);
          assert info[i] == init[i];
        } else {
          assert x in info[|info| - 1].pos || x in info[|info| - 1].neg;
        }
      }
    }
  }

  /** Python's `max` of a non-empty list. */
  function Max(s: seq<int>): (m: int)
    requires |s| > 0
    ensures m in s && forall x :: x in s ==> x <= m
  {
    if |s| == 1 then s[0]
    else
      var m := Max(s[1..]);
      assert forall x :: x in s ==> x == s[0] || x in s[1..];
      if s[0] > m then s[0] else m
  }

  /** The indices `0 <= i < n` that are not referenced, in increasing order
      (the `decrease` list, built by `for i in range(n)`). */
  function Gaps(ids: set<int>, n: int): seq<int>
    decreases n
  {
    if n <= 0 then [] else Gaps(ids, n - 1) + (if n - 1 in ids then [] else [n - 1])
  }

  /** The gap list holds exactly the unreferenced indices in [0, n), each once, in increasing order. */
  lemma {:induction false} GapsExact(ids: set<int>, n: int)
    ensures forall i :: 0 <= i < |Gaps(ids, n)| ==> 0 <= Gaps(ids, n)[i] < n && Gaps(ids, n)[i] !in ids
    ensures forall x :: 0 <= x < n && x !in ids ==> x in Gaps(ids, n)
    ensures forall i, j :: 0 <= i < j < |Gaps(ids, n)| ==> Gaps(ids, n)[i] < Gaps(ids, n)[j]
    decreases n
  {
    if n > 0 {
      GapsExact(ids, n - 1);
    }
  }

  /** `sum(x < v for x in decrease)`. */
  function CountBelow(d: seq<int>, v: int): nat
  {
    if |d| == 0 then 0
    else CountBelow(d[..|d| - 1], v) + (if d[|d| - 1] < v then 1 else 0)
  }

  /** An index moved down by the gaps below it. */
  function Shift(d: seq<int>, v: int): int
  {
    v - CountBelow(d, v)
  }

  /** The gap list the build computes: empty unless the largest referenced
      index exceeds `nblocks` (the number of blocks minus one). */
  function Decrease(info: seq<FaceAdjacency>, nblocks: int): seq<int>
    requires |Refs(info)| > 0
  {
    var top := Max(Refs(info));
    if nblocks < top then Gaps((set x | x in Refs(info)), top) else []
  }

  /** The new `pos` (or `neg`) of a face: -1 when the list is empty,
      otherwise its first entry moved down by the gaps below it. */
  function NewSide(side: seq<int>, d: seq<int>): int
  {
    if |side| == 0 then NoBlock else Shift(d, side[0])
  }

  /** The number of referenced indices in [0, v). */
  function IdsBelow(ids: set<int>, v: int): nat
    decreases v
  {
    if v <= 0 then 0 else IdsBelow(ids, v - 1) + (if v - 1 in ids then 1 else 0)
  }

  /** Computes the `decrease` list as the build does. */
  method DecreaseList(ids: set<int>, nblocks: int, top: int) returns (decrease: seq<int>)
    ensures decrease == if nblocks < top then Gaps(ids, top) else []
  {
    decrease := [];
    if nblocks < top {
      var i := 0;
      while i < top
        invariant 0 <= i && (i <= top || i == 0)
        invariant decrease == Gaps(ids, i)
      {
        if i !in ids {
          decrease := decrease + [i];
        }
        i := i + 1;
      }
    }
  }

  /** Computes `sum(x < v for x in decrease)` with a loop. */
  method CountGapsBelow(decrease: seq<int>, v: int) returns (dec: nat)
    ensures dec == CountBelow(decrease, v)
  {
    dec := 0;
    var i := 0;
    while i < |decrease|
      invariant 0 <= i <= |decrease|
      invariant dec == CountBelow(decrease[..i], v)
    {
      assert decrease[..i + 1][..i] == decrease[..i];
      if decrease[i] < v {
        dec := dec + 1;
      }
      i := i + 1;
    }
    assert decrease[..i] == decrease;
  }

  /** Builds the new face records from the block finder's report.  `faceIds`
      are the mesh face indices the finder's faces were matched to. An empty
      reference list makes `max` fail, reported as an error. */
  method RenumberFaces(info: seq<FaceAdjacency>, nodes: seq<seq<int>>, faceIds: seq<int>, nblocks: int)
    returns (r: Result<seq<BlockFace>>)
    requires |nodes| <= |info| && |faceIds| == |nodes|
    ensures r.Err? <==> |Refs(info)| == 0
    ensures r.Ok? ==> |r.value| == |nodes|
    ensures r.Ok? ==> forall i :: 0 <= i < |nodes| ==>
              r.value[i] == BlockFace(faceIds[i], nodes[i],
                                      NewSide(info[i].pos, Decrease(info, nblocks)),
                                      NewSide(info[i].neg, Decrease(info, nblocks)), true)
  {
    var refs := Refs(info);
    if |refs| == 0 {
      return Err("max() arg is an empty sequence");
    }
    var ids := set x | x in refs;
    var decrease := DecreaseList(ids, nblocks, Max(refs));
    assert decrease == Decrease(info, nblocks);
    var faces := RenumberEach(info, nodes, faceIds, decrease);
    return Ok(faces);
  }

  /** The face loop of the build, for a given `decrease` list. */
  method RenumberEach(info: seq<FaceAdjacency>, nodes: seq<seq<int>>, faceIds: seq<int>, decrease: seq<int>)
    returns (faces: seq<BlockFace>)
    requires |nodes| <= |info| && |faceIds| == |nodes|
    ensures |faces| == |nodes|
    ensures forall i :: 0 <= i < |nodes| ==>
              faces[i] == BlockFace(faceIds[i], nodes[i], NewSide(info[i].pos, decrease),
                                    NewSide(info[i].neg, decrease), true)
  {
    faces := [];
    var fid := 0;
    while fid < |nodes|
      invariant 0 <= fid <= |nodes| && |faces| == fid
      invariant forall i :: 0 <= i < fid ==>
                  faces[i] == BlockFace(faceIds[i], nodes[i], NewSide(info[i].pos, decrease),
                                        NewSide(info[i].neg, decrease), true)
    {
      var pos := RenumberSide(info[fid].pos, decrease);
      var neg := RenumberSide(info[fid].neg, decrease);
      faces := faces + [BlockFace(faceIds[fid], nodes[fid], pos, neg, true)];
      fid := fid + 1;
    }
  }

  /** One side of a face record: -1 for an empty list, else its first entry
      less the number of gaps below it. */
  method RenumberSide(side: seq<int>, decrease: seq<int>) returns (v: int)
    ensures v == NewSide(side, decrease)
  {
    v := NoBlock;
    if |side| > 0 {
      var dec := CountGapsBelow(decrease, side[0]);
      v := side[0] - dec;
    }
  }

  // ---- properties of the renumbering ----

  lemma {:induction false} CountBelowAll(d: seq<int>, v: int)
    requires forall i :: 0 <= i < |d| ==> d[i] < v
    ensures CountBelow(d, v) == |d|
  {
    if |d| > 0 {
      CountBelowAll(d[..|d| - 1], v);
    }
  }

  lemma {:induction false} CountBelowNone(d: seq<int>, v: int)
    requires forall i :: 0 <= i < |d| ==> d[i] >= v
    ensures CountBelow(d, v) == 0
  {
    if |d| > 0 {
      CountBelowNone(d[..|d| - 1], v);
    }
  }

  /** Below `v <= n` the gap list up to `n` counts as many gaps as the gap list up to `v`. */
  lemma {:induction false} CountGaps(ids: set<int>, n: int, v: int)
    requires 0 <= v <= n
    ensures CountBelow(Gaps(ids, n), v) == |Gaps(ids, v)|
    decreases n
  {
    if n == v {
      GapsExact(ids, n);
      CountBelowAll(Gaps(ids, n), v);
    } else {
      var prev := Gaps(ids, n - 1);
      var d := Gaps(ids, n);
      CountGaps(ids, n - 1, v);
      if n - 1 !in ids {
        assert d[..|d| - 1] == prev;
      } else {
        assert d == prev;
      }
    }
  }

  /** Every index in [0, v) is either referenced or a gap. */
  lemma {:induction false} GapsPlusIds(ids: set<int>, v: int)
    requires v >= 0
    ensures |Gaps(ids, v)| + IdsBelow(ids, v) == v
    decreases v
  {
    if v > 0 {
      GapsPlusIds(ids, v - 1);
    }
  }

  /** A referenced index at or below the largest one becomes the number of
      referenced indices below it. */
  lemma ShiftCountsIds(ids: set<int>, top: int, v: int)
    requires 0 <= v <= top
    ensures Shift(Gaps(ids, top), v) == IdsBelow(ids, v)
  {
    CountGaps(ids, top, v);
    GapsPlusIds(ids, v);
  }

  /** IdsBelow grows by at least one past every referenced index. */
  lemma {:induction false} IdsBelowStrict(ids: set<int>, x: int, y: int)
    requires 0 <= x < y && x in ids
    ensures IdsBelow(ids, x) < IdsBelow(ids, y)
    decreases y
  {
    if y > x + 1 {
      IdsBelowStrict(ids, x, y - 1);
    }
  }

  /** IdsBelow does not grow across an interval holding no referenced index. */
  lemma {:induction false} IdsBelowFlat(ids: set<int>, x: int, y: int)
    requires 0 <= x <= y
    requires forall z :: x <= z < y ==> z !in ids
    ensures IdsBelow(ids, y) == IdsBelow(ids, x)
    decreases y
  {
    if y > x {
      IdsBelowFlat(ids, x, y - 1);
    }
  }

  /** When the largest referenced index is at most `nblocks`, no index changes. */
  lemma RenumberKeepsInRange(info: seq<FaceAdjacency>, nblocks: int, side: seq<int>)
    requires |Refs(info)| > 0 && Max(Refs(info)) <= nblocks
    ensures NewSide(side, Decrease(info, nblocks)) == if |side| == 0 then NoBlock else side[0]
  {
  }

  /** With gaps, the renumbering of non-negative referenced indices is
      non-negative and strictly order-preserving. */
  lemma RenumberOrdered(info: seq<FaceAdjacency>, nblocks: int, x: int, y: int)
    requires |Refs(info)| > 0 && nblocks < Max(Refs(info))
    requires x in Refs(info) && y in Refs(info) && 0 <= x < y
    ensures 0 <= Shift(Decrease(info, nblocks), x) < Shift(Decrease(info, nblocks), y)
  {
    var ids := set z | z in Refs(info);
    var top := Max(Refs(info));
    ShiftCountsIds(ids, top, x);
    ShiftCountsIds(ids, top, y);
    IdsBelowStrict(ids, x, y);
  }

  /** With gaps, the renumbering is gap-free: consecutive referenced indices
      become consecutive numbers. */
  lemma RenumberConsecutive(info: seq<FaceAdjacency>, nblocks: int, x: int, y: int)
    requires |Refs(info)| > 0 && nblocks < Max(Refs(info))
    requires x in Refs(info) && y in Refs(info) && 0 <= x < y
    requires forall z :: x < z < y ==> z !in Refs(info)
    ensures Shift(Decrease(info, nblocks), y) == Shift(Decrease(info, nblocks), x) + 1
  {
    var ids := set z | z in Refs(info);
    var top := Max(Refs(info));
    assert Decrease(info, nblocks) == Gaps(ids, top);
    ShiftConsecutive(ids, top, x, y);
  }

  /** Consecutive members of `ids` up to `top` are shifted to consecutive numbers. */
  lemma ShiftConsecutive(ids: set<int>, top: int, x: int, y: int)
    requires x in ids && 0 <= x < y <= top
    requires forall z :: x < z < y ==> z !in ids
    ensures Shift(Gaps(ids, top), y) == Shift(Gaps(ids, top), x) + 1
  {
    ShiftCountsIds(ids, top, x);
    ShiftCountsIds(ids, top, y);
    IdsBelowFlat(ids, x + 1, y);
    assert IdsBelow(ids, x + 1) == IdsBelow(ids, x) + 1;
  }

  /** With gaps, the smallest non-negative referenced index becomes 0. */
  lemma RenumberStartsAtZero(info: seq<FaceAdjacency>, nblocks: int, x: int)
    requires |Refs(info)| > 0 && nblocks < Max(Refs(info))
    requires x in Refs(info) && 0 <= x
    requires forall z :: 0 <= z < x ==> z !in Refs(info)
    ensures Shift(Decrease(info, nblocks), x) == 0
  {
    var ids := set z | z in Refs(info);
    ShiftCountsIds(ids, Max(Refs(info)), x);
    IdsBelowFlat(ids, 0, x);
  }

  /** A negative index is below every gap and is left as it is. */
  lemma ShiftNegative(info: seq<FaceAdjacency>, nblocks: int, x: int)
    requires |Refs(info)| > 0 && x < 0
    ensures Shift(Decrease(info, nblocks), x) == x
  {
    GapsExact((set z | z in Refs(info)), Max(Refs(info)));
    CountBelowNone(Decrease(info, nblocks), x);
  }
}
