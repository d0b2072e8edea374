/**
  Small helpers: the display colour of a patch, the normalisation of a patch
  name typed by the user, and the walk that orders the vertices of a polyline.
 */
module Helpers {

  // ---- patchColor ----

  datatype Color = Color(r: real, g: real, b: real)

  /** The seven patch colours, in order. */
  const Palette: seq<Color> := [
    Color(0.25, 0.25, 0.25), Color(1.0, 0.0, 0.0), Color(0.0, 1.0, 0.0), Color(0.0, 0.0, 1.0),
    Color(0.707, 0.707, 0.0), Color(0.0, 0.707, 0.707), Color(0.707, 0.0, 0.707)]

  /** `color[patch_no % len(color)]`.  Python's `%` by a positive number is
      never negative, and neither is Dafny's. */
  function PatchColor(patchNo: int): (c: Color)
    ensures c in Palette
  {
    Palette[patchNo % |Palette|]
  }

  /** Patch numbers seven apart get the same colour. */
  lemma PatchColorPeriodic(patchNo: int)
    ensures PatchColor(patchNo + 7) == PatchColor(patchNo)
  {
    assert (patchNo + 7) % 7 == patchNo % 7;
  }

  /** Seven consecutive patch numbers get seven different colours. */
  lemma PatchColorsDistinct(m: int, n: int)
    requires m < n < m + 7
    ensures PatchColor(m) != PatchColor(n)
  {
    assert m % 7 != n % 7 by {
      var k := n - m;
      assert n == m + k;
      if m % 7 + k < 7 {
        assert n % 7 == m % 7 + k;
      } else {
        assert n % 7 == m % 7 + k - 7;
      }
    }
  }

  // ---- patch name normalisation ----

  /** Python's `str.isspace` for one character. */
  predicate IsSpace(c: char)
  {
    var n := c as int;
    (9 <= n <= 13) || (28 <= n <= 32) || n == 0x85 || n == 0xA0 || n == 0x1680 ||
    (0x2000 <= n <= 0x200A) || n == 0x2028 || n == 0x2029 || n == 0x202F || n == 0x205F || n == 0x3000
  }

  /** Leading whitespace removed. */
  function StripStart(s: string): (r: string)
    ensures |r| <= |s| && r == s[|s| - |r|..]
    ensures |r| > 0 ==> !IsSpace(r[0])
  {
    if |s| > 0 && IsSpace(s[0]) then StripStart(s[1..]) else s
  }

  /** Trailing whitespace removed. */
  function StripEnd(s: string): (r: string)
    ensures |r| <= |s| && r == s[..|r|]
    ensures |r| > 0 ==> !IsSpace(r[|r| - 1])
  {
    if |s| > 0 && IsSpace(s[|s| - 1]) then StripEnd(s[..|s| - 1]) else s
  }

  /** `s.strip()`. */
  function Strip(s: string): string
  {
    StripEnd(StripStart(s))
  }

  /** `s.replace(' ', '_')`. */
  function SpacesToUnderscores(s: string): (r: string)
    ensures |r| == |s|
  {
    seq(|s|, i requires 0 <= i < |s| => if s[i] == ' ' then '_' else s[i])
  }

  /** The name a patch is stored under. */
  function NormalisePatchName(name: string): string
  {
    SpacesToUnderscores(Strip(name))
  }

  /** What StripStart removes is whitespace. */
  lemma {:induction false} StripStartRemovesSpace(s: string)
    ensures forall k :: 0 <= k < |s| - |StripStart(s)| ==> IsSpace(s[k])
  {
    if |s| > 0 && IsSpace(s[0]) {
      StripStartRemovesSpace(s[1..]);
      forall k | 1 <= k < |s| - |StripStart(s)|
        ensures IsSpace(s[k])
      {
        assert s[k] == s[1..][k - 1];
      }
    }
  }

  /** What StripEnd removes is whitespace. */
  lemma {:induction false} StripEndRemovesSpace(s: string)
    ensures forall k :: |StripEnd(s)| <= k < |s| ==> IsSpace(s[k])
  {
    if |s| > 0 && IsSpace(s[|s| - 1]) {
      StripEndRemovesSpace(s[..|s| - 1]);
      forall k | |StripEnd(s)| <= k < |s| - 1
        ensures IsSpace(s[k])
      {
        assert s[k] == s[..|s| - 1][k];
      }
    }
  }

  /** A stripped name neither starts nor ends with whitespace. */
  lemma StripEnds(s: string)
    ensures |Strip(s)| > 0 ==> !IsSpace(Strip(s)[0]) && !IsSpace(Strip(s)[|Strip(s)| - 1])
  {
    var a := StripStart(s);
    var r := StripEnd(a);
    if |r| > 0 {
      assert r[0] == a[0];
    }
  }

  /** Stripping removes whitespace from both ends only: the result is a
      contiguous piece of the input, and everything before and after that
      piece is whitespace. */
  lemma StripSpec(s: string)
    ensures exists i, j :: 0 <= i <= j <= |s| && Strip(s) == s[i..j] &&
              (forall k :: 0 <= k < i ==> IsSpace(s[k])) &&
              (forall k :: j <= k < |s| ==> IsSpace(s[k]))
  {
    var a := StripStart(s);
    var r := StripEnd(a);
    var i := |s| - |a|;
    var j := i + |r|;
    assert r == s[i..j];
    StripStartRemovesSpace(s);
    StripEndRemovesSpace(a);
    forall k | j <= k < |s|
      ensures IsSpace(s[k])
    {
      assert s[k] == a[k - i];
    }
    assert 0 <= i <= j <= |s| && Strip(s) == s[i..j] &&
           (forall k :: 0 <= k < i ==> IsSpace(s[k])) &&
           (forall k :: j <= k < |s| ==> IsSpace(s[k]));
  }

  /** A string that does not start or end with whitespace is its own strip. */
  lemma StripTrimmed(s: string)
    requires |s| > 0 ==> !IsSpace(s[0]) && !IsSpace(s[|s| - 1])
    ensures Strip(s) == s
  {
  }

  /** Replacing spaces keeps characters that are not spaces, so a string that
      neither starts nor ends with whitespace keeps that property. */
  lemma UnderscoresKeepEnds(t: string)
    requires |t| > 0 ==> !IsSpace(t[0]) && !IsSpace(t[|t| - 1])
    ensures var r := SpacesToUnderscores(t);
      |r| > 0 ==> !IsSpace(r[0]) && !IsSpace(r[|r| - 1])
  {
    var r := SpacesToUnderscores(t);
    if |t| > 0 {
      assert IsSpace(' ');
      assert r[0] == t[0] && r[|r| - 1] == t[|t| - 1];
    }
  }

  /** A string without spaces is unchanged by replacing spaces. */
  lemma UnderscoresFixed(r: string)
    requires forall i :: 0 <= i < |r| ==> r[i] != ' '
    ensures SpacesToUnderscores(r) == r
  {
  }

  /** A normalised name holds no spaces, has no whitespace at either end,
      and normalising it again changes nothing. */
  lemma NormaliseIdempotent(name: string)
    ensures var r := NormalisePatchName(name);
      && (forall i :: 0 <= i < |r| ==> r[i] != ' ')
      && (|r| > 0 ==> !IsSpace(r[0]) && !IsSpace(r[|r| - 1]))
      && NormalisePatchName(r) == r
  {
    var t := Strip(name);
    var r := SpacesToUnderscores(t);
    StripEnds(name);
    UnderscoresKeepEnds(t);
    StripTrimmed(r);
    UnderscoresFixed(r);
  }

  // ---- the vertex-ordering walk of sortedVertices ----

  /** `vert in e` for an edge given as its two vertex indices. */
  predicate Touches(e: (int, int), v: int)
  {
    e.0 == v || e.1 == v
  }

  /** The edge joins `a` and `b`, in either order. */
  predicate Links(e: (int, int), a: int, b: int)
  {
    (e.0 == a && e.1 == b) || (e.0 == b && e.1 == a)
  }

  /** The position of the first edge touching `v`, or `|edges|` when none does. */
  function FirstTouching(edges: seq<(int, int)>, v: int): (k: nat)
    ensures k <= |edges|
    ensures forall m :: 0 <= m < k ==> !Touches(edges[m], v)
    ensures k < |edges| ==> Touches(edges[k], v)
  {
    if |edges| == 0 then 0
    else if Touches(edges[0], v) then 0
    else 1 + FirstTouching(edges[1..], v)
  }

  /** The vertices the walk appends in `steps` more rounds from `vert`, and the
      edges left over.  Each round takes the first remaining edge touching the
      current vertex, moves to its other end and removes the edge; a round that
      finds no such edge changes nothing. */
  function Walk(steps: nat, vert: int, edges: seq<(int, int)>): (seq<int>, seq<(int, int)>)
  {
    if steps == 0 then ([], edges)
    else
      var k := FirstTouching(edges, vert);
      if k == |edges| then Walk(steps - 1, vert, edges)
      else
        var next := if edges[k].0 == vert then edges[k].1 else edges[k].0;
        var w := Walk(steps - 1, next, edges[..k] + edges[k + 1..]);
        ([next] + w.0, w.1)
  }

  /** Once no edge touches the current vertex, the remaining rounds do nothing. */
  lemma {:induction false} WalkStuck(steps: nat, vert: int, edges: seq<(int, int)>)
    requires FirstTouching(edges, vert) == |edges|
    ensures Walk(steps, vert, edges) == ([], edges)
  {
    if steps > 0 {
      WalkStuck(steps - 1, vert, edges);
    }
  }

  /** Taking the edge at `k` out of the list leaves the rest of its multiset. */
  lemma RemoveAt(edges: seq<(int, int)>, k: nat)
    requires k < |edges|
    ensures multiset(edges) == multiset(edges[..k] + edges[k + 1..]) + multiset{edges[k]}
  {
    assert edges == edges[..k] + [edges[k]] + edges[k + 1..];
  }

  /** At most one vertex per round, and one edge consumed per vertex added. */
  lemma {:induction false} WalkCounts(steps: nat, vert: int, edges: seq<(int, int)>)
    ensures var w := Walk(steps, vert, edges);
      && |w.0| <= steps
      && |w.0| + |w.1| == |edges|
      && multiset(w.1) <= multiset(edges)
  {
    if steps > 0 {
      var k := FirstTouching(edges, vert);
      if k < |edges| {
        var next := if edges[k].0 == vert then edges[k].1 else edges[k].0;
        var rest := edges[..k] + edges[k + 1..];
        var w := Walk(steps - 1, next, rest);
        assert Walk(steps, vert, edges) == ([next] + w.0, w.1);
        RemoveAt(edges, k);
        WalkCounts(steps - 1, next, rest);
      } else {
        assert Walk(steps, vert, edges) == Walk(steps - 1, vert, edges);
        WalkCounts(steps - 1, vert, edges);
      }
    }
  }

  /** Every two consecutive vertices of `path` are joined by an edge of `edges`. */
  predicate Chained(path: seq<int>, edges: seq<(int, int)>)
  {
    forall j :: 0 <= j < |path| - 1 ==> Joined(edges, path[j], path[j + 1])
  }

  /** Some edge of `edges` joins `a` and `b`. */
  predicate Joined(edges: seq<(int, int)>, a: int, b: int)
  {
    exists e :: e in edges && Links(e, a, b)
  }

  /** Putting a vertex in front of a chained path, joined to its first vertex
      by an edge, keeps it chained over any list holding both edge lists. */
  lemma ChainedCons(vert: int, path: seq<int>, e0: (int, int), rest: seq<(int, int)>, edges: seq<(int, int)>)
    requires |path| > 0 && Chained(path, rest) && Links(e0, vert, path[0])
    requires e0 in edges && forall e :: e in rest ==> e in edges
    ensures Chained([vert] + path, edges)
  {
    var full := [vert] + path;
    forall j | 0 <= j < |full| - 1
      ensures Joined(edges, full[j], full[j + 1])
    {
      if j == 0 {
        assert Links(e0, full[0], full[1]);
      } else {
        assert full[j] == path[j - 1] && full[j + 1] == path[j];
        assert Joined(rest, path[j - 1], path[(j - 1) + 1]);
        var e :| e in rest && Links(e, path[j - 1], path[j]);
        assert e in edges && Links(e, full[j], full[j + 1]);
      }
    }
    assert Chained(full, edges);
  }

  /** Consecutive vertices of the walk are joined by an edge of the input.
      That no input edge is used twice follows from WalkCounts, which accounts
      for every consumed edge exactly once. */
  lemma {:induction false} WalkLinks(steps: nat, vert: int, edges: seq<(int, int)>)
    ensures Chained([vert] + Walk(steps, vert, edges).0, edges)
  {
    if steps > 0 {
      var k := FirstTouching(edges, vert);
      if k == |edges| {
        WalkStuck(steps, vert, edges);
      } else {
        var next := if edges[k].0 == vert then edges[k].1 else edges[k].0;
        var rest := edges[..k] + edges[k + 1..];
        WalkLinks(steps - 1, next, rest);
        assert Walk(steps, vert, edges).0 == [next] + Walk(steps - 1, next, rest).0;
        ChainedCons(vert, [next] + Walk(steps - 1, next, rest).0, edges[k], rest, edges);
      }
    }
  }

  /** A walk that adds fewer vertices than it had rounds ends at a vertex that
      no remaining edge touches. */
  lemma {:induction false} WalkEndsStuck(steps: nat, vert: int, edges: seq<(int, int)>)
    ensures var w := Walk(steps, vert, edges);
      var path := [vert] + w.0;
      |w.0| < steps ==> forall e :: e in w.1 ==> !Touches(e, path[|path| - 1])
  {
    if steps > 0 {
      var k := FirstTouching(edges, vert);
      if k == |edges| {
        WalkStuck(steps, vert, edges);
        assert forall e :: e in edges ==> !Touches(e, vert);
      } else {
        var next := if edges[k].0 == vert then edges[k].1 else edges[k].0;
        var rest := edges[..k] + edges[k + 1..];
        WalkEndsStuck(steps - 1, next, rest);
        var w' := Walk(steps - 1, next, rest);
        assert Walk(steps, vert, edges) == ([next] + w'.0, w'.1);
        assert ([vert] + ([next] + w'.0))[|w'.0| + 1] == ([next] + w'.0)[|w'.0|];
      }
    }
  }

  /** The inner loop of `sortedVertices`: the position of the first edge that
      touches `vert`, or the length of the list when none does. */
  method FindTouching(edges: seq<(int, int)>, vert: int) returns (eid: nat)
    ensures eid == FirstTouching(edges, vert)
  {
    eid := 0;
    while eid < |edges| && !(vert == edges[eid].0 || vert == edges[eid].1)
      invariant 0 <= eid <= |edges|
      invariant forall m :: 0 <= m < eid ==> !Touches(edges[m], vert)
    {
      eid := eid + 1;
    }
  }

  /** The vertex list of `sortedVertices`, started at `startVert` and run for
      `nverts` rounds (one per vertex of the polyline), together with what is
      left of the caller's edge list, which the source empties in place by
      `pop`. */
  method SortedVertices(nverts: nat, edges: seq<(int, int)>, startVert: int)
    returns (sorted: seq<int>, rest: seq<(int, int)>)
    ensures sorted == [startVert] + Walk(nverts, startVert, edges).0
    ensures rest == Walk(nverts, startVert, edges).1
  {
    sorted := [startVert];
    rest := edges;
    var vert := startVert;
    var i := 0;
    while i < nverts
      invariant 0 <= i <= nverts && |sorted| > 0 && vert == sorted[|sorted| - 1]
      invariant [startVert] + Walk(nverts, startVert, edges).0 == sorted + Walk(nverts - i, vert, rest).0
      invariant Walk(nverts, startVert, edges).1 == Walk(nverts - i, vert, rest).1
    {
      var eid := FindTouching(rest, vert);
      ghost var before := Walk(nverts - i, vert, rest);
      if eid < |rest| {
        var next := if rest[eid].0 == vert then rest[eid].1 else rest[eid].0;
        ghost var after := Walk(nverts - i - 1, next, rest[..eid] + rest[eid + 1..]);
        assert before == ([next] + after.0, after.1);
        assert sorted + before.0 == (sorted + [next]) + after.0;
        sorted := sorted + [next];
        rest := rest[..eid] + rest[eid + 1..];
        vert := next;
      } else {
        assert before == Walk(nverts - i - 1, vert, rest);
      }
      i := i + 1;
    }
  }
}
