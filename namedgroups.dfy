/**
  Named edge groups.  A group stores the indices of the edges that were
  selected when it was set, as decimal numbers joined by commas; getting a
  group splits that string on commas and parses each piece back to an index.
  The group list keeps at most one entry per name when only SetEdgeGroup adds
  to it.
 */
module NamedGroups {
  import opened Mesh

  // ---- decimal numbers ----

  function DigitChar(d: nat): (c: char)
    requires d < 10
    ensures '0' <= c <= '9'
  {
    (('0' as int) + d) as char
  }

  predicate IsDigit(c: char)
  {
    '0' <= c <= '9'
  }

  /** `str(n)` for a non-negative integer: decimal, no leading zeros. */
  function Decimal(n: nat): (s: string)
    ensures |s| > 0 && forall i :: 0 <= i < |s| ==> IsDigit(s[i])
  {
    if n < 10 then [DigitChar(n)] else Decimal(n / 10) + [DigitChar(n % 10)]
  }

  function DigitValue(c: char): nat
    requires IsDigit(c)
  {
    (c as int) - ('0' as int)
  }

  /** The value of a string of decimal digits. */
  function DigitsValue(s: string): nat
    requires forall i :: 0 <= i < |s| ==> IsDigit(s[i])
  {
    if |s| == 0 then 0
    else DigitsValue(s[..|s| - 1]) * 10 + DigitValue(s[|s| - 1])
  }

  /** `int(s)` on the strings a group can hold: a non-empty run of decimal
      digits parses, anything else (the empty string in particular) fails. */
  function ParseIndex(s: string): (r: Option<nat>)
    ensures r.Some? ==> |s| > 0
  {
    if |s| > 0 && forall i :: 0 <= i < |s| ==> IsDigit(s[i]) then Some(DigitsValue(s)) else None
  }

  lemma {:induction false} DecimalRoundTrip(n: nat)
    ensures ParseIndex(Decimal(n)) == Some(n)
  {
    var s := Decimal(n);
    if n < 10 {
      assert s[..0] == [];
      assert DigitValue(DigitChar(n)) == n;
    } else {
      DecimalRoundTrip(n / 10);
      assert s[..|s| - 1] == Decimal(n / 10);
      assert DigitValue(DigitChar(n % 10)) == n % 10;
      assert DigitsValue(s) == DigitsValue(Decimal(n / 10)) * 10 + n % 10;
    }
  }

  // ---- joining and splitting ----

  /** `','.join(map(str, xs))`. */
  function Join(xs: seq<nat>): string
  {
    if |xs| == 0 then ""
    else if |xs| == 1 then Decimal(xs[0])
    else Decimal(xs[0]) + "," + Join(xs[1..])
  }

  /** `s.split(',')`: the pieces between commas; always at least one piece. */
  function Split(s: string): (parts: seq<string>)
    ensures |parts| > 0
  {
    if |s| == 0 then [""]
    else
      var rest := Split(s[1..]);
      if s[0] == ',' then [""] + rest else [[s[0]] + rest[0]] + rest[1..]
  }

  /** `list(map(int, s.split(',')))`, failing if any piece does not parse. */
  function ParseEach(parts: seq<string>): (r: Option<seq<nat>>)
    ensures r.Some? ==> |r.value| == |parts|
  {
    if |parts| == 0 then Some([])
    else match (ParseIndex(parts[0]), ParseEach(parts[1..]))
      case (Some(x), Some(xs)) => Some([x] + xs)
      case _ => None
  }

  function ParseGroupEdges(s: string): Option<seq<nat>>
  {
    ParseEach(Split(s))
  }

  lemma {:induction false} SplitNoComma(a: string)
    requires forall i :: 0 <= i < |a| ==> a[i] != ','
    ensures Split(a) == [a]
  {
    if |a| > 0 {
      assert forall i :: 0 <= i < |a[1..]| ==> a[1..][i] == a[i + 1];
      SplitNoComma(a[1..]);
      assert [a[0]] + a[1..] == a;
    }
  }

  lemma {:induction false} SplitAtComma(a: string, b: string)
    requires forall i :: 0 <= i < |a| ==> a[i] != ','
    ensures Split(a + "," + b) == [a] + Split(b)
  {
    if |a| == 0 {
      assert a + "," + b == [','] + b;
      assert ([','] + b)[1..] == b;
    } else {
      assert (a + "," + b)[1..] == a[1..] + "," + b;
      SplitAtComma(a[1..], b);
      assert [a[0]] + a[1..] == a;
    }
  }

  /** Getting a group gives back exactly the indices setting it joined, for
      every non-empty index list. */
  lemma {:induction false} GroupEdgesRoundTrip(xs: seq<nat>)
    requires |xs| > 0
    ensures ParseGroupEdges(Join(xs)) == Some(xs)
  {
    DecimalRoundTrip(xs[0]);
    var d := Decimal(xs[0]);
    assert forall i :: 0 <= i < |d| ==> d[i] != ',' by {
      forall i | 0 <= i < |d| ensures d[i] != ',' { assert IsDigit(d[i]); }
    }
    if |xs| == 1 {
      SplitNoComma(d);
      assert [d][1..] == [];
      assert ParseEach([d][1..]) == Some([]);
      assert [xs[0]] + [] == xs;
    } else {
      SplitAtComma(Decimal(xs[0]), Join(xs[1..]));
      GroupEdgesRoundTrip(xs[1..]);
      assert ([Decimal(xs[0])] + Split(Join(xs[1..])))[1..] == Split(Join(xs[1..]));
      assert [xs[0]] + xs[1..] == xs;
    }
  }

  /** An empty selection is stored as the empty string, which does not parse. */
  lemma EmptyGroupFails()
    ensures Join([]) == "" && ParseGroupEdges(Join([])) == None
  {
  }

  // ---- the group list ----

  /** The index of the first group with this name. */
  function FindGroup(groups: seq<EdgeGroup>, name: string): (r: Option<nat>)
    ensures r.Some? ==> r.value < |groups| && groups[r.value].name == name
    ensures r.Some? ==> forall i :: 0 <= i < r.value ==> groups[i].name != name
    ensures r.None? ==> forall i :: 0 <= i < |groups| ==> groups[i].name != name
  {
    if |groups| == 0 then None
    else if groups[0].name == name then Some(0)
    else match FindGroup(groups[1..], name)
      case Some(i) => Some(i + 1)
      case None => None
  }

  /** SetEdgeGroup: overwrite the first group with this name, else append one. */
  function SetGroup(groups: seq<EdgeGroup>, name: string, edges: string): seq<EdgeGroup>
  {
    match FindGroup(groups, name)
    case Some(i) => groups[i := groups[i].(edges := edges)]
    case None => groups + [EdgeGroup(name, edges)]
  }

  /** DelEdgeGroup: remove the first group with this name; false if there is none. */
  function DelGroup(groups: seq<EdgeGroup>, name: string): (seq<EdgeGroup>, bool)
  {
    match FindGroup(groups, name)
    case Some(i) => (groups[..i] + groups[i + 1..], true)
    case None => (groups, false)
  }

  predicate UniqueNames(groups: seq<EdgeGroup>)
  {
    forall i, j :: 0 <= i < j < |groups| ==> groups[i].name != groups[j].name
  }

  /** Setting a group keeps names unique, stores the new string under the
      name, and leaves every other name's group as it was. */
  lemma SetGroupSpec(groups: seq<EdgeGroup>, name: string, edges: string)
    requires UniqueNames(groups)
    ensures var after := SetGroup(groups, name, edges);
      && UniqueNames(after)
      && FindGroup(after, name).Some?
      && after[FindGroup(after, name).value] == EdgeGroup(name, edges)
      && (forall i :: 0 <= i < |groups| && groups[i].name != name ==> after[i] == groups[i])
      && |after| == (if FindGroup(groups, name).Some? then |groups| else |groups| + 1)
  {
    var after := SetGroup(groups, name, edges);
    match FindGroup(groups, name)
    case Some(i) =>
      assert after[i].name == name;
    case None =>
      assert after[|groups|].name == name;
      assert forall k :: 0 <= k < |groups| ==> after[k].name != name;
  }

  /** Deleting a group of a list with unique names removes exactly the group
      of that name, keeping names unique; it reports whether there was one. */
  lemma DelGroupSpec(groups: seq<EdgeGroup>, name: string)
    requires UniqueNames(groups)
    ensures DelGroup(groups, name).1 == FindGroup(groups, name).Some?
    ensures UniqueNames(DelGroup(groups, name).0)
    ensures forall g :: g in DelGroup(groups, name).0 <==> g in groups && g.name != name
  {
    if FindGroup(groups, name).Some? {
      var i := FindGroup(groups, name).value;
      var after := groups[..i] + groups[i + 1..];
      RemoveIndex(groups, i);
      forall g | g in groups && g.name != name
        ensures g in after
      {
        var k :| 0 <= k < |groups| && groups[k] == g;
        if k < i { assert after[k] == g; } else { assert after[k - 1] == g; }
      }
      forall g | g in after
        ensures g in groups && g.name != name
      {
        var k :| 0 <= k < |after| && after[k] == g;
        var src := if k < i then k else k + 1;
        assert groups[src] == g && src != i;
      }
    }
  }

  /** Removing the entry at `i` moves every later entry down by one. */
  lemma RemoveIndex(groups: seq<EdgeGroup>, i: nat)
    requires i < |groups|
    ensures var after := groups[..i] + groups[i + 1..];
      && |after| == |groups| - 1
      && (forall k :: 0 <= k < i ==> after[k] == groups[k])
      && (forall k :: i <= k < |after| ==> after[k] == groups[k + 1])
  {
  }

  // ---- selecting a group's edges ----

  /** The edges selected while the indices are selected one by one, and
      whether all of them were in range (an index out of range stops the loop). */
  function SelectIndices(xs: seq<nat>, n: nat): (set<nat>, bool)
  {
    if |xs| == 0 then ({}, true)
    else
      var prev := SelectIndices(xs[..|xs| - 1], n);
      if !prev.1 then prev
      else if xs[|xs| - 1] < n then (prev.0 + {xs[|xs| - 1]}, true)
      else (prev.0, false)
  }

  /** GetEdgeGroup over the group list: every group with this name is parsed
      and its edges selected in turn; the first failure stops it, keeping the
      edges selected so far. */
  function SelectGroups(groups: seq<EdgeGroup>, name: string, n: nat): (set<nat>, bool)
  {
    if |groups| == 0 then ({}, true)
    else
      var prev := SelectGroups(groups[..|groups| - 1], name, n);
      var g := groups[|groups| - 1];
      if !prev.1 || g.name != name then prev
      else match ParseGroupEdges(g.edges)
        case None => (prev.0, false)
        case Some(xs) =>
          var more := SelectIndices(xs, n);
          (prev.0 + more.0, more.1)
  }

  /** Once an index is out of range, the rest of the list is not looked at. */
  lemma {:induction false} SelectIndicesStops(xs: seq<nat>, n: nat, m: nat)
    requires m <= |xs| && !SelectIndices(xs[..m], n).1
    ensures SelectIndices(xs, n) == SelectIndices(xs[..m], n)
    decreases |xs|
  {
    if m < |xs| {
      var init := xs[..|xs| - 1];
      assert init[..m] == xs[..m];
      SelectIndicesStops(init, n, m);
    } else {
      assert xs[..m] == xs;
    }
  }

  /** Once a group fails, the groups after it are not looked at. */
  lemma {:induction false} SelectGroupsStops(groups: seq<EdgeGroup>, name: string, n: nat, g: nat)
    requires g <= |groups| && !SelectGroups(groups[..g], name, n).1
    ensures SelectGroups(groups, name, n) == SelectGroups(groups[..g], name, n)
    decreases |groups|
  {
    if g < |groups| {
      var init := groups[..|groups| - 1];
      assert init[..g] == groups[..g];
      SelectGroupsStops(init, name, n, g);
    } else {
      assert groups[..g] == groups;
    }
  }

  lemma {:induction false} SelectIndicesAll(xs: seq<nat>, n: nat)
    requires forall i :: 0 <= i < |xs| ==> xs[i] < n
    ensures SelectIndices(xs, n) == ((set x | x in xs), true)
  {
    if |xs| > 0 {
      var init := xs[..|xs| - 1];
      SelectIndicesAll(init, n);
      assert xs == init + [xs[|xs| - 1]];
      assert xs[|xs| - 1] < n;
      assert SelectIndices(init, n).1;
      assert SelectIndices(xs, n) == (SelectIndices(init, n).0 + {xs[|xs| - 1]}, true);
      assert (set x | x in xs) == (set x | x in init) + {xs[|xs| - 1]};
      assert SelectIndices(xs, n).0 == (set x | x in xs);
    } else {
      assert (set x | x in xs) == {};
    }
  }

  lemma {:induction false} SelectGroupsNone(groups: seq<EdgeGroup>, name: string, n: nat)
    requires forall i :: 0 <= i < |groups| ==> groups[i].name != name
    ensures SelectGroups(groups, name, n) == ({}, true)
  {
    if |groups| > 0 {
      SelectGroupsNone(groups[..|groups| - 1], name, n);
    }
  }

  /** With unique names only the one group of that name is read. */
  lemma {:induction false} SelectGroupsUnique(groups: seq<EdgeGroup>, name: string, n: nat, i: nat)
    requires UniqueNames(groups) && i < |groups| && groups[i].name == name
    ensures SelectGroups(groups, name, n) ==
              match ParseGroupEdges(groups[i].edges)
              case None => ({}, false)
              case Some(xs) => SelectIndices(xs, n)
  {
    var last := |groups| - 1;
    var prefix := groups[..last];
    if i < last {
      assert prefix[i] == groups[i];
      SelectGroupsUnique(prefix, name, n, i);
      assert groups[last].name != name;
    } else {
      assert forall k :: 0 <= k < |prefix| ==> prefix[k].name != name by {
        forall k | 0 <= k < |prefix| ensures prefix[k].name != name { assert prefix[k] == groups[k]; }
      }
      SelectGroupsNone(prefix, name, n);
      match ParseGroupEdges(groups[i].edges)
      case None =>
      case Some(xs) =>
        assert {} + SelectIndices(xs, n).0 == SelectIndices(xs, n).0;
    }
  }

  /** Setting a group from a non-empty list of edge indices and getting it
      again selects exactly those edges. */
  lemma SetThenGet(groups: seq<EdgeGroup>, name: string, xs: seq<nat>, n: nat)
    requires UniqueNames(groups) && |xs| > 0
    requires forall i :: 0 <= i < |xs| ==> xs[i] < n
    ensures SelectGroups(SetGroup(groups, name, Join(xs)), name, n) == ((set x | x in xs), true)
  {
    var after := SetGroup(groups, name, Join(xs));
    SetGroupSpec(groups, name, Join(xs));
    SelectGroupsUnique(after, name, n, FindGroup(after, name).value);
    GroupEdgesRoundTrip(xs);
    SelectIndicesAll(xs, n);
  }

  /** The edge indices SetEdgeGroup stores: those of the selected edges, in order. */
  function SelectedIndices(edges: seq<MeshEdge>): (r: seq<nat>)
    ensures forall i :: 0 <= i < |r| ==> r[i] < |edges| && edges[r[i]].selected
    ensures forall k :: 0 <= k < |edges| && edges[k].selected ==> k in r
    ensures forall i, j :: 0 <= i < j < |r| ==> r[i] < r[j]
  {
    if |edges| == 0 then []
    else
      var init := SelectedIndices(edges[..|edges| - 1]);
      init + if edges[|edges| - 1].selected then [|edges| - 1] else []
  }
}
