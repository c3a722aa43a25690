/** `cluster` of ci_image_prune.py and ci_image_list.py: rows of the registry
    grouped by push, in one pass over the rows sorted by creation time. */
module PushClusters {

  const CLUSTER_WINDOW_SECONDS := 60

  /** One row; `tagged` says whether its list of tags is non-empty. */
  datatype Version = Version(id: int, time: int, tagged: bool)

  // ----- sorted()

  function Insert(v: Version, s: seq<Version>): seq<Version> {
    if s == [] || v.time <= s[0].time then [v] + s else [s[0]] + Insert(v, s[1..])
  }

  function Sort(s: seq<Version>): seq<Version> {
    if s == [] then [] else Insert(s[0], Sort(s[1..]))
  }

  ghost predicate Sorted(s: seq<Version>) {
    forall i, j | 0 <= i < j < |s| :: s[i].time <= s[j].time
  }

  lemma {:induction false} InsertRows(v: Version, s: seq<Version>)
    ensures multiset(Insert(v, s)) == multiset{v} + multiset(s)
  {
    if s != [] {
      assert s == [s[0]] + s[1..];
      InsertRows(v, s[1..]);
    }
  }

  lemma SortedNext(v: Version, s: seq<Version>)
    requires Sorted(s) && forall u | u in s :: v.time <= u.time
    ensures Sorted([v] + s)
  {}

  lemma {:induction false} InsertSorts(v: Version, s: seq<Version>)
    requires Sorted(s)
    ensures Sorted(Insert(v, s))
  {
    if s == [] || v.time <= s[0].time {
      SortedNext(v, s);
    } else {
      var r := Insert(v, s[1..]);
      InsertSorts(v, s[1..]);
      InsertRows(v, s[1..]);
      forall u | u in r
        ensures s[0].time <= u.time
      {
        assert u in multiset(r);
        assert u == v || u in s[1..];
      }
      SortedNext(s[0], r);
    }
  }

  lemma {:induction false} SortSorts(s: seq<Version>)
    ensures Sorted(Sort(s)) && multiset(Sort(s)) == multiset(s)
  {
    if s != [] {
      assert s == [s[0]] + s[1..];
      SortSorts(s[1..]);
      InsertSorts(s[0], Sort(s[1..]));
      InsertRows(s[0], Sort(s[1..]));
    }
  }

  lemma SameRows(s: seq<Version>, v: Version)
    ensures v in Sort(s) <==> v in s
  {
    SortSorts(s);
    assert v in Sort(s) <==> v in multiset(Sort(s));
  }

  // ----- the grouping pass

  function Append(groups: seq<seq<Version>>, v: Version): seq<seq<Version>> {
    var n := |groups|;
    if n > 0 && groups[n - 1] != [] && v.time - Last(groups[n - 1]).time <= CLUSTER_WINDOW_SECONDS
    then groups[..n - 1] + [groups[n - 1] + [v]]
    else groups + [[v]]
  }

  function Last(g: seq<Version>): Version
    requires g != []
  {
    g[|g| - 1]
  }

  function Groups(s: seq<Version>): seq<seq<Version>> {
    if s == [] then [] else Append(Groups(s[..|s| - 1]), Last(s))
  }

  function Clusters(versions: seq<Version>): seq<seq<Version>> {
    Groups(Sort(versions))
  }

  function Flatten(groups: seq<seq<Version>>): seq<Version> {
    if groups == [] then [] else Flatten(groups[..|groups| - 1]) + groups[|groups| - 1]
  }

  /** The loop of `cluster`. */
  method Cluster(versions: seq<Version>) returns (groups: seq<seq<Version>>)
    ensures groups == Clusters(versions)
  {
    var versionsSorted := Sort(versions);
    groups := [];
    for i := 0 to |versionsSorted|
      invariant groups == Groups(versionsSorted[..i])
    {
      GroupsShape(versionsSorted[..i]);
      var v := versionsSorted[i];
      assert versionsSorted[..i + 1][..i] == versionsSorted[..i];
      var n := |groups|;
      if n > 0 && v.time - Last(groups[n - 1]).time <= CLUSTER_WINDOW_SECONDS {
        groups := groups[..n - 1] + [groups[n - 1] + [v]];
      } else {
        groups := groups + [[v]];
      }
    }
    assert versionsSorted[..|versionsSorted|] == versionsSorted;
  }

  /** Groups are non-empty; inside one, each row is at most 60 seconds after the one
      before; between neighbours there is a longer gap. */
  ghost predicate WellGrouped(groups: seq<seq<Version>>) {
    && (forall i | 0 <= i < |groups| :: groups[i] != [] && Sorted(groups[i]) && Close(groups[i]))
    && (forall i | 0 < i < |groups| ::
          groups[i][0].time - Last(groups[i - 1]).time > 60)
  }

  ghost predicate Close(g: seq<Version>) {
    forall j | 0 < j < |g| :: g[j].time - g[j - 1].time <= 60
  }

  lemma FlattenNext(groups: seq<seq<Version>>, g: seq<Version>)
    ensures Flatten(groups + [g]) == Flatten(groups) + g
  {
    assert (groups + [g])[..|groups|] == groups;
  }

  lemma AppendShape(groups: seq<seq<Version>>, v: Version)
    requires forall i | 0 <= i < |groups| :: groups[i] != []
    ensures Flatten(Append(groups, v)) == Flatten(groups) + [v]
    ensures forall i | 0 <= i < |Append(groups, v)| :: Append(groups, v)[i] != []
    ensures Append(groups, v) != [] && Last(Append(groups, v)[|Append(groups, v)| - 1]) == v
  {
    var n := |groups|;
    if n > 0 && v.time - Last(groups[n - 1]).time <= CLUSTER_WINDOW_SECONDS {
      FlattenNext(groups[..n - 1], groups[n - 1] + [v]);
    } else {
      FlattenNext(groups, [v]);
    }
  }

  /** The groups partition the rows, in order. */
  lemma {:induction false} GroupsShape(s: seq<Version>)
    ensures Flatten(Groups(s)) == s
    ensures forall i | 0 <= i < |Groups(s)| :: Groups(s)[i] != []
    ensures s != [] ==> Groups(s) != [] && Last(Groups(s)[|Groups(s)| - 1]) == Last(s)
  {
    if s != [] {
      var r := s[..|s| - 1];
      GroupsShape(r);
      AppendShape(Groups(r), Last(s));
      assert s == r + [Last(s)];
    }
  }

  lemma ExtendWell(gs: seq<seq<Version>>, v: Version)
    requires WellGrouped(gs) && gs != []
    requires 0 <= v.time - Last(gs[|gs| - 1]).time <= 60
    ensures WellGrouped(gs[..|gs| - 1] + [gs[|gs| - 1] + [v]])
  {
    var n := |gs| - 1;
    var g := gs[n] + [v];
    var r: seq<seq<Version>> := gs[..n] + [g];
    assert Close(g) && Sorted(g);
    forall i | 0 <= i < |r|
      ensures r[i] != [] && Sorted(r[i]) && Close(r[i])
    {
      if i < n { assert r[i] == gs[i]; }
    }
    forall i: int | 0 < i < |r|
      ensures r[i][0].time - Last(r[i - 1]).time > 60
    {
      assert r[i][0] == gs[i][0] && r[i - 1] == gs[i - 1];
    }
  }

  lemma OpenWell(gs: seq<seq<Version>>, v: Version)
    requires WellGrouped(gs)
    requires gs != [] ==> v.time - Last(gs[|gs| - 1]).time > 60
    ensures WellGrouped(gs + [[v]])
  {
    var r: seq<seq<Version>> := gs + [[v]];
    forall i | 0 <= i < |r|
      ensures r[i] != [] && Sorted(r[i]) && Close(r[i])
    {
      if i < |gs| { assert r[i] == gs[i]; }
    }
  }

  lemma {:induction false} GroupsWell(s: seq<Version>)
    requires Sorted(s)
    ensures WellGrouped(Groups(s))
  {
    if s != [] {
      var r := s[..|s| - 1];
      GroupsWell(r);
      GroupsShape(r);
      var gs, v := Groups(r), Last(s);
      assert gs != [] ==> Last(gs[|gs| - 1]) == s[|s| - 2];
      if gs != [] && v.time - Last(gs[|gs| - 1]).time <= CLUSTER_WINDOW_SECONDS {
        ExtendWell(gs, v);
      } else {
        OpenWell(gs, v);
      }
    }
  }

  // ----- groups are the components of the "at most 60 seconds apart" graph

  predicate Near(a: Version, b: Version) {
    -60 <= a.time - b.time <= 60
  }

  /** A chain of rows of `rows`, each at most 60 seconds from the next. */
  ghost predicate Chain(rows: seq<Version>, p: seq<Version>, a: Version, b: Version) {
    && p != [] && p[0] == a && Last(p) == b
    && (forall v | v in p :: v in rows)
    && (forall i | 0 < i < |p| :: Near(p[i - 1], p[i]))
  }

  ghost predicate Linked(rows: seq<Version>, a: Version, b: Version) {
    exists p :: Chain(rows, p, a, b)
  }

  ghost predicate SameGroup(groups: seq<seq<Version>>, a: Version, b: Version) {
    exists g :: g in groups && a in g && b in g
  }

  lemma {:induction false} InFlatten(groups: seq<seq<Version>>, v: Version)
    ensures v in Flatten(groups) <==> exists g :: g in groups && v in g
  {
    if groups != [] {
      var n := |groups| - 1;
      assert groups == groups[..n] + [groups[n]];
      InFlatten(groups[..n], v);
    }
  }

  lemma {:induction false} GroupsApart(groups: seq<seq<Version>>, i: nat, j: nat, a: Version, b: Version)
    requires WellGrouped(groups) && i < j < |groups|
    requires a in groups[i] && b in groups[j]
    ensures b.time - a.time > 60
    decreases j
  {
    assert groups[j][0].time <= b.time;
    assert a.time <= Last(groups[i]).time;
    if i < j - 1 {
      GroupsApart(groups, i, j - 1, a, Last(groups[j - 1]));
    }
  }

  lemma {:induction false} ChainStays(groups: seq<seq<Version>>, rows: seq<Version>, p: seq<Version>, i: nat,
                                      a: Version, b: Version)
    requires WellGrouped(groups) && i < |groups| && a in groups[i]
    requires forall v | v in rows :: v in Flatten(groups)
    requires Chain(rows, p, a, b)
    ensures b in groups[i]
    decreases |p|
  {
    if |p| > 1 {
      assert p[1] in p && Near(p[0], p[1]);
      NeighbourStays(groups, i, a, p[1]);
      assert Chain(rows, p[1..], p[1], b);
      ChainStays(groups, rows, p[1..], i, p[1], b);
    }
  }

  lemma NeighbourStays(groups: seq<seq<Version>>, i: nat, a: Version, b: Version)
    requires WellGrouped(groups) && i < |groups| && a in groups[i]
    requires b in Flatten(groups) && Near(a, b)
    ensures b in groups[i]
  {
    InFlatten(groups, b);
    var j: nat :| j < |groups| && b in groups[j];
    if i < j { GroupsApart(groups, i, j, a, b); }
    if j < i { GroupsApart(groups, j, i, b, a); }
  }

  lemma ChainForth(rows: seq<Version>, g: seq<Version>, j: nat, h: nat)
    requires Close(g) && Sorted(g) && j <= h < |g| && forall v | v in g :: v in rows
    ensures Chain(rows, g[j..h + 1], g[j], g[h])
  {
    var p := g[j..h + 1];
    forall i | 0 < i < |p|
      ensures Near(p[i - 1], p[i])
    {
      assert p[i] == g[j + i] && p[i - 1] == g[j + i - 1];
    }
  }

  lemma ChainBack(rows: seq<Version>, p: seq<Version>, a: Version, b: Version) returns (r: seq<Version>)
    requires Chain(rows, p, a, b)
    ensures Chain(rows, r, b, a)
  {
    r := seq(|p|, i requires 0 <= i < |p| => p[|p| - 1 - i]);
    forall i | 0 < i < |r|
      ensures Near(r[i - 1], r[i])
    {
      assert Near(p[|p| - 1 - i], p[|p| - i]);
    }
  }

  lemma GroupChains(rows: seq<Version>, g: seq<Version>, j: nat, h: nat)
    requires Close(g) && Sorted(g) && j < |g| && h < |g|
    requires forall v | v in g :: v in rows
    ensures Linked(rows, g[j], g[h])
  {
    if j <= h {
      ChainForth(rows, g, j, h);
    } else {
      ChainForth(rows, g, h, j);
      var r := ChainBack(rows, g[h..j + 1], g[h], g[j]);
    }
  }

  lemma ClustersShape(versions: seq<Version>)
    ensures WellGrouped(Clusters(versions))
    ensures forall v :: v in Flatten(Clusters(versions)) <==> v in versions
  {
    var s := Sort(versions);
    SortSorts(versions);
    GroupsShape(s);
    GroupsWell(s);
    forall v
      ensures v in Flatten(Groups(s)) <==> v in versions
    {
      SameRows(versions, v);
    }
  }

  lemma GroupRows(versions: seq<Version>, g: seq<Version>)
    requires g in Clusters(versions)
    ensures forall v | v in g :: v in versions
    ensures g != [] && Close(g) && Sorted(g)
  {
    ClustersShape(versions);
    forall v | v in g ensures v in versions {
      InFlatten(Clusters(versions), v);
    }
  }

  lemma LinkedSameGroup(versions: seq<Version>, a: Version, b: Version)
    requires Linked(versions, a, b)
    ensures SameGroup(Clusters(versions), a, b)
  {
    var gs := Clusters(versions);
    ClustersShape(versions);
    var p :| Chain(versions, p, a, b);
    assert a in p;
    InFlatten(gs, a);
    var i: nat :| i < |gs| && a in gs[i];
    ChainStays(gs, versions, p, i, a, b);
    assert gs[i] in gs;
  }

  lemma SameGroupLinked(versions: seq<Version>, g: seq<Version>, a: Version, b: Version)
    requires g in Clusters(versions) && a in g && b in g
    ensures Linked(versions, a, b)
  {
    GroupRows(versions, g);
    var j: nat :| j < |g| && g[j] == a;
    var h: nat :| h < |g| && g[h] == b;
    GroupChains(versions, g, j, h);
  }

  /** Two rows share a group exactly when a chain of short steps links them. */
  lemma ClustersAreComponents(versions: seq<Version>, a: Version, b: Version)
    ensures SameGroup(Clusters(versions), a, b) <==> Linked(versions, a, b)
  {
    if Linked(versions, a, b) {
      LinkedSameGroup(versions, a, b);
    }
    if SameGroup(Clusters(versions), a, b) {
      var g :| g in Clusters(versions) && a in g && b in g;
      SameGroupLinked(versions, g, a, b);
    }
  }

  // ----- the grouping does not depend on the order of the rows

  lemma {:induction false} FlattenCount(gs: seq<seq<Version>>, i: nat, u: Version)
    requires WellGrouped(gs) && i < |gs| && u in gs[i]
    ensures multiset(Flatten(gs))[u] == multiset(gs[i])[u]
  {
    var n := |gs| - 1;
    var rest := gs[..n];
    assert multiset(Flatten(gs))[u] == multiset(Flatten(rest))[u] + multiset(gs[n])[u];
    InFlatten(rest, u);
    if i == n {
      if u in Flatten(rest) {
        var j: nat :| j < n && u in rest[j];
        GroupsApart(gs, j, n, u, u);
      }
    } else {
      FlattenCount(rest, i, u);
      if u in gs[n] {
        GroupsApart(gs, i, n, u, u);
      }
    }
  }

  /** A group holds each row linked to one of its members, as often as it is listed. */
  lemma GroupBag(versions: seq<Version>, g: seq<Version>, v: Version, u: Version)
    requires g in Clusters(versions) && v in g
    ensures multiset(g)[u] == if Linked(versions, v, u) then multiset(versions)[u] else 0
  {
    var gs := Clusters(versions);
    ClustersShape(versions);
    SortSorts(versions);
    GroupsShape(Sort(versions));
    var i: nat :| i < |gs| && gs[i] == g;
    if u in g {
      SameGroupLinked(versions, g, v, u);
      FlattenCount(gs, i, u);
    } else if Linked(versions, v, u) {
      var p :| Chain(versions, p, v, u);
      ChainStays(gs, versions, p, i, v, u);
    }
  }

  lemma LinkedSameRows(s: seq<Version>, t: seq<Version>, a: Version, b: Version)
    requires (forall v | v in s :: v in t) && Linked(s, a, b)
    ensures Linked(t, a, b)
  {
    var p :| Chain(s, p, a, b);
    assert Chain(t, p, a, b);
  }

  lemma MatchingGroup(s: seq<Version>, t: seq<Version>, g: seq<Version>) returns (j: nat)
    requires multiset(s) == multiset(t) && g in Clusters(s)
    ensures j < |Clusters(t)| && multiset(Clusters(t)[j]) == multiset(g)
  {
    GroupRows(s, g);
    var v := g[0];
    forall u
      ensures u in s <==> u in t
    {
      assert u in multiset(s) <==> u in multiset(t);
    }
    ClustersShape(t);
    InFlatten(Clusters(t), v);
    j :| j < |Clusters(t)| && v in Clusters(t)[j];
    var h := Clusters(t)[j];
    forall u
      ensures multiset(g)[u] == multiset(h)[u]
    {
      GroupBag(s, g, v, u);
      GroupBag(t, h, v, u);
      if Linked(s, v, u) { LinkedSameRows(s, t, v, u); }
      if Linked(t, v, u) { LinkedSameRows(t, s, v, u); }
    }
  }

  lemma BagsApart(gs: seq<seq<Version>>, i: nat, j: nat)
    requires WellGrouped(gs) && i < |gs| && j < |gs|
    requires multiset(gs[i]) == multiset(gs[j])
    ensures i == j
  {
    assert gs[i][0] in multiset(gs[j]);
    if i < j { GroupsApart(gs, i, j, gs[i][0], gs[i][0]); }
    if j < i { GroupsApart(gs, j, i, gs[i][0], gs[i][0]); }
  }

  lemma BagsOrdered(gs: seq<seq<Version>>, hs: seq<seq<Version>>, i: nat, j: nat, i': nat, j': nat)
    requires WellGrouped(gs) && WellGrouped(hs)
    requires i < |gs| && j < |gs| && i' < |hs| && j' < |hs|
    requires multiset(gs[i]) == multiset(hs[i']) && multiset(gs[j]) == multiset(hs[j'])
    ensures i < j <==> i' < j'
  {
    var a, b := gs[i][0], gs[j][0];
    assert a in multiset(hs[i']) && b in multiset(hs[j']);
    if i < j { GroupsApart(gs, i, j, a, b); }
    if i' < j' { GroupsApart(hs, i', j', a, b); }
    if j <= i && i' < j' {
      if j < i { GroupsApart(gs, j, i, b, a); }
    }
    if j' <= i' && i < j {
      if j' < i' { GroupsApart(hs, j', i', b, a); }
    }
  }

  /** Listing the same rows in another order gives the same groups, in the same order. */
  lemma {:induction false} OrderIrrelevant(s: seq<Version>, t: seq<Version>, i: nat)
    requires multiset(s) == multiset(t) && i < |Clusters(s)|
    ensures i < |Clusters(t)| && multiset(Clusters(s)[i]) == multiset(Clusters(t)[i])
  {
    var gs, hs := Clusters(s), Clusters(t);
    ClustersShape(s);
    ClustersShape(t);
    var j := MatchingGroup(s, t, gs[i]);
    if j < i {
      OrderIrrelevant(s, t, j);
      BagsApart(gs, i, j);
    } else if i < j {
      var m := MatchingGroup(t, s, hs[i]);
      BagsOrdered(gs, hs, m, i, i, j);
      OrderIrrelevant(s, t, m);
      BagsApart(hs, i, m);
    }
  }
}
