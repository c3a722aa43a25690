/** `main` of ci_image_prune.py: whole groups without a tag are deleted, row by row,
    and any single deletion may fail. */
module ImagePrune {
  import opened PushClusters

  predicate Orphaned(c: seq<Version>) {
    forall v | v in c :: !v.tagged
  }

  function OrphanedClusters(clusters: seq<seq<Version>>): seq<seq<Version>> {
    if clusters == [] then []
    else
      var n := |clusters| - 1;
      OrphanedClusters(clusters[..n]) + if Orphaned(clusters[n]) then [clusters[n]] else []
  }

  function Targets(versions: seq<Version>): seq<Version> {
    Flatten(OrphanedClusters(Clusters(versions)))
  }

  function Filter(s: seq<Version>, p: Version -> bool): seq<Version> {
    if s == [] then []
    else if p(s[0]) then [s[0]] + Filter(s[1..], p)
    else Filter(s[1..], p)
  }

  /** Identifiers really deleted by a run in which deleting `failing` fails. */
  function Deleted(targets: seq<Version>, failing: set<int>): set<int> {
    set v | v in targets && v.id !in failing :: v.id
  }

  /** The targets such a run could not delete. */
  function Failed(targets: seq<Version>, failing: set<int>): seq<Version> {
    Filter(targets, (v: Version) => v.id in failing)
  }

  /** What the registry lists after such a run. */
  function Survivors(versions: seq<Version>, failing: set<int>): seq<Version> {
    var gone := Deleted(Targets(versions), failing);
    Filter(versions, (v: Version) => v.id !in gone)
  }

  /** The identifier of a row determines the row. */
  ghost predicate IdsIdentify(versions: seq<Version>) {
    forall v, w | v in versions && w in versions :: v.id == w.id ==> v == w
  }

  /** The deletion loop: what is asked to be deleted, in order, what is gone afterwards, and
      how often deleting failed. A dry run deletes nothing. */
  method Prune(versions: seq<Version>, yes: bool, failing: set<int>)
    returns (asked: seq<int>, gone: set<int>, failures: nat)
    ensures |asked| == if yes then |Targets(versions)| else 0
    ensures forall i | 0 <= i < |asked| :: asked[i] == Targets(versions)[i].id
    ensures gone == if yes then Deleted(Targets(versions), failing) else {}
    ensures failures == if yes then |Failed(Targets(versions), failing)| else 0
  {
    var clusters := Cluster(versions);
    var targets := Flatten(OrphanedClusters(clusters));
    asked, gone, failures := [], {}, 0;
    if !yes { return; }
    for i := 0 to |targets|
      invariant |asked| == i && forall j | 0 <= j < i :: asked[j] == targets[j].id
      invariant gone == Deleted(targets[..i], failing)
      invariant failures == |Failed(targets[..i], failing)|
    {
      assert targets[..i + 1] == targets[..i] + [targets[i]];
      FailedNext(targets[..i], targets[i], failing);
      asked := asked + [targets[i].id];
      if targets[i].id in failing {
        failures := failures + 1;
      } else {
        gone := gone + {targets[i].id};
      }
    }
    assert targets[..|targets|] == targets;
  }

  // ----- filtering commutes with sorting

  lemma {:induction false} FilterConcat(s: seq<Version>, t: seq<Version>, p: Version -> bool)
    ensures Filter(s + t, p) == Filter(s, p) + Filter(t, p)
  {
    if s == [] {
      assert s + t == t;
    } else {
      assert (s + t)[1..] == s[1..] + t;
      FilterConcat(s[1..], t, p);
    }
  }

  lemma {:induction false} FailedNext(s: seq<Version>, v: Version, failing: set<int>)
    ensures Failed(s + [v], failing) == Failed(s, failing) + if v.id in failing then [v] else []
  {
    if s == [] {
      assert s + [v] == [v];
    } else {
      assert (s + [v])[1..] == s[1..] + [v];
      FailedNext(s[1..], v, failing);
    }
  }

  lemma {:induction false} InFilter(s: seq<Version>, p: Version -> bool, v: Version)
    ensures v in Filter(s, p) <==> v in s && p(v)
  {
    if s != [] {
      assert s == [s[0]] + s[1..];
      InFilter(s[1..], p, v);
    }
  }

  lemma {:induction false} FilterTwice(s: seq<Version>, p: Version -> bool, q: Version -> bool, r: Version -> bool)
    requires forall v | v in s :: r(v) == (p(v) && q(v))
    ensures Filter(Filter(s, p), q) == Filter(s, r)
  {
    if s != [] {
      assert s[0] in s && forall v | v in s[1..] :: v in s;
      FilterTwice(s[1..], p, q, r);
      if p(s[0]) {
        FilterConcat([s[0]], Filter(s[1..], p), q);
        assert [s[0]][1..] == [];
      } else {
        assert [] + Filter(s[1..], p) == Filter(s[1..], p);
      }
    }
  }

  lemma {:induction false} InsertFilter(v: Version, s: seq<Version>, p: Version -> bool)
    requires Sorted(s)
    ensures Filter(Insert(v, s), p) == if p(v) then Insert(v, Filter(s, p)) else Filter(s, p)
  {
    if s == [] || v.time <= s[0].time {
      assert ([v] + s)[1..] == s;
      var f := Filter(s, p);
      if f != [] {
        InFilter(s, p, f[0]);
        assert v.time <= f[0].time;
      }
    } else {
      InsertFilter(v, s[1..], p);
      assert ([s[0]] + Insert(v, s[1..]))[1..] == Insert(v, s[1..]);
      if p(s[0]) {
        assert Filter(s, p)[1..] == Filter(s[1..], p);
      }
    }
  }

  lemma {:induction false} SortFilter(s: seq<Version>, p: Version -> bool)
    ensures Sort(Filter(s, p)) == Filter(Sort(s), p)
  {
    if s != [] {
      SortFilter(s[1..], p);
      SortSorts(s[1..]);
      InsertFilter(s[0], Sort(s[1..]), p);
      if p(s[0]) {
        assert Filter(s, p)[1..] == Filter(s[1..], p);
      }
    }
  }

  // ----- the targets are the rows no chain links to a tagged row

  ghost predicate Pinned(versions: seq<Version>, v: Version) {
    exists w :: w in versions && w.tagged && Linked(versions, v, w)
  }

  lemma OrphanedIffUnpinned(versions: seq<Version>, g: seq<Version>, v: Version)
    requires g in Clusters(versions) && v in g
    ensures Orphaned(g) <==> !Pinned(versions, v)
  {
    GroupRows(versions, g);
    if !Orphaned(g) {
      var w :| w in g && w.tagged;
      SameGroupLinked(versions, g, v, w);
    }
    if Pinned(versions, v) {
      var w :| w in versions && w.tagged && Linked(versions, v, w);
      GroupBag(versions, g, v, w);
      assert w in multiset(g);
    }
  }

  lemma {:induction false} FilterUniform(s: seq<Version>, p: Version -> bool, b: bool)
    requires forall v | v in s :: p(v) == b
    ensures Filter(s, p) == if b then s else []
  {
    if s != [] {
      assert s[0] in s && forall v | v in s[1..] :: v in s;
      FilterUniform(s[1..], p, b);
    }
  }

  lemma {:induction false} FlattenOrphaned(gs: seq<seq<Version>>, p: Version -> bool)
    requires forall g, v | g in gs && v in g :: p(v) == Orphaned(g)
    ensures Flatten(OrphanedClusters(gs)) == Filter(Flatten(gs), p)
  {
    if gs != [] {
      var n := |gs| - 1;
      assert gs[n] in gs && forall g | g in gs[..n] :: g in gs;
      FlattenOrphaned(gs[..n], p);
      FilterConcat(Flatten(gs[..n]), gs[n], p);
      FilterUniform(gs[n], p, Orphaned(gs[n]));
      var os := OrphanedClusters(gs[..n]);
      if Orphaned(gs[n]) {
        FlattenNext(os, gs[n]);
      } else {
        assert os + [] == os;
      }
    }
  }

  /** The targets, in the order they are deleted in. */
  lemma TargetsUnpinned(versions: seq<Version>)
    ensures Targets(versions) == Filter(Sort(versions), v => !Pinned(versions, v))
  {
    var gs := Clusters(versions);
    GroupsShape(Sort(versions));
    var p := v => !Pinned(versions, v);
    forall g, v | g in gs && v in g
      ensures p(v) == Orphaned(g)
    {
      OrphanedIffUnpinned(versions, g, v);
    }
    FlattenOrphaned(gs, p);
  }

  /** A row is targeted exactly when no row of its group carries a tag. */
  lemma TargetIff(versions: seq<Version>, v: Version)
    ensures v in Targets(versions) <==> v in versions && !Pinned(versions, v)
    ensures v in Targets(versions) ==> !v.tagged
    ensures v in Targets(versions) <==>
      v in versions && forall w: Version | w.tagged :: !SameGroup(Clusters(versions), v, w)
  {
    TargetsUnpinned(versions);
    InFilter(Sort(versions), v => !Pinned(versions, v), v);
    SameRows(versions, v);
    if v in versions {
      assert Chain(versions, [v], v, v);
      assert Linked(versions, v, v);
    }
    forall w: Version | w.tagged
      ensures SameGroup(Clusters(versions), v, w) ==> Pinned(versions, v)
    {
      ClustersAreComponents(versions, v, w);
      if Linked(versions, v, w) {
        var p :| Chain(versions, p, v, w);
        assert w in p;
      }
    }
    if Pinned(versions, v) {
      var w :| w in versions && w.tagged && Linked(versions, v, w);
      ClustersAreComponents(versions, v, w);
    }
  }

  // ----- runs after runs

  lemma SurvivesIff(versions: seq<Version>, failing: set<int>, v: Version)
    requires IdsIdentify(versions)
    ensures v in Survivors(versions, failing) <==>
      v in versions && (v in Targets(versions) ==> v.id in failing)
  {
    var gone := Deleted(Targets(versions), failing);
    InFilter(versions, (v: Version) => v.id !in gone, v);
    if v in versions && v.id in gone {
      var w :| w in Targets(versions) && w.id !in failing && w.id == v.id;
      TargetIff(versions, w);
      assert w == v;
    }
  }

  lemma ChainSurvives(versions: seq<Version>, failing: set<int>, p: seq<Version>, v: Version, w: Version)
    requires IdsIdentify(versions) && w.tagged && Chain(versions, p, v, w)
    ensures Chain(Survivors(versions, failing), p, v, w)
  {
    forall u | u in p
      ensures u in Survivors(versions, failing)
    {
      var i :| 0 <= i < |p| && p[i] == u;
      assert Chain(versions, p[i..], u, w);
      assert w in p;
      assert Pinned(versions, u);
      TargetIff(versions, u);
      SurvivesIff(versions, failing, u);
    }
  }

  lemma PinnedSurvives(versions: seq<Version>, failing: set<int>, v: Version)
    requires IdsIdentify(versions)
    ensures Pinned(Survivors(versions, failing), v) <==> Pinned(versions, v)
  {
    var left := Survivors(versions, failing);
    forall u | u in left ensures u in versions { SurvivesIff(versions, failing, u); }
    if Pinned(left, v) {
      var w :| w in left && w.tagged && Linked(left, v, w);
      LinkedSameRows(left, versions, v, w);
    }
    if Pinned(versions, v) {
      var w :| w in versions && w.tagged && Linked(versions, v, w);
      var p :| Chain(versions, p, v, w);
      ChainSurvives(versions, failing, p, v, w);
      assert w in p;
    }
  }

  /** After a run with any pattern of failures, the next run targets exactly the rows
      whose deletion failed, in the same order. */
  lemma SecondRun(versions: seq<Version>, failing: set<int>)
    requires IdsIdentify(versions)
    ensures Targets(Survivors(versions, failing))
         == Failed(Targets(versions), failing)
  {
    var left := Survivors(versions, failing);
    var gone := Deleted(Targets(versions), failing);
    var keep := (v: Version) => v.id !in gone;
    var fails := (v: Version) => v.id in failing;
    var free := v => !Pinned(versions, v);
    var freeLeft := v => !Pinned(left, v);
    var both := (v: Version) => v.id in failing && !Pinned(versions, v);
    var s := Sort(versions);
    TargetsUnpinned(versions);
    TargetsUnpinned(left);
    SortFilter(versions, keep);
    forall v | v in s
      ensures both(v) == (keep(v) && freeLeft(v)) && both(v) == (free(v) && fails(v))
    {
      SameRows(versions, v);
      PinnedSurvives(versions, failing, v);
      SurvivesIff(versions, failing, v);
      InFilter(versions, keep, v);
      TargetIff(versions, v);
    }
    FilterTwice(s, keep, freeLeft, both);
    FilterTwice(s, free, fails, both);
  }

  /** The registry after a sequence of runs, given what fails in each. */
  function After(versions: seq<Version>, runs: seq<set<int>>): seq<Version>
    decreases |runs|
  {
    if runs == [] then versions else After(Survivors(versions, runs[0]), runs[1..])
  }

  function FailedAlways(targets: seq<Version>, runs: seq<set<int>>): seq<Version>
    decreases |runs|
  {
    if runs == [] then targets else FailedAlways(Failed(targets, runs[0]), runs[1..])
  }

  /** However many runs: what is left to prune is what failed in every one of them. */
  lemma {:induction false} AfterRuns(versions: seq<Version>, runs: seq<set<int>>)
    requires IdsIdentify(versions)
    ensures Targets(After(versions, runs)) == FailedAlways(Targets(versions), runs)
    decreases |runs|
  {
    if runs != [] {
      SecondRun(versions, runs[0]);
      var left := Survivors(versions, runs[0]);
      forall u | u in left ensures u in versions { SurvivesIff(versions, runs[0], u); }
      AfterRuns(left, runs[1..]);
    }
  }

  /** A run without failures leaves nothing to prune. */
  lemma PruneIdempotent(versions: seq<Version>)
    requires IdsIdentify(versions)
    ensures Targets(Survivors(versions, {})) == []
  {
    SecondRun(versions, {});
    FailedNone(Targets(versions));
  }

  lemma {:induction false} FailedNone(s: seq<Version>)
    ensures Failed(s, {}) == []
  {
    if s != [] { FailedNone(s[1..]); }
  }

  /** Deleting rows never merges groups, and leaves the groups with a tag as they were. */
  lemma GroupsSurvive(versions: seq<Version>, failing: set<int>, a: Version, b: Version)
    requires IdsIdentify(versions)
    ensures SameGroup(Clusters(Survivors(versions, failing)), a, b) ==> SameGroup(Clusters(versions), a, b)
    ensures Pinned(versions, a) ==>
      (SameGroup(Clusters(Survivors(versions, failing)), a, b) <==> SameGroup(Clusters(versions), a, b))
  {
    var left := Survivors(versions, failing);
    ClustersAreComponents(versions, a, b);
    ClustersAreComponents(left, a, b);
    forall u | u in left ensures u in versions { SurvivesIff(versions, failing, u); }
    if Linked(left, a, b) {
      LinkedSameRows(left, versions, a, b);
    }
    if Pinned(versions, a) && Linked(versions, a, b) {
      LinkedSurvives(versions, failing, a, b);
    }
  }

  lemma LinkedSurvives(versions: seq<Version>, failing: set<int>, a: Version, b: Version)
    requires IdsIdentify(versions) && Pinned(versions, a) && Linked(versions, a, b)
    ensures Linked(Survivors(versions, failing), a, b)
  {
    var left := Survivors(versions, failing);
    var p :| Chain(versions, p, a, b);
    forall u | u in p
      ensures u in left
    {
      var i :| 0 <= i < |p| && p[i] == u;
      assert Chain(versions, p[..i + 1], a, u);
      PinnedAlong(versions, p[..i + 1], a, u);
      TargetIff(versions, u);
      SurvivesIff(versions, failing, u);
    }
    assert Chain(left, p, a, b);
  }

  lemma PinnedAlong(versions: seq<Version>, p: seq<Version>, a: Version, u: Version)
    requires Pinned(versions, a) && Chain(versions, p, a, u)
    ensures Pinned(versions, u)
  {
    var w :| w in versions && w.tagged && Linked(versions, a, w);
    var q :| Chain(versions, q, a, w);
    var r := ChainBack(versions, p, a, u);
    ChainJoin(versions, r, q, u, a, w);
  }

  lemma ChainJoin(rows: seq<Version>, p: seq<Version>, q: seq<Version>, a: Version, b: Version, c: Version)
    requires Chain(rows, p, a, b) && Chain(rows, q, b, c)
    ensures Linked(rows, a, c)
  {
    var r := p + q;
    forall i | 0 < i < |r|
      ensures Near(r[i - 1], r[i])
    {
      if i > |p| { assert Near(q[i - |p| - 1], q[i - |p|]); }
    }
    assert Chain(rows, r, a, c);
  }
}
