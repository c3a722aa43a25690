/** `main` of ci_image_list.py: the groups, newest first, each with the time of its
    oldest row and a status. */
module ImageList {
  import opened PushClusters
  import ImagePrune

  datatype Status = LIVE | TAGGED | ORPHANED

  datatype Row = Row(oldest: int, status: Status)

  function Reverse<T>(s: seq<T>): (r: seq<T>)
    ensures |r| == |s| && forall i | 0 <= i < |s| :: r[i] == s[|s| - 1 - i]
  {
    if s == [] then [] else [s[|s| - 1]] + Reverse(s[..|s| - 1])
  }

  function Listed(versions: seq<Version>): seq<seq<Version>> {
    Reverse(Clusters(versions))
  }

  function StatusOf(idx: nat, group: seq<Version>): Status {
    if exists v :: v in group && v.tagged then (if idx == 0 then LIVE else TAGGED) else ORPHANED
  }

  /** A group is orphaned when a prune would select it; of the others the first is live. */
  lemma StatusIs(idx: nat, group: seq<Version>)
    ensures StatusOf(idx, group) == ORPHANED <==> ImagePrune.Orphaned(group)
    ensures StatusOf(idx, group) == LIVE <==> !ImagePrune.Orphaned(group) && idx == 0
    ensures StatusOf(idx, group) == TAGGED <==> !ImagePrune.Orphaned(group) && idx > 0
  {}

  ghost predicate IsLeast(time: int, group: seq<Version>) {
    (exists v :: v in group && v.time == time) && forall v | v in group :: time <= v.time
  }

  method Oldest(group: seq<Version>) returns (oldest: int)
    requires group != []
    ensures IsLeast(oldest, group)
  {
    oldest := group[0].time;
    for k := 1 to |group|
      invariant exists v :: v in group && v.time == oldest
      invariant forall j | 0 <= j < k :: oldest <= group[j].time
    {
      if group[k].time < oldest {
        assert group[k] in group;
        oldest := group[k].time;
      }
    }
  }

  method ListRows(versions: seq<Version>) returns (rows: seq<Row>)
    ensures |rows| == |Listed(versions)|
    ensures forall i | 0 <= i < |rows| :: IsLeast(rows[i].oldest, Listed(versions)[i])
    ensures forall i | 0 <= i < |rows| :: rows[i].status == StatusOf(i, Listed(versions)[i])
  {
    var clusters := Cluster(versions);
    clusters := Reverse(clusters);
    assert forall i | 0 <= i < |clusters| :: clusters[i] != [] by { ClustersShape(versions); }
    rows := [];
    for idx := 0 to |clusters|
      invariant |rows| == idx
      invariant forall i | 0 <= i < idx :: IsLeast(rows[i].oldest, clusters[i])
      invariant forall i | 0 <= i < idx :: rows[i].status == StatusOf(i, clusters[i])
    {
      var group := clusters[idx];
      var oldest := Oldest(group);
      rows := rows + [Row(oldest, StatusOf(idx, group))];
    }
  }

  /** Pushes are listed strictly newest first, more than a minute apart. */
  lemma NewestFirst(versions: seq<Version>, i: nat, j: nat, a: Version, b: Version)
    requires i < j < |Listed(versions)| && a in Listed(versions)[i] && b in Listed(versions)[j]
    ensures a.time - b.time > 60
  {
    var gs := Clusters(versions);
    ClustersShape(versions);
    GroupsApart(gs, |gs| - 1 - j, |gs| - 1 - i, b, a);
  }

  /** The listed groups labelled orphaned, `idx` being the position of the first. */
  function SelectOrphaned(groups: seq<seq<Version>>, idx: nat): seq<seq<Version>> {
    if groups == [] then []
    else (if StatusOf(idx, groups[0]) == ORPHANED then [groups[0]] else [])
         + SelectOrphaned(groups[1..], idx + 1)
  }

  /** The groups labelled orphaned are exactly those a prune selects, newest first. */
  lemma {:induction false} ListAgreesWithPrune(groups: seq<seq<Version>>, idx: nat)
    ensures SelectOrphaned(Reverse(groups), idx) == Reverse(ImagePrune.OrphanedClusters(groups))
  {
    if groups != [] {
      var n := |groups| - 1;
      ListAgreesWithPrune(groups[..n], idx + 1);
      assert Reverse(groups)[1..] == Reverse(groups[..n]);
      var os := ImagePrune.OrphanedClusters(groups[..n]);
      if ImagePrune.Orphaned(groups[n]) {
        assert (os + [groups[n]])[..|os|] == os;
      } else {
        assert os + [] == os;
      }
    }
  }

  ghost predicate SomeLive(versions: seq<Version>) {
    exists i: nat :: i < |Listed(versions)| && StatusOf(i, Listed(versions)[i]) == LIVE
  }

  ghost predicate IsNewest(versions: seq<Version>, newest: Version) {
    newest in versions && forall v | v in versions :: v.time <= newest.time
  }

  lemma NewestInLast(versions: seq<Version>, newest: Version, g: seq<Version>)
    requires IsNewest(versions, newest) && g in Clusters(versions) && newest in g
    ensures g == Clusters(versions)[|Clusters(versions)| - 1]
  {
    var gs := Clusters(versions);
    var last := |gs| - 1;
    ClustersShape(versions);
    GroupRows(versions, gs[last]);
    var j: nat :| j <= last && gs[j] == g;
    if j < last { GroupsApart(gs, j, last, newest, gs[last][0]); }
  }

  /** The first group listed holds the newest rows. Something is reported live exactly
      when that group carries a tag, even if an older group does. */
  lemma LiveIsNewest(versions: seq<Version>, newest: Version)
    requires IsNewest(versions, newest)
    ensures Listed(versions) != [] && newest in Listed(versions)[0]
    ensures SomeLive(versions) <==>
      exists w: Version :: w.tagged && SameGroup(Clusters(versions), newest, w)
  {
    var gs := Clusters(versions);
    ClustersShape(versions);
    InFlatten(gs, newest);
    var g :| g in gs && newest in g;
    NewestInLast(versions, newest, g);
    assert Listed(versions)[0] == g;
    if SomeLive(versions) {
      var w: Version :| w in g && w.tagged;
    }
    if w: Version :| w.tagged && SameGroup(gs, newest, w) {
      var h :| h in gs && newest in h && w in h;
      NewestInLast(versions, newest, h);
      assert StatusOf(0, Listed(versions)[0]) == LIVE;
    }
  }
}
