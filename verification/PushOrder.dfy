/** The order in which `cluster` of ci_image_prune.py goes through the rows: sorted(), which
    is stable. */
module PushOrder {
  import opened PushClusters

  /** The rows of time t, in their order. */
  function AtTime(s: seq<Version>, t: int): seq<Version> {
    if s == [] then [] else (if s[0].time == t then [s[0]] else []) + AtTime(s[1..], t)
  }

  lemma AtTimeNext(v: Version, s: seq<Version>, t: int)
    ensures AtTime([v] + s, t) == (if v.time == t then [v] else []) + AtTime(s, t)
  {
    assert ([v] + s)[1..] == s;
  }

  lemma {:induction false} InsertAtTime(v: Version, s: seq<Version>, t: int)
    requires Sorted(s)
    ensures AtTime(Insert(v, s), t) == (if v.time == t then [v] else []) + AtTime(s, t)
  {
    if s == [] || v.time <= s[0].time {
      AtTimeNext(v, s, t);
    } else {
      InsertAtTime(v, s[1..], t);
      AtTimeNext(s[0], Insert(v, s[1..]), t);
      AtTimeNext(s[0], s[1..], t);
      assert s == [s[0]] + s[1..];
    }
  }

  /** Sorting is stable: it keeps the order of rows of the same time. */
  lemma {:induction false} SortStable(s: seq<Version>, t: int)
    ensures AtTime(Sort(s), t) == AtTime(s, t)
  {
    if s != [] {
      SortStable(s[1..], t);
      SortSorts(s[1..]);
      InsertAtTime(s[0], Sort(s[1..]), t);
    }
  }

  lemma {:induction false} TimeListed(s: seq<Version>, t: int)
    ensures AtTime(s, t) != [] <==> exists v :: v in s && v.time == t
  {
    if s != [] {
      assert s[0] in s && forall v | v in s[1..] :: v in s;
      TimeListed(s[1..], t);
    }
  }

  lemma FirstNotLater(r: seq<Version>, s: seq<Version>)
    requires Sorted(s) && r != [] && s != [] && AtTime(r, r[0].time) == AtTime(s, r[0].time)
    ensures s[0].time <= r[0].time
  {
    assert r[0] in r;
    TimeListed(r, r[0].time);
    TimeListed(s, r[0].time);
  }

  lemma BothListed(r: seq<Version>, s: seq<Version>)
    requires s != [] && AtTime(r, s[0].time) == AtTime(s, s[0].time)
    ensures r != []
  {}

  /** And that says all about it: rows in order of time, and in their old order within each
      time, are the sorted rows. */
  lemma {:induction false} StableUnique(r: seq<Version>, s: seq<Version>)
    requires Sorted(r) && Sorted(s) && forall t :: AtTime(r, t) == AtTime(s, t)
    ensures r == s
  {
    if s != [] { BothListed(r, s); }
    if r != [] {
      BothListed(s, r);
      FirstNotLater(r, s);
      FirstNotLater(s, r);
      assert AtTime(r, r[0].time)[0] == AtTime(s, r[0].time)[0];
      forall t
        ensures AtTime(r[1..], t) == AtTime(s[1..], t)
      {
        var first := if r[0].time == t then [r[0]] else [];
        assert AtTime(r, t) == first + AtTime(r[1..], t) && AtTime(s, t) == first + AtTime(s[1..], t);
        assert AtTime(r[1..], t) == AtTime(r, t)[|first|..] == AtTime(s, t)[|first|..];
      }
      StableUnique(r[1..], s[1..]);
      assert r == [r[0]] + r[1..] && s == [s[0]] + s[1..];
    }
  }
}
