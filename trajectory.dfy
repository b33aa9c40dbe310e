/** `updateTrajectoryChart`: which riders the trajectory chart shows for
    the selected option, and the MVP and MIP of all riders. */
module Trajectory {
  import opened Strings
  import opened Ordering
  import opened Riders
  import opened Standouts

  /** The number of riders the "top10" option shows. */
  const TopTen: nat := 10

  /** `filter(c => c.name === name)`. */
  function WithName(s: seq<Rider>, name: string): (r: seq<Rider>)
    ensures |r| <= |s|
  {
    if |s| == 0 then [] else (if s[0].name == name then [s[0]] else []) + WithName(s[1..], name)
  }

  /** The filter keeps every rider of that name as often as it occurs, and
      no other. */
  lemma {:induction false} WithNameCount(s: seq<Rider>, name: string)
    ensures forall c :: multiset(WithName(s, name))[c] == if c.name == name then multiset(s)[c] else 0
    ensures forall c :: c in WithName(s, name) <==> c in s && c.name == name
  {
    if |s| > 0 {
      assert s == [s[0]] + s[1..];
      WithNameCount(s[1..], name);
    }
  }

  /** The filter keeps the riders' order: filtering a concatenation is
      concatenating the filtered parts. */
  lemma {:induction false} WithNameAppend(a: seq<Rider>, b: seq<Rider>, name: string)
    ensures WithName(a + b, name) == WithName(a, name) + WithName(b, name)
  {
    if |a| == 0 {
      assert a + b == b;
    } else {
      var head := if a[0].name == name then [a[0]] else [];
      assert (a + b)[0] == a[0];
      assert (a + b)[1..] == a[1..] + b;
      assert WithName(a + b, name) == head + WithName(a[1..] + b, name);
      assert WithName(a, name) == head + WithName(a[1..], name);
      WithNameAppend(a[1..], b, name);
    }
  }

  /** Reordering the riders keeps every history non-empty. */
  lemma HasHistoryPermutation(s: seq<Rider>, t: seq<Rider>)
    requires multiset(s) == multiset(t) && HasHistory(s)
    ensures HasHistory(t)
  {
    forall i | 0 <= i < |t| ensures |t[i].pointHistory| > 0 {
      assert t[i] in multiset(s);
    }
  }

  /** The latest date is the greatest of the riders' last dates whatever
      their order, so sorting the shared array does not change it. */
  lemma LatestDateOrderFree(s: seq<Rider>, t: seq<Rider>)
    requires multiset(s) == multiset(t) && HasHistory(s)
    ensures HasHistory(t)
    ensures LatestDate(s) == LatestDate(t)
  {
    HasHistoryPermutation(s, t);
    var ds, dt := LatestDate(s), LatestDate(t);
    assert !Less(ds, dt) by {
      if dt != "" {
        var i :| 0 <= i < |t| && dt == LastDate(t[i]);
        assert t[i] in multiset(s);
        var j :| 0 <= j < |s| && s[j] == t[i];
      }
    }
    assert !Less(dt, ds) by {
      if ds != "" {
        var i :| 0 <= i < |s| && ds == LastDate(s[i]);
        assert s[i] in multiset(t);
        var j :| 0 <= j < |t| && t[j] == s[i];
      }
    }
    LessTrichotomy(ds, dt);
  }

  /** The riders shown for "top10": the ten with the most points, every
      rider left out having at most the points of every rider shown, and
      riders with equal points in their previous order. */
  lemma TopTenFacts(cyclists: seq<Rider>)
    ensures multiset(SortBy(cyclists, PointsDescending)) == multiset(cyclists)
    ensures |Take(SortBy(cyclists, PointsDescending), TopTen)| == if |cyclists| < TopTen then |cyclists| else TopTen
    ensures forall i, j :: 0 <= i < |Take(SortBy(cyclists, PointsDescending), TopTen)| <= j < |cyclists| ==>
      SortBy(cyclists, PointsDescending)[j].points <= SortBy(cyclists, PointsDescending)[i].points
    ensures forall i, j :: 0 <= i < j < |cyclists| ==>
      SortBy(cyclists, PointsDescending)[j].points <= SortBy(cyclists, PointsDescending)[i].points
    ensures forall k ::
      WithKey(SortBy(cyclists, PointsDescending), PointsDescending, k) == WithKey(cyclists, PointsDescending, k)
  {
    var r := SortBy(cyclists, PointsDescending);
    SortByPermutation(cyclists, PointsDescending);
    SortBySorted(cyclists, PointsDescending);
    forall k {
      SortByStable(cyclists, PointsDescending, k);
    }
    forall i, j | 0 <= i < j < |cyclists| ensures r[j].points <= r[i].points {
      assert KeyLe(PointsDescending(r[i]), PointsDescending(r[j]));
    }
  }

  /** The selection and the standout computation. "top10" sorts the shared
      array in place, highest points first, and shows its first ten; "all"
      shows every rider; any other option shows the riders of that name.
      The MVP and MIP are then computed over the whole array, in its order
      at that moment. */
  method UpdateTrajectory(cyclists: array<Rider>, selectedOption: string)
    returns (filteredCyclists: seq<Rider>, mvp: Mvp, mip: Mip)
    requires HasHistory(cyclists[..])
    modifies cyclists
    ensures selectedOption == "top10" ==>
      cyclists[..] == SortBy(old(cyclists[..]), PointsDescending) &&
      filteredCyclists == Take(cyclists[..], TopTen)
    ensures selectedOption != "top10" ==> cyclists[..] == old(cyclists[..])
    ensures selectedOption == "all" ==> filteredCyclists == cyclists[..]
    ensures selectedOption != "top10" && selectedOption != "all" ==>
      filteredCyclists == WithName(cyclists[..], selectedOption)
    ensures multiset(cyclists[..]) == multiset(old(cyclists[..]))
    ensures HasHistory(cyclists[..])
    ensures LatestDate(cyclists[..]) == LatestDate(old(cyclists[..]))
    ensures mvp == MvpOf(Steps(cyclists[..]), LatestDate(cyclists[..]))
    ensures mip == MipOf(Steps(cyclists[..]))
  {
    if selectedOption == "top10" {
      SortInPlace(cyclists, PointsDescending);
      SortByPermutation(old(cyclists[..]), PointsDescending);
      filteredCyclists := Take(cyclists[..], TopTen);
    } else if selectedOption == "all" {
      filteredCyclists := cyclists[..];
    } else {
      filteredCyclists := WithName(cyclists[..], selectedOption);
    }
    LatestDateOrderFree(old(cyclists[..]), cyclists[..]);
    mvp, mip := CalculateMvpAndMip(cyclists[..]);
  }
}
