/** What the page does with the cyclists when the snapshot arrives: the
    cost-efficiency ranking, its top 50, and the totals and role counts. */
module Efficiency {
  import opened Ordering
  import opened Collections
  import opened Riders

  /** The number of riders in the efficiency chart. */
  const TopCount: nat := 50

  /** The ranking is the input reordered: non-decreasing by cost per point,
      every "Infinity" after every finite value, riders with equal values in
      their input order, and the top 50 no worse than every rider left out. */
  lemma EfficiencyRanking(cyclists: seq<Rider>)
    ensures multiset(SortBy(cyclists, CostPerPointKey)) == multiset(cyclists)
    ensures SortedBy(SortBy(cyclists, CostPerPointKey), CostPerPointKey)
    ensures forall i, j :: 0 <= i < j < |cyclists| ==>
      !(SortBy(cyclists, CostPerPointKey)[i].costPerPoint.Inf? && SortBy(cyclists, CostPerPointKey)[j].costPerPoint.Finite?)
    ensures forall k :: WithKey(SortBy(cyclists, CostPerPointKey), CostPerPointKey, k) == WithKey(cyclists, CostPerPointKey, k)
    ensures forall i, j :: 0 <= i < |Take(SortBy(cyclists, CostPerPointKey), TopCount)| <= j < |cyclists| ==>
      KeyLe(SortBy(cyclists, CostPerPointKey)[i].costPerPoint, SortBy(cyclists, CostPerPointKey)[j].costPerPoint)
  {
    var r := SortBy(cyclists, CostPerPointKey);
    SortByPermutation(cyclists, CostPerPointKey);
    SortBySorted(cyclists, CostPerPointKey);
    forall k {
      SortByStable(cyclists, CostPerPointKey, k);
    }
    forall i, j | 0 <= i < j < |cyclists| ensures !(r[i].costPerPoint.Inf? && r[j].costPerPoint.Finite?) {
      assert KeyLe(CostPerPointKey(r[i]), CostPerPointKey(r[j]));
    }
  }

  /** The `forEach` over the cyclists: total cost, total points, and the
      `roles` object counting riders per role. */
  method Tally(cyclists: seq<Rider>) returns (totalCost: real, totalPoints: real, roles: Dict)
    ensures totalCost == Sum(cyclists, CostOf)
    ensures totalPoints == Sum(cyclists, PointsOf)
    ensures roles == Grouped(cyclists, RoleOf, One)
    ensures roles.Valid()
    ensures roles.keys == Dedup(KeysOf(cyclists, RoleOf))
    ensures forall r :: r in roles.values <==> r in KeysOf(cyclists, RoleOf)
    ensures forall r :: r in roles.values ==> roles.values[r] == multiset(KeysOf(cyclists, RoleOf))[r] as real
    ensures SumOver(roles.keys, roles.values) == |cyclists| as real
  {
    totalCost, totalPoints, roles := 0.0, 0.0, Dict([], map[]);
    var i := 0;
    while i < |cyclists|
      invariant 0 <= i <= |cyclists|
      invariant totalCost == Sum(cyclists[..i], CostOf)
      invariant totalPoints == Sum(cyclists[..i], PointsOf)
      invariant roles == Grouped(cyclists[..i], RoleOf, One)
    {
      var c := cyclists[i];
      assert cyclists[..i + 1][..i] == cyclists[..i];
      totalCost := totalCost + c.cost;
      totalPoints := totalPoints + c.points;
      roles := AddTo(roles, c.role, 1.0);
      i := i + 1;
    }
    assert cyclists[..i] == cyclists;
    GroupedKeys(cyclists, RoleOf, One);
    forall r | r in roles.values
      ensures roles.values[r] == multiset(KeysOf(cyclists, RoleOf))[r] as real
    {
      GroupedValues(cyclists, RoleOf, One, r);
      SumWhereCounts(cyclists, RoleOf, One, r);
    }
    GroupedTotal(cyclists, RoleOf, One);
    SumOfOnes(cyclists, One);
  }

  /** The page-load sequence: the shared array is sorted in place by cost
      per point, the first 50 become `top50Cyclists`, and the tally runs over
      the sorted array. */
  method LoadDashboard(cyclists: array<Rider>)
    returns (top50: seq<Rider>, totalCost: real, totalPoints: real, roles: Dict)
    modifies cyclists
    ensures cyclists[..] == SortBy(old(cyclists[..]), CostPerPointKey)
    ensures top50 == Take(cyclists[..], TopCount)
    ensures totalCost == Sum(cyclists[..], CostOf)
    ensures totalPoints == Sum(cyclists[..], PointsOf)
    ensures roles == Grouped(cyclists[..], RoleOf, One)
  {
    SortInPlace(cyclists, CostPerPointKey);
    top50 := Take(cyclists[..], TopCount);
    totalCost, totalPoints, roles := Tally(cyclists[..]);
  }
}
