/** The display order of the dream team: the best riders of each role by
    points, 2 all-rounders, 2 climbers, 1 sprinter and 3 unclassed, then the
    first rider not yet listed; and the points per role of that order. */
module DreamTeam {
  import opened Ordering
  import opened Collections
  import opened Riders

  /** A rider of `dreamTeam.riders` with its position there. Two picks are
      equal exactly when they are the same element of the array, which is
      how `includes` compares objects. */
  datatype Pick = Pick(index: nat, rider: Rider)

  function PickRole(p: Pick): string { p.rider.role }
  function PickPoints(p: Pick): real { p.rider.points }

  /** The key of `sort((a, b) => b.points - a.points)`. */
  function PointsDown(p: Pick): SortKey { Finite(-p.rider.points) }

  /** The riders as picks, each at its own position. */
  function Picks(riders: seq<Rider>): (r: seq<Pick>)
    ensures |r| == |riders|
    ensures forall i :: 0 <= i < |riders| ==> r[i] == Pick(i, riders[i])
    ensures forall p :: p in r <==> p.index < |riders| && p.rider == riders[p.index]
    ensures Distinct(r)
  {
    seq(|riders|, i requires 0 <= i < |riders| => Pick(i, riders[i]))
  }

  /** `filter(r => r.role === role)`. */
  function OfRole(s: seq<Pick>, role: string): (r: seq<Pick>)
    ensures forall x :: x in r <==> x in s && x.rider.role == role
    ensures Distinct(s) ==> Distinct(r)
  {
    if |s| == 0 then []
    else
      assert s == [s[0]] + s[1..];
      (if s[0].rider.role == role then [s[0]] else []) + OfRole(s[1..], role)
  }

  const AllRounder := "All Rounder"
  const Climber := "Climber"
  const Sprinter := "Sprinter"
  const Unclassed := "Unclassed"

  /** How many riders of a role the lineup shows (the slice lengths); none
      of any other role. */
  function Cap(role: string): nat
  {
    if role == AllRounder then 2
    else if role == Climber then 2
    else if role == Sprinter then 1
    else if role == Unclassed then 3
    else 0
  }

  /** `riders.filter(role).sort(points, highest first).slice(0, n)`. */
  function Group(picks: seq<Pick>, role: string, n: nat): seq<Pick>
  {
    Take(SortBy(OfRole(picks, role), PointsDown), n)
  }

  /** The roles of the lineup, in display order. */
  const LineupRoles: seq<string> := [AllRounder, Climber, Sprinter, Unclassed]

  /** The slices of the given roles, concatenated. */
  function Slices(picks: seq<Pick>, roles: seq<string>): seq<Pick>
  {
    if |roles| == 0 then [] else Group(picks, roles[0], Cap(roles[0])) + Slices(picks, roles[1..])
  }

  /** The four slices, concatenated. */
  function Lineup(picks: seq<Pick>): seq<Pick>
  {
    Slices(picks, LineupRoles)
  }

  /** The sum of the slice lengths of the given roles. */
  function CapTotal(roles: seq<string>): nat
  {
    if |roles| == 0 then 0 else Cap(roles[0]) + CapTotal(roles[1..])
  }

  /** `find(r => !chosen.includes(r))` as a position: the first pick not in
      `chosen`, or `|picks|` when every pick is. */
  function FirstNotIn(picks: seq<Pick>, chosen: seq<Pick>): (i: nat)
    ensures i <= |picks|
    ensures i < |picks| ==> picks[i] !in chosen
    ensures forall j :: 0 <= j < i ==> picks[j] in chosen
  {
    if |picks| == 0 then 0
    else if picks[0] !in chosen then 0
    else 1 + FirstNotIn(picks[1..], chosen)
  }

  predicate NonIncreasing(s: seq<Pick>)
  {
    forall i, j :: 0 <= i < j < |s| ==> s[j].rider.points <= s[i].rider.points
  }

  function Min(a: nat, b: nat): nat { if a < b then a else b }

  lemma {:induction false} DistinctCount<T>(s: seq<T>, x: T)
    requires Distinct(s)
    ensures multiset(s)[x] <= 1
  {
    if |s| > 0 {
      var p := s[..|s| - 1];
      assert s == p + [s[|s| - 1]];
      DistinctCount(p, x);
      if x == s[|s| - 1] {
        assert x !in p;
      }
    }
  }

  /** Reordering keeps a sequence free of repetitions. */
  lemma DistinctPermutation<T>(s: seq<T>, t: seq<T>)
    requires multiset(s) == multiset(t) && Distinct(s)
    ensures Distinct(t)
  {
    forall i, j | 0 <= i < j < |t| ensures t[i] != t[j] {
      if t[i] == t[j] {
        var x := t[i];
        assert t == t[..j] + t[j..];
        assert x in t[..j] && x in t[j..];
        assert multiset(t)[x] == multiset(t[..j])[x] + multiset(t[j..])[x];
        DistinctCount(s, x);
      }
    }
  }

  lemma DistinctConcat<T>(a: seq<T>, b: seq<T>)
    requires Distinct(a) && Distinct(b)
    requires forall x :: x in a ==> x !in b
    ensures Distinct(a + b)
  {
    forall i, j | 0 <= i < j < |a + b| ensures (a + b)[i] != (a + b)[j] {
      if j < |a| {
        assert (a + b)[i] == a[i] && (a + b)[j] == a[j];
      } else if i < |a| {
        assert (a + b)[i] == a[i] && (a + b)[j] == b[j - |a|];
        assert a[i] in a;
      } else {
        assert (a + b)[i] == b[i - |a|] && (a + b)[j] == b[j - |a|];
      }
    }
  }

  lemma {:induction false} OfRoleAppend(a: seq<Pick>, b: seq<Pick>, role: string)
    ensures OfRole(a + b, role) == OfRole(a, role) + OfRole(b, role)
  {
    if |a| == 0 {
      assert a + b == b;
    } else {
      assert (a + b)[1..] == a[1..] + b;
      OfRoleAppend(a[1..], b, role);
    }
  }

  /** Filtering picks that all share `role0`. */
  lemma {:induction false} OfRoleUniform(s: seq<Pick>, role0: string, role: string)
    requires forall p :: p in s ==> p.rider.role == role0
    ensures OfRole(s, role) == if role == role0 then s else []
  {
    if |s| > 0 {
      assert s[0] in s;
      assert forall p :: p in s[1..] ==> p in s;
      OfRoleUniform(s[1..], role0, role);
      assert s == [s[0]] + s[1..];
    }
  }

  lemma GroupMembers(picks: seq<Pick>, role: string, n: nat)
    ensures forall p :: p in Group(picks, role, n) ==> p in picks && p.rider.role == role
  {
    var f := OfRole(picks, role);
    SortByPermutation(f, PointsDown);
    forall p | p in Group(picks, role, n) ensures p in f {
      assert p in SortBy(f, PointsDown);
      assert p in multiset(SortBy(f, PointsDown));
    }
  }

  lemma GroupDistinct(picks: seq<Pick>, role: string, n: nat)
    requires Distinct(picks)
    ensures |Group(picks, role, n)| == Min(n, |OfRole(picks, role)|)
    ensures Distinct(Group(picks, role, n))
  {
    var f := OfRole(picks, role);
    var s := SortBy(f, PointsDown);
    var g := Take(s, n);
    SortByPermutation(f, PointsDown);
    DistinctPermutation(f, s);
    forall i, j | 0 <= i < j < |g| ensures g[i] != g[j] {
      assert g[i] == s[i] && g[j] == s[j];
    }
  }

  lemma GroupOrdered(picks: seq<Pick>, role: string, n: nat)
    ensures NonIncreasing(Group(picks, role, n))
  {
    var s := SortBy(OfRole(picks, role), PointsDown);
    var g := Take(s, n);
    SortBySorted(OfRole(picks, role), PointsDown);
    forall i, j | 0 <= i < j < |g| ensures g[j].rider.points <= g[i].rider.points {
      assert g[i] == s[i] && g[j] == s[j];
      assert KeyLe(PointsDown(s[i]), PointsDown(s[j]));
    }
  }

  lemma GroupTop(picks: seq<Pick>, role: string, n: nat)
    ensures forall p, q ::
      (p in picks && p.rider.role == role && p !in Group(picks, role, n) && q in Group(picks, role, n)) ==>
      p.rider.points <= q.rider.points
  {
    var f := OfRole(picks, role);
    var s := SortBy(f, PointsDown);
    var g := Take(s, n);
    SortByPermutation(f, PointsDown);
    SortBySorted(f, PointsDown);
    forall p, q | p in picks && p.rider.role == role && p !in g && q in g
      ensures p.rider.points <= q.rider.points
    {
      assert p in multiset(s);
      var k :| 0 <= k < |s| && s[k] == p;
      var l :| 0 <= l < |g| && g[l] == q;
      assert s[l] == q;
      assert KeyLe(PointsDown(s[l]), PointsDown(s[k]));
    }
  }

  /** One slice holds the `n` riders of the role with the most points, or
      all of them when there are fewer, highest first, and no rider of the
      role left out has more points than one shown. */
  lemma GroupFacts(picks: seq<Pick>, role: string, n: nat)
    requires Distinct(picks)
    ensures |Group(picks, role, n)| == Min(n, |OfRole(picks, role)|)
    ensures forall p :: p in Group(picks, role, n) ==> p in picks && p.rider.role == role
    ensures Distinct(Group(picks, role, n))
    ensures NonIncreasing(Group(picks, role, n))
    ensures forall p, q ::
      (p in picks && p.rider.role == role && p !in Group(picks, role, n) && q in Group(picks, role, n)) ==>
      p.rider.points <= q.rider.points
  {
    GroupMembers(picks, role, n);
    GroupDistinct(picks, role, n);
    GroupOrdered(picks, role, n);
    GroupTop(picks, role, n);
  }

  /** Filtering a slice by a role: the slice itself for its own role, nothing
      for any other. */
  lemma GroupOfRole(picks: seq<Pick>, role0: string, n: nat, role: string)
    ensures OfRole(Group(picks, role0, n), role) == if role == role0 then Group(picks, role0, n) else []
  {
    GroupMembers(picks, role0, n);
    OfRoleUniform(Group(picks, role0, n), role0, role);
  }

  /** The four role names differ (already in length). */
  lemma LineupRolesFacts()
    ensures Distinct(LineupRoles)
    ensures forall role :: role !in LineupRoles ==> Cap(role) == 0
    ensures CapTotal(LineupRoles) == 8
  {
    assert |AllRounder| == 11 && |Climber| == 7 && |Sprinter| == 8 && |Unclassed| == 9;
    assert Cap(AllRounder) == 2 && Cap(Climber) == 2 && Cap(Sprinter) == 1 && Cap(Unclassed) == 3;
    assert LineupRoles[1..] == [Climber, Sprinter, Unclassed];
    assert LineupRoles[1..][1..] == [Sprinter, Unclassed];
    assert LineupRoles[1..][1..][1..] == [Unclassed];
    assert LineupRoles[1..][1..][1..][1..] == [];
    assert CapTotal(LineupRoles[1..][1..][1..]) == 3;
    assert CapTotal(LineupRoles[1..][1..]) == 4;
    assert CapTotal(LineupRoles[1..]) == 6;
  }

  lemma {:induction false} SlicesOfRole(picks: seq<Pick>, roles: seq<string>, role: string)
    requires Distinct(roles)
    ensures OfRole(Slices(picks, roles), role) == if role in roles then Group(picks, role, Cap(role)) else []
  {
    if |roles| > 0 {
      var g := Group(picks, roles[0], Cap(roles[0]));
      OfRoleAppend(g, Slices(picks, roles[1..]), role);
      GroupOfRole(picks, roles[0], Cap(roles[0]), role);
      assert Distinct(roles[1..]);
      SlicesOfRole(picks, roles[1..], role);
      assert role in roles <==> role == roles[0] || role in roles[1..];
      if role == roles[0] {
        assert role !in roles[1..];
      }
    }
  }

  lemma {:induction false} SlicesMembers(picks: seq<Pick>, roles: seq<string>)
    ensures forall p :: p in Slices(picks, roles) ==> p in picks && p.rider.role in roles
  {
    if |roles| > 0 {
      GroupMembers(picks, roles[0], Cap(roles[0]));
      SlicesMembers(picks, roles[1..]);
    }
  }

  lemma {:induction false} SlicesDistinct(picks: seq<Pick>, roles: seq<string>)
    requires Distinct(picks) && Distinct(roles)
    ensures Distinct(Slices(picks, roles))
    ensures |Slices(picks, roles)| <= CapTotal(roles)
  {
    if |roles| > 0 {
      var g := Group(picks, roles[0], Cap(roles[0]));
      GroupMembers(picks, roles[0], Cap(roles[0]));
      GroupDistinct(picks, roles[0], Cap(roles[0]));
      assert Distinct(roles[1..]);
      SlicesDistinct(picks, roles[1..]);
      SlicesMembers(picks, roles[1..]);
      DistinctConcat(g, Slices(picks, roles[1..]));
    }
  }

  /** The lineup's riders of each role are exactly that role's slice. */
  lemma LineupOfRole(picks: seq<Pick>, role: string)
    ensures OfRole(Lineup(picks), role) == Group(picks, role, Cap(role))
  {
    LineupRolesFacts();
    SlicesOfRole(picks, LineupRoles, role);
  }

  lemma LineupDistinct(picks: seq<Pick>)
    requires Distinct(picks)
    ensures Distinct(Lineup(picks))
    ensures |Lineup(picks)| <= 8
  {
    LineupRolesFacts();
    SlicesDistinct(picks, LineupRoles);
  }

  lemma LineupMembers(picks: seq<Pick>)
    ensures forall p :: p in Lineup(picks) ==> p in picks
  {
    SlicesMembers(picks, LineupRoles);
  }

  lemma LineupPerRole(picks: seq<Pick>)
    requires Distinct(picks)
    ensures forall role :: |OfRole(Lineup(picks), role)| == Min(Cap(role), |OfRole(picks, role)|)
    ensures forall role :: NonIncreasing(OfRole(Lineup(picks), role))
  {
    forall role ensures |OfRole(Lineup(picks), role)| == Min(Cap(role), |OfRole(picks, role)|) {
      LineupOfRole(picks, role);
      GroupDistinct(picks, role, Cap(role));
    }
    forall role ensures NonIncreasing(OfRole(Lineup(picks), role)) {
      LineupOfRole(picks, role);
      GroupOrdered(picks, role, Cap(role));
    }
  }

  lemma LineupTop(picks: seq<Pick>)
    ensures forall p, q ::
      (p in picks && q in Lineup(picks) && p.rider.role == q.rider.role && p !in Lineup(picks)) ==>
      p.rider.points <= q.rider.points
  {
    var l := Lineup(picks);
    forall p, q | p in picks && q in l && p.rider.role == q.rider.role && p !in l
      ensures p.rider.points <= q.rider.points
    {
      var role := q.rider.role;
      LineupOfRole(picks, role);
      assert q in OfRole(l, role);
      assert p !in OfRole(l, role);
      GroupTop(picks, role, Cap(role));
    }
  }

  /** The lineup: no rider twice, every rider from the team, per role at
      most its slice length (and exactly that many when the team has enough),
      each role's riders highest points first, and no rider left out with
      more points than a listed rider of the same role. */
  lemma LineupFacts(riders: seq<Rider>)
    ensures |Lineup(Picks(riders))| <= 8
    ensures Distinct(Lineup(Picks(riders)))
    ensures forall p :: p in Lineup(Picks(riders)) ==> p in Picks(riders)
    ensures forall role :: |OfRole(Lineup(Picks(riders)), role)| == Min(Cap(role), |OfRole(Picks(riders), role)|)
    ensures forall role :: NonIncreasing(OfRole(Lineup(Picks(riders)), role))
    ensures forall p, q ::
      (p in Picks(riders) && q in Lineup(Picks(riders)) && p.rider.role == q.rider.role && p !in Lineup(Picks(riders))) ==>
      p.rider.points <= q.rider.points
  {
    var picks := Picks(riders);
    LineupDistinct(picks);
    LineupMembers(picks);
    LineupPerRole(picks);
    LineupTop(picks);
  }

  /** `orderedRiders`: the lineup, then one more rider pushed when some
      rider of the team is not in it, namely the first such rider. */
  method OrderDreamTeam(riders: seq<Rider>) returns (ordered: seq<Pick>)
    ensures |Lineup(Picks(riders))| <= |ordered| <= |Lineup(Picks(riders))| + 1
    ensures ordered[..|Lineup(Picks(riders))|] == Lineup(Picks(riders))
    ensures |ordered| <= 9
    ensures Distinct(ordered)
    ensures forall p :: p in ordered ==> p.index < |riders| && p.rider == riders[p.index]
    ensures |ordered| > |Lineup(Picks(riders))| <==>
      exists i :: 0 <= i < |riders| && Pick(i, riders[i]) !in Lineup(Picks(riders))
    ensures |ordered| > |Lineup(Picks(riders))| ==>
      ordered[|Lineup(Picks(riders))|] !in Lineup(Picks(riders)) &&
      forall j :: 0 <= j < ordered[|Lineup(Picks(riders))|].index ==> Pick(j, riders[j]) in Lineup(Picks(riders))
  {
    var picks := Picks(riders);
    LineupFacts(riders);
    ordered := Lineup(picks);
    var i := FirstNotIn(picks, ordered);
    if i < |picks| {
      DistinctConcat(ordered, [picks[i]]);
      ordered := ordered + [picks[i]];
    }
  }

  /** The `forEach` building `roleData`: the points of the ordered riders
      summed per role. */
  method RoleData(ordered: seq<Pick>) returns (roleData: Dict)
    ensures roleData == Grouped(ordered, PickRole, PickPoints)
    ensures roleData.Valid()
    ensures roleData.keys == Dedup(KeysOf(ordered, PickRole))
    ensures forall r :: r in roleData.values <==> r in KeysOf(ordered, PickRole)
    ensures forall r :: r in roleData.values ==> roleData.values[r] == SumWhere(ordered, PickRole, PickPoints, r)
    ensures SumOver(roleData.keys, roleData.values) == Sum(ordered, PickPoints)
  {
    roleData := Dict([], map[]);
    var i := 0;
    while i < |ordered|
      invariant 0 <= i <= |ordered|
      invariant roleData == Grouped(ordered[..i], PickRole, PickPoints)
    {
      var rider := ordered[i].rider;
      assert ordered[..i + 1][..i] == ordered[..i];
      roleData := AddTo(roleData, rider.role, rider.points);
      i := i + 1;
    }
    assert ordered[..i] == ordered;
    GroupedKeys(ordered, PickRole, PickPoints);
    forall r | r in roleData.values
      ensures roleData.values[r] == SumWhere(ordered, PickRole, PickPoints, r)
    {
      GroupedValues(ordered, PickRole, PickPoints, r);
    }
    GroupedTotal(ordered, PickRole, PickPoints);
  }
}
