/** The team names of the stacked league chart and the loose key lookup
    that maps each name onto the keys of the two hard-coded stage tables. */
module League {
  import opened Strings
  import opened Collections

  /** An element of `league_scores`. */
  datatype Team = Team(name: string, points: real)

  function TeamName(t: Team): string { t.name }

  /** The hard-coded scores of the first table (`baseData`). */
  function BaseData(): Dict
  {
    Dict(["Team Name", "Iberische Halbpinsel", "Ganz anderer Teamname", "Team Fiestina"],
         map["Team Name" := 0.0, "Iberische Halbpinsel" := 7405.0,
             "Ganz anderer Teamname" := 9297.0, "Team Fiestina" := 8128.0])
  }

  /** The hard-coded scores of the second table (`middleData`). */
  function MiddleData(): Dict
  {
    Dict(["Team Name", "Iberische Halbpinsel", "Ganz anderer Teamname", "Team Fiestina"],
         map["Team Name" := 9062.0, "Iberische Halbpinsel" := 9530.0,
             "Ganz anderer Teamname" := 7506.0, "Team Fiestina" := 8964.0])
  }

  /** `getUniqueTeamNames`: the keys of both tables and the league's team
      names, each exactly once, in the order of their first occurrence in
      that concatenation. */
  function UniqueTeamNames(baseData: Dict, middleData: Dict, leagueScores: seq<Team>): (r: seq<string>)
    ensures forall i :: 0 <= i < |r| ==> r[i] in baseData.keys + middleData.keys + KeysOf(leagueScores, TeamName)
    ensures forall x :: x in baseData.keys || x in middleData.keys || x in KeysOf(leagueScores, TeamName) ==> x in r
    ensures Distinct(r)
    ensures forall i, j :: 0 <= i < j < |r| ==>
      FirstIndex(baseData.keys + middleData.keys + KeysOf(leagueScores, TeamName), r[i])
        < FirstIndex(baseData.keys + middleData.keys + KeysOf(leagueScores, TeamName), r[j])
  {
    var all := baseData.keys + middleData.keys + KeysOf(leagueScores, TeamName);
    DedupFirstOccurrenceOrder(all);
    assert forall x :: x in all ==> x in Dedup(all) by {
      forall x | x in all ensures x in Dedup(all) {
        var i :| 0 <= i < |all| && all[i] == x;
      }
    }
    Dedup(all)
  }

  /** The test inside `find`: either lower-cased string contains the other. */
  predicate LooseMatch(key: string, searchKey: string)
  {
    Includes(Lower(key), Lower(searchKey)) || Includes(Lower(searchKey), Lower(key))
  }

  /** The test ignores case: keys or search keys that lower-case alike
      match alike. */
  lemma LooseMatchIgnoresCase(key: string, key': string, searchKey: string, searchKey': string)
    requires Lower(key) == Lower(key') && Lower(searchKey) == Lower(searchKey')
    ensures LooseMatch(key, searchKey) == LooseMatch(key', searchKey')
  {
  }

  /** The test is symmetric, and every string matches itself. */
  lemma LooseMatchSymmetric(a: string, b: string)
    ensures LooseMatch(a, b) == LooseMatch(b, a)
    ensures LooseMatch(a, a)
  {
    assert OccursAt(Lower(a), Lower(a), 0);
  }

  /** `keys.find(...)` as a position: the first key that loosely matches,
      or `|keys|` when there is none (`find` gives `undefined`). */
  function FirstMatch(keys: seq<string>, searchKey: string): (i: nat)
    ensures i <= |keys|
    ensures i < |keys| ==> LooseMatch(keys[i], searchKey)
    ensures forall j :: 0 <= j < i ==> !LooseMatch(keys[j], searchKey)
  {
    if |keys| == 0 then 0
    else if LooseMatch(keys[0], searchKey) then 0
    else 1 + FirstMatch(keys[1..], searchKey)
  }

  /** `findExactOrClosestMatch`: the search key itself when it is a key;
      otherwise the first key that loosely matches it, unless there is none
      or that key is the empty string (which `|| searchKey` treats as false);
      otherwise the search key. */
  function FindExactOrClosestMatch(obj: Dict, searchKey: string): (r: string)
    requires obj.Valid()
    ensures searchKey in obj.values ==> r == searchKey
    ensures r == searchKey || r in obj.values
    ensures r != searchKey ==>
      exists i :: 0 <= i < |obj.keys| && obj.keys[i] == r && r != "" && LooseMatch(r, searchKey) &&
        forall j :: 0 <= j < i ==> !LooseMatch(obj.keys[j], searchKey)
    ensures r == searchKey && searchKey !in obj.values ==>
      forall i :: 0 <= i < |obj.keys| && LooseMatch(obj.keys[i], searchKey) ==>
        exists j :: 0 <= j <= i && obj.keys[j] == "" && forall l :: 0 <= l < j ==> !LooseMatch(obj.keys[l], searchKey)
  {
    if searchKey in obj.values then searchKey
    else
      var i := FirstMatch(obj.keys, searchKey);
      if i < |obj.keys| && obj.keys[i] != "" then obj.keys[i] else searchKey
  }

  /** Names already among the first table's keys add nothing: the union is
      then the first table's key list. */
  lemma UniqueTeamNamesOfKnownNames(baseData: Dict, middleData: Dict, leagueScores: seq<Team>)
    requires Distinct(baseData.keys)
    requires forall i :: 0 <= i < |middleData.keys| ==> middleData.keys[i] in baseData.keys
    requires forall t :: t in leagueScores ==> t.name in baseData.keys
    ensures UniqueTeamNames(baseData, middleData, leagueScores) == baseData.keys
  {
    var b, rest := baseData.keys, middleData.keys + KeysOf(leagueScores, TeamName);
    assert b + middleData.keys + KeysOf(leagueScores, TeamName) == b + rest;
    assert forall i :: 0 <= i < |rest| ==> rest[i] in b by {
      forall i | 0 <= i < |rest| ensures rest[i] in b {
        if i >= |middleData.keys| {
          assert leagueScores[i - |middleData.keys|] in leagueScores;
        }
      }
    }
    DedupAbsorbs(b, rest);
    DedupOfDistinct(b);
  }

  /** The two hard-coded tables share their four keys, so with no league
      teams the chart's names are the first table's keys. */
  lemma TableKeysUnion()
    ensures UniqueTeamNames(BaseData(), MiddleData(), []) == BaseData().keys
  {
    assert Distinct(BaseData().keys);
    UniqueTeamNamesOfKnownNames(BaseData(), MiddleData(), []);
  }

  /** An exact key of the first table is kept. */
  lemma ExactLookup()
    ensures FindExactOrClosestMatch(BaseData(), "Team Fiestina") == "Team Fiestina"
  {
    assert Distinct(BaseData().keys);
  }

  /** A fragment that several keys of the first table contain finds the
      first of them. */
  lemma FragmentLookup()
    ensures FindExactOrClosestMatch(BaseData(), "team") == "Team Name"
  {
    var d := BaseData();
    assert Distinct(d.keys);
    assert "team" !in d.values;
    assert Lower("Team Name") == "team name";
    assert Lower("team") == "team";
    assert "team" <= "team name";
    assert LooseMatch(d.keys[0], "team");
  }

  /** A name no key of the first table is related to comes back unchanged. */
  lemma UnrelatedLookup()
    ensures FindExactOrClosestMatch(BaseData(), "Vuelta") == "Vuelta"
  {
    var d := BaseData();
    assert Distinct(d.keys);
    assert "Vuelta" !in d.values;
    NoKeyMatchesVuelta();
  }

  lemma NoKeyMatchesVuelta()
    ensures forall i :: 0 <= i < |BaseData().keys| ==> !LooseMatch(BaseData().keys[i], "Vuelta")
  {
    var d := BaseData();
    var v := Lower("Vuelta");
    assert v == "vuelta";
    forall i | 0 <= i < |d.keys| ensures !LooseMatch(d.keys[i], "Vuelta") {
      var k := Lower(d.keys[i]);
      assert |v| < |k|;
      assert 'v' !in k;
      if Includes(k, v) {
        IncludesHead(k, v);
      }
      if Includes(v, k) {
        IncludesNoLonger(v, k);
      }
    }
  }
}
