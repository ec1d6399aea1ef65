/** What the active settings profiles contribute to a build: their
    properties, exported as extra properties, and their repositories,
    added to the repository collection unless already declared. */
module Profiles {
  import opened Model

  /** The collection holds a Maven repository with this name. Repositories
      of other kinds never count, whatever their name. */
  predicate DefinesMaven(repos: seq<Repository>, name: string)
  {
    exists i :: 0 <= i < |repos| && repos[i].IsMaven() && repos[i].name == name
  }

  /** The entry `repositories.maven { name = id; url = URI(url) }` adds. */
  function ProfileRepositoryEntry(pr: ProfileRepository): (r: Repository)
    ensures r.IsMaven() && r.name == pr.id && r.url == pr.url && r.credentials.None?
  {
    Repository(MavenKind, pr.id, pr.url, None)
  }

  /** One step of the repository loop: skip the profile repository when a
      Maven repository of that name exists, otherwise append it. */
  function AddIfAbsent(repos: seq<Repository>, pr: ProfileRepository): (r: seq<Repository>)
    ensures DefinesMaven(r, pr.id)
    ensures |repos| <= |r| <= |repos| + 1 && r[..|repos|] == repos
    ensures DefinesMaven(repos, pr.id) ==> r == repos
  {
    if DefinesMaven(repos, pr.id) then repos
    else
      var r := repos + [ProfileRepositoryEntry(pr)];
      assert r[|repos|].IsMaven() && r[|repos|].name == pr.id;
      r
  }

  /** Some profile of `profiles` declares `pr`. */
  predicate DeclaredBy(profiles: seq<Profile>, pr: ProfileRepository)
  {
    exists i :: 0 <= i < |profiles| && pr in profiles[i].repositories
  }

  /** The profile repositories in the order they are visited: profile by
      profile, and within a profile in declaration order. */
  function ProfileRepositories(profiles: seq<Profile>): (prs: seq<ProfileRepository>)
    ensures forall pr :: pr in prs <==> DeclaredBy(profiles, pr)
  {
    if profiles == [] then []
    else
      var init := profiles[..|profiles| - 1];
      var last := profiles[|profiles| - 1];
      assert forall pr :: DeclaredBy(profiles, pr) <==> DeclaredBy(init, pr) || pr in last.repositories by {
        forall pr | DeclaredBy(profiles, pr)
          ensures DeclaredBy(init, pr) || pr in last.repositories
        {
          var i :| 0 <= i < |profiles| && pr in profiles[i].repositories;
          if i < |init| {
            assert init[i] == profiles[i];
          }
        }
        forall pr | DeclaredBy(init, pr)
          ensures DeclaredBy(profiles, pr)
        {
          var i :| 0 <= i < |init| && pr in init[i].repositories;
          assert profiles[i] == init[i];
        }
      }
      ProfileRepositories(init) + last.repositories
  }

  /** The collection after visiting `prs` in order; each step sees the
      entries the earlier steps added. */
  function Contribute(repos: seq<Repository>, prs: seq<ProfileRepository>): (r: seq<Repository>)
    ensures |repos| <= |r| <= |repos| + |prs| && r[..|repos|] == repos
  {
    if prs == [] then repos
    else AddIfAbsent(Contribute(repos, prs[..|prs| - 1]), prs[|prs| - 1])
  }

  lemma ContributeSnoc(repos: seq<Repository>, prs: seq<ProfileRepository>, pr: ProfileRepository)
    ensures Contribute(repos, prs + [pr]) == AddIfAbsent(Contribute(repos, prs), pr)
  {
    assert (prs + [pr])[..|prs|] == prs;
  }

  lemma ProfileRepositoriesSnoc(profiles: seq<Profile>, profile: Profile)
    ensures ProfileRepositories(profiles + [profile]) == ProfileRepositories(profiles) + profile.repositories
  {
    assert (profiles + [profile])[..|profiles|] == profiles;
  }

  /** Visiting two runs of profile repositories one after the other is
      visiting their concatenation. */
  lemma {:induction false} ContributeAppend(repos: seq<Repository>, a: seq<ProfileRepository>, b: seq<ProfileRepository>)
    ensures Contribute(repos, a + b) == Contribute(Contribute(repos, a), b)
    decreases |b|
  {
    if b != [] {
      var init := b[..|b| - 1];
      ContributeAppend(repos, a, init);
      assert (a + b)[..|a + b| - 1] == a + init;
    } else {
      assert a + b == a;
    }
  }

  /** Nothing is removed or changed: the old collection is a prefix of the
      new one, and every entry after it is the entry of one of the visited
      profile repositories. */
  lemma {:induction false} ContributeOnlyAppends(repos: seq<Repository>, prs: seq<ProfileRepository>)
    ensures var after := Contribute(repos, prs);
            |repos| <= |after| <= |repos| + |prs| && after[..|repos|] == repos
            && forall i :: |repos| <= i < |after| ==>
                 exists j :: 0 <= j < |prs| && after[i] == ProfileRepositoryEntry(prs[j])
  {
    if prs != [] {
      var init := prs[..|prs| - 1];
      var last := prs[|prs| - 1];
      ContributeOnlyAppends(repos, init);
      var mid := Contribute(repos, init);
      var after := Contribute(repos, prs);
      forall i | |repos| <= i < |after|
        ensures exists j :: 0 <= j < |prs| && after[i] == ProfileRepositoryEntry(prs[j])
      {
        if i < |mid| {
          var j :| 0 <= j < |init| && mid[i] == ProfileRepositoryEntry(init[j]);
          assert after[i] == mid[i] && init[j] == prs[j];
        } else {
          assert after[i] == ProfileRepositoryEntry(prs[|prs| - 1]);
        }
      }
      if after != mid {
        assert after[..|repos|] == mid[..|repos|];
      }
    }
  }

  /** After the contribution a Maven repository exists under a name exactly
      when one existed before or some visited profile repository has it. */
  lemma {:induction false} ContributeDefines(repos: seq<Repository>, prs: seq<ProfileRepository>, name: string)
    ensures DefinesMaven(Contribute(repos, prs), name)
            <==> DefinesMaven(repos, name) || exists j :: 0 <= j < |prs| && prs[j].id == name
  {
    if prs != [] {
      var init := prs[..|prs| - 1];
      var last := prs[|prs| - 1];
      ContributeDefines(repos, init, name);
      var mid := Contribute(repos, init);
      var after := Contribute(repos, prs);
      assert (exists j :: 0 <= j < |prs| && prs[j].id == name)
                    <==> (exists j :: 0 <= j < |init| && init[j].id == name) || last.id == name by {
        if exists j :: 0 <= j < |prs| && prs[j].id == name {
          var j :| 0 <= j < |prs| && prs[j].id == name;
          if j < |init| {
            assert init[j].id == name;
          }
        }
        if exists j :: 0 <= j < |init| && init[j].id == name {
          var j :| 0 <= j < |init| && init[j].id == name;
          assert prs[j].id == name;
        }
      }
      AddIfAbsentDefines(mid, last, name);
    }
  }

  /** One step adds exactly the profile repository's id to the names in use. */
  lemma AddIfAbsentDefines(repos: seq<Repository>, pr: ProfileRepository, name: string)
    ensures DefinesMaven(AddIfAbsent(repos, pr), name) <==> DefinesMaven(repos, name) || pr.id == name
  {
    var after := AddIfAbsent(repos, pr);
    if !DefinesMaven(repos, pr.id) {
      assert after == repos + [ProfileRepositoryEntry(pr)];
      if DefinesMaven(repos, name) {
        var i :| 0 <= i < |repos| && repos[i].IsMaven() && repos[i].name == name;
        assert after[i] == repos[i];
      }
      if DefinesMaven(after, name) && !DefinesMaven(repos, name) {
        var i :| 0 <= i < |after| && after[i].IsMaven() && after[i].name == name;
        assert i == |repos|;
      }
    }
  }

  /** No two Maven repositories share a name. */
  ghost predicate UniqueMavenNames(repos: seq<Repository>)
  {
    forall i, j :: 0 <= i < j < |repos| && repos[i].IsMaven() && repos[j].IsMaven() ==> repos[i].name != repos[j].name
  }

  /** The contribution never introduces a second Maven repository with a
      name already in use, so a collection with unique Maven names keeps
      them unique. */
  lemma {:induction false} ContributeKeepsNamesUnique(repos: seq<Repository>, prs: seq<ProfileRepository>)
    requires UniqueMavenNames(repos)
    ensures UniqueMavenNames(Contribute(repos, prs))
  {
    if prs != [] {
      var init := prs[..|prs| - 1];
      var last := prs[|prs| - 1];
      ContributeKeepsNamesUnique(repos, init);
      var mid := Contribute(repos, init);
      var after := Contribute(repos, prs);
      if !DefinesMaven(mid, last.id) {
        assert after == mid + [ProfileRepositoryEntry(last)];
        forall i, j | 0 <= i < j < |after| && after[i].IsMaven() && after[j].IsMaven()
          ensures after[i].name != after[j].name
        {
          if j == |mid| {
            assert after[i] == mid[i];
          } else {
            assert after[i] == mid[i] && after[j] == mid[j];
          }
        }
      }
    }
  }

  /** When the name is not yet in use, the entry added for it is the one
      built from the FIRST visited profile repository with that id. */
  lemma {:induction false} FirstProfileRepositoryWins(repos: seq<Repository>, prs: seq<ProfileRepository>, k: nat)
    requires k < |prs| && !DefinesMaven(repos, prs[k].id)
    requires forall j :: 0 <= j < k ==> prs[j].id != prs[k].id
    ensures ProfileRepositoryEntry(prs[k]) in Contribute(repos, prs)
  {
    var init := prs[..|prs| - 1];
    var mid := Contribute(repos, init);
    if k < |prs| - 1 {
      FirstProfileRepositoryWins(repos, init, k);
      ContributeOnlyAppends(repos, prs);
      assert Contribute(repos, prs)[..|mid|] == mid by {
        if !DefinesMaven(mid, prs[|prs| - 1].id) {
          assert Contribute(repos, prs) == mid + [ProfileRepositoryEntry(prs[|prs| - 1])];
        }
      }
      var i :| 0 <= i < |mid| && mid[i] == ProfileRepositoryEntry(prs[k]);
      assert Contribute(repos, prs)[i] == mid[i];
    } else {
      ContributeDefines(repos, init, prs[k].id);
      assert Contribute(repos, prs) == mid + [ProfileRepositoryEntry(prs[k])];
    }
  }

  /** An existing Maven repository is never replaced by a profile
      repository of the same name. */
  lemma ExistingRepositoryWins(repos: seq<Repository>, prs: seq<ProfileRepository>, i: nat)
    requires i < |repos|
    ensures i < |Contribute(repos, prs)| && Contribute(repos, prs)[i] == repos[i]
  {
    ContributeOnlyAppends(repos, prs);
    assert Contribute(repos, prs)[..|repos|][i] == repos[i];
  }

  /** The extra properties after every active profile has been exported, in
      order; a later profile overwrites an earlier one's value. */
  function ContributeProperties(values: map<string, string>, profiles: seq<Profile>): (r: map<string, string>)
    ensures values.Keys <= r.Keys
    ensures forall i :: 0 <= i < |profiles| ==> profiles[i].properties.Keys <= r.Keys
  {
    if profiles == [] then values
    else ContributeProperties(values, profiles[..|profiles| - 1]) + profiles[|profiles| - 1].properties
  }

  lemma ContributePropertiesSnoc(values: map<string, string>, profiles: seq<Profile>, profile: Profile)
    ensures ContributeProperties(values, profiles + [profile]) == ContributeProperties(values, profiles) + profile.properties
  {
    assert (profiles + [profile])[..|profiles|] == profiles;
  }

  /** The index of the last profile defining `key`, or -1. */
  function LastDefining(profiles: seq<Profile>, key: string): (k: int)
    ensures -1 <= k < |profiles|
    ensures k >= 0 ==> key in profiles[k].properties
    ensures forall j :: k < j < |profiles| ==> key !in profiles[j].properties
  {
    if profiles == [] then -1
    else if key in profiles[|profiles| - 1].properties then |profiles| - 1
    else LastDefining(profiles[..|profiles| - 1], key)
  }

  /** A property takes the value given by the last active profile that
      defines it; a property no active profile defines keeps its value (or
      stays absent). */
  lemma {:induction false} PropertyFromLastProfile(values: map<string, string>, profiles: seq<Profile>, key: string)
    ensures var k := LastDefining(profiles, key);
            var after := ContributeProperties(values, profiles);
            (k >= 0 ==> key in after && after[key] == profiles[k].properties[key])
            && (k < 0 ==> (key in after <==> key in values) && (key in values ==> after[key] == values[key]))
  {
    if profiles != [] && key !in profiles[|profiles| - 1].properties {
      PropertyFromLastProfile(values, profiles[..|profiles| - 1], key);
    }
  }

  /** The exported keys are the old keys plus every key of an active profile. */
  lemma {:induction false} ContributedKeys(values: map<string, string>, profiles: seq<Profile>)
    ensures forall key :: key in ContributeProperties(values, profiles)
              <==> key in values || exists j :: 0 <= j < |profiles| && key in profiles[j].properties
  {
    if profiles != [] {
      var init := profiles[..|profiles| - 1];
      ContributedKeys(values, init);
      forall key ensures key in ContributeProperties(values, profiles)
                 <==> key in values || exists j :: 0 <= j < |profiles| && key in profiles[j].properties
      {
        if exists j :: 0 <= j < |init| && key in init[j].properties {
          var j :| 0 <= j < |init| && key in init[j].properties;
          assert profiles[j] == init[j];
        }
        if exists j :: 0 <= j < |profiles| && key in profiles[j].properties {
          var j :| 0 <= j < |profiles| && key in profiles[j].properties;
          if j < |init| {
            assert init[j] == profiles[j];
          }
        }
      }
    }
  }
}
