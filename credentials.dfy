/** Attaching server credentials to repositories by id (`applyCredentials`
    and the matching done by `applyRepoCredentials`), as functions on
    repository values. */
module Credentials {
  import opened Model

  /** `applyCredentials` does nothing unless both username and password are set. */
  predicate HasUsableCredentials(server: Server)
  {
    server.username.Some? && server.password.Some?
  }

  function CredentialsOf(server: Server): Credentials
    requires HasUsableCredentials(server)
  {
    Credentials(server.username.value, server.password.value)
  }

  /** `Settings.getServer(id)`: the first server with that id. */
  function GetServer(servers: seq<Server>, id: string): (r: Option<Server>)
    ensures r.None? <==> forall i :: 0 <= i < |servers| ==> servers[i].id != id
    ensures r.Some? ==> exists i :: 0 <= i < |servers| && servers[i] == r.value && r.value.id == id
                          && forall j :: 0 <= j < i ==> servers[j].id != id
  {
    if servers == [] then None
    else if servers[0].id == id then Some(servers[0])
    else
      var r := GetServer(servers[1..], id);
      assert r.Some? ==> exists i :: 1 <= i < |servers| && servers[i] == r.value
                          && forall j :: 0 <= j < i ==> servers[j].id != id by {
        if r.Some? {
          var i :| 0 <= i < |servers[1..]| && servers[1..][i] == r.value && r.value.id == id
                   && forall j :: 0 <= j < i ==> servers[1..][j].id != id;
          assert servers[i + 1] == r.value;
        }
      }
      r
  }

  /** `applyCredentials(server, repo)`: a usable server overwrites the
      repository's credentials; anything else leaves the repository as it is. */
  function ApplyCredentials(server: Option<Server>, repo: Repository): (r: Repository)
    ensures r.kind == repo.kind && r.name == repo.name && r.url == repo.url
    ensures r.credentials == if server.Some? && HasUsableCredentials(server.value)
                             then Some(CredentialsOf(server.value)) else repo.credentials
  {
    if server.None? || !HasUsableCredentials(server.value) then repo
    else repo.(credentials := Some(CredentialsOf(server.value)))
  }

  /** The inner loop of `applyRepoCredentials` for one Maven repository:
      every server whose id equals the repository name is applied, in list
      order. */
  function ApplyMatching(servers: seq<Server>, repo: Repository): (r: Repository)
    ensures r.kind == repo.kind && r.name == repo.name && r.url == repo.url
    ensures r.credentials == repo.credentials
            || exists i :: 0 <= i < |servers| && servers[i].id == repo.name && HasUsableCredentials(servers[i])
                           && r.credentials == Some(CredentialsOf(servers[i]))
  {
    if servers == [] then repo
    else
      var init := servers[..|servers| - 1];
      var r := ApplyMatching(init, repo);
      var server := servers[|servers| - 1];
      assert r.credentials != repo.credentials ==>
               exists i :: 0 <= i < |servers| && servers[i].id == repo.name && HasUsableCredentials(servers[i])
                           && r.credentials == Some(CredentialsOf(servers[i])) by {
        if r.credentials != repo.credentials {
          var i :| 0 <= i < |init| && init[i].id == repo.name && HasUsableCredentials(init[i])
                   && r.credentials == Some(CredentialsOf(init[i]));
          assert servers[i] == init[i];
        }
      }
      if r.name == server.id then ApplyCredentials(Some(server), r) else r
  }

  /** What `applyRepoCredentials` makes of one repository: only the
      credentials of a Maven repository can change. */
  function Inject(servers: seq<Server>, repo: Repository): (r: Repository)
    ensures r.kind == repo.kind && r.name == repo.name && r.url == repo.url
    ensures !repo.IsMaven() ==> r == repo
  {
    if repo.IsMaven() then ApplyMatching(servers, repo) else repo
  }

  /** The index of the last server with the given id and usable
      credentials, or -1 if there is none. */
  function LastUsable(servers: seq<Server>, name: string): (k: int)
    ensures -1 <= k < |servers|
    ensures k >= 0 ==> servers[k].id == name && HasUsableCredentials(servers[k])
    ensures forall j :: k < j < |servers| ==> !(servers[j].id == name && HasUsableCredentials(servers[j]))
  {
    if servers == [] then -1
    else
      var last := servers[|servers| - 1];
      if last.id == name && HasUsableCredentials(last) then |servers| - 1
      else LastUsable(servers[..|servers| - 1], name)
  }

  /** Injection changes only the credentials: a Maven repository ends up
      with the credentials of the LAST server that carries its name and
      both a username and a password; a repository with no such server, or
      one that is not a Maven repository, is left untouched. */
  lemma {:induction false} InjectedCredentials(servers: seq<Server>, repo: Repository)
    ensures var k := LastUsable(servers, repo.name);
            Inject(servers, repo)
            == if repo.IsMaven() && k >= 0 then repo.(credentials := Some(CredentialsOf(servers[k])))
               else repo
  {
    if repo.IsMaven() {
      ApplyMatchingLastUsable(servers, repo);
    }
  }

  lemma {:induction false} ApplyMatchingLastUsable(servers: seq<Server>, repo: Repository)
    ensures var k := LastUsable(servers, repo.name);
            ApplyMatching(servers, repo)
            == if k >= 0 then repo.(credentials := Some(CredentialsOf(servers[k]))) else repo
  {
    if servers != [] {
      var init := servers[..|servers| - 1];
      ApplyMatchingLastUsable(init, repo);
      var k := LastUsable(init, repo.name);
      assert ApplyMatching(init, repo).name == repo.name;
    }
  }

  /** Applying the injection a second time changes nothing. */
  lemma InjectIdempotent(servers: seq<Server>, repo: Repository)
    ensures Inject(servers, Inject(servers, repo)) == Inject(servers, repo)
  {
    var once := Inject(servers, repo);
    InjectedCredentials(servers, repo);
    InjectedCredentials(servers, once);
    assert once.name == repo.name && once.kind == repo.kind;
  }

  /** `applyRepoCredentials` over a whole collection, entry by entry. */
  function InjectAll(servers: seq<Server>, repos: seq<Repository>): (r: seq<Repository>)
    ensures |r| == |repos| && forall i :: 0 <= i < |repos| ==> r[i] == Inject(servers, repos[i])
  {
    seq(|repos|, i requires 0 <= i < |repos| => Inject(servers, repos[i]))
  }

  lemma InjectAllIdempotent(servers: seq<Server>, repos: seq<Repository>)
    ensures InjectAll(servers, InjectAll(servers, repos)) == InjectAll(servers, repos)
  {
    var once := InjectAll(servers, repos);
    forall i | 0 <= i < |repos|
      ensures InjectAll(servers, once)[i] == once[i]
    {
      InjectIdempotent(servers, repos[i]);
    }
  }
}
