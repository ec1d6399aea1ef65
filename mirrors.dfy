/** Mirror selection and the per-repository substitution decision of
    `registerMirrors` / `createMirrorRepository`, and the state the
    reconciliation leaves the repository collection in. */
module Mirrors {
  import opened Model
  import opened Strings
  import Credentials

  /** `ArtifactRepositoryContainer.DEFAULT_MAVEN_LOCAL_REPO_NAME`. */
  const MavenLocalName: string := "MavenLocal"
  /** `ArtifactRepositoryContainer.MAVEN_CENTRAL_URL`. */
  const MavenCentralUrl: string := "https://repo.maven.apache.org/maven2/"

  const GlobalToken: string := "*"
  const ExternalToken: string := "external:*"
  const CentralToken: string := "central"

  /** The `mirrorOf` tokens: split on ',' only, not trimmed. */
  function MirrorOf(mirror: Mirror): seq<string>
  {
    Split(mirror.mirrorOf, ',')
  }

  predicate Declares(mirror: Mirror, token: string)
  {
    token in MirrorOf(mirror)
  }

  ghost predicate NoneDeclares(mirrors: seq<Mirror>, token: string)
  {
    forall i :: 0 <= i < |mirrors| ==> !Declares(mirrors[i], token)
  }

  /** `mirror` is the first of `mirrors` that declares `token`. */
  ghost predicate IsFirstDeclaring(mirrors: seq<Mirror>, token: string, mirror: Mirror)
  {
    exists i :: 0 <= i < |mirrors| && mirrors[i] == mirror && Declares(mirror, token)
                && forall j :: 0 <= j < i ==> !Declares(mirrors[j], token)
  }

  function FirstDeclaring(mirrors: seq<Mirror>, token: string, from: nat): (k: nat)
    requires from <= |mirrors|
    ensures from <= k <= |mirrors|
    ensures forall j :: from <= j < k ==> !Declares(mirrors[j], token)
    ensures k < |mirrors| ==> Declares(mirrors[k], token)
    decreases |mirrors| - from
  {
    if from == |mirrors| || Declares(mirrors[from], token) then from
    else FirstDeclaring(mirrors, token, from + 1)
  }

  /** `mirrors.find { it.mirrorOf.split(',').contains(token) }`. */
  function FindMirror(mirrors: seq<Mirror>, token: string): (r: Option<Mirror>)
    ensures r.None? <==> NoneDeclares(mirrors, token)
    ensures r.Some? ==> IsFirstDeclaring(mirrors, token, r.value)
  {
    var k := FirstDeclaring(mirrors, token, 0);
    if k < |mirrors| then Some(mirrors[k]) else None
  }

  /** The three kinds of mirror, in the order they are looked for. */
  datatype Category = Global | External | Central

  function TokenOf(category: Category): string
  {
    match category
    case Global => GlobalToken
    case External => ExternalToken
    case Central => CentralToken
  }

  /** The one mirror `registerMirrors` acts on, and why. */
  datatype Selection = Selection(category: Category, mirror: Mirror)

  /** At most one mirror is chosen, in strict priority: the first declaring
      `*`; only if none does, the first declaring `external:*`; only if
      neither exists, the first declaring `central`. */
  function SelectMirror(mirrors: seq<Mirror>): (sel: Option<Selection>)
    ensures sel.None? <==> NoneDeclares(mirrors, GlobalToken) && NoneDeclares(mirrors, ExternalToken)
                           && NoneDeclares(mirrors, CentralToken)
    ensures sel.Some? ==> IsFirstDeclaring(mirrors, TokenOf(sel.value.category), sel.value.mirror)
    ensures !NoneDeclares(mirrors, GlobalToken) ==> sel.Some? && sel.value.category == Global
    ensures NoneDeclares(mirrors, GlobalToken) && !NoneDeclares(mirrors, ExternalToken) ==>
              sel.Some? && sel.value.category == External
    ensures sel.Some? && sel.value.category == Central ==>
              NoneDeclares(mirrors, GlobalToken) && NoneDeclares(mirrors, ExternalToken)
  {
    match FindMirror(mirrors, GlobalToken)
    case Some(m) => Some(Selection(Global, m))
    case None =>
      match FindMirror(mirrors, ExternalToken)
      case Some(m) => Some(Selection(External, m))
      case None =>
        match FindMirror(mirrors, CentralToken)
        case Some(m) => Some(Selection(Central, m))
        case None => None
  }

  /** The `!name` tokens with the `!` stripped. */
  function Exclusions(tokens: seq<string>): (names: seq<string>)
    ensures forall name :: name in names <==> ['!'] + name in tokens
  {
    if tokens == [] then []
    else
      var t := tokens[0];
      var rest := Exclusions(tokens[1..]);
      assert forall x :: x in tokens <==> x == t || x in tokens[1..];
      if |t| > 0 && t[0] == '!' then
        assert t == ['!'] + t[1..];
        [t[1..]] + rest
      else rest
  }

  /** The repository names a mirror never replaces; the same for all three
      categories. */
  function ExcludedNames(mirror: Mirror): seq<string>
  {
    Exclusions(MirrorOf(mirror))
  }

  /** What `InetAddress.getByName` and `NetworkInterface.getByInetAddress`
      say about a host: it cannot be resolved, or it resolves to an address
      that may be the wildcard address, a loopback address or one bound to
      a local network interface. */
  datatype HostAddress =
    | UnknownHost
    | Address(anyLocal: bool, loopback: bool, onLocalInterface: bool)

  /** `UnknownHostException`, which escapes `registerMirrors`. */
  datatype MirrorError = UnknownHostError(host: string)

  /** A host name that `InetAddress.getByName` looks up: present and not
      empty. A null or empty name means the loopback address and is never
      looked up. */
  predicate IsNamedHost(host: Option<string>)
  {
    host.Some? && host.value != ""
  }

  /** `InetAddress.getByName(host)` together with the interface check. The
      loopback answer for an unnamed host is never asked about its
      interface, since `isLoopbackAddress` already decides. */
  function Resolve(lookup: string -> HostAddress, host: Option<string>): HostAddress
  {
    if IsNamedHost(host) then lookup(host.value)
    else Address(anyLocal := false, loopback := true, onLocalInterface := false)
  }

  /** The category's own predicate on a repository. Only the external one
      can fail: the host is looked up before anything else is checked, and
      only a repository with a named, remote host and a non-file scheme
      matches it. */
  function CategoryMatches(category: Category, lookup: string -> HostAddress, repo: Repository)
    : (r: Result<bool, MirrorError>)
    ensures r.Err? <==> category == External && Resolve(lookup, repo.url.host).UnknownHost?
    ensures category == Global ==> r == Ok(true)
    ensures category == External && r == Ok(true) ==>
              repo.url.scheme != "file" && IsNamedHost(repo.url.host)
              && !lookup(repo.url.host.value).anyLocal && !lookup(repo.url.host.value).loopback
              && !lookup(repo.url.host.value).onLocalInterface
  {
    match category
    case Global => Ok(true)
    case External =>
      (match Resolve(lookup, repo.url.host)
       case UnknownHost => Err(UnknownHostError(if repo.url.host.Some? then repo.url.host.value else ""))
       case Address(anyLocal, loopback, onLocalInterface) =>
         Ok(repo.url.scheme != "file" && !(anyLocal || loopback || onLocalInterface)))
    case Central => Ok(StartsWith(MavenCentralUrl, repo.url.text))
  }

  /** A repository predicate of `createMirrorRepository`; evaluating it
      may throw, which is the `Err` case. */
  type RepositoryPredicate = Repository -> Result<bool, MirrorError>

  /** The predicate `registerMirrors` passes for each category: `{ true }`
      for the global mirror, the host test for the external one, the Maven
      Central prefix test for the central one. */
  function CategoryPredicate(category: Category, lookup: string -> HostAddress): RepositoryPredicate
  {
    repo => CategoryMatches(category, lookup, repo)
  }

  /** The checks made before the category predicate: a Maven repository,
      not the local one, not already pointing at the mirror. */
  predicate Guarded(mirror: Mirror, repo: Repository)
  {
    repo.IsMaven() && repo.name != MavenLocalName && repo.url != mirror.url
  }

  /** The condition of `createMirrorRepository`, evaluated left to right:
      the predicate runs only on a guarded repository, and the exclusion
      list is consulted only after it. A repository is removed exactly when
      it is guarded, accepted and not excluded; an error can only come from
      the predicate. */
  function Decide(mirror: Mirror, accepts: RepositoryPredicate, repo: Repository): (r: Result<bool, MirrorError>)
    ensures r.Err? ==> Guarded(mirror, repo) && accepts(repo) == Err(r.error)
    ensures Guarded(mirror, repo) && accepts(repo).Err? ==> r == Err(accepts(repo).error)
    ensures r == Ok(true) <==> Guarded(mirror, repo) && accepts(repo) == Ok(true) && repo.name !in ExcludedNames(mirror)
  {
    if !Guarded(mirror, repo) then Ok(false)
    else match accepts(repo)
      case Err(e) => Err(e)
      case Ok(matches) => Ok(matches && repo.name !in ExcludedNames(mirror))
  }

  predicate Removes(mirror: Mirror, accepts: RepositoryPredicate, repo: Repository)
  {
    Decide(mirror, accepts, repo) == Ok(true)
  }

  /** The entries a sweep keeps, in their original order. */
  function Retained(mirror: Mirror, accepts: RepositoryPredicate, repos: seq<Repository>): (kept: seq<Repository>)
    ensures |kept| <= |repos|
  {
    if repos == [] then []
    else (if Removes(mirror, accepts, repos[0]) then [] else [repos[0]]) + Retained(mirror, accepts, repos[1..])
  }

  /** A sweep keeps exactly the entries it does not remove. */
  lemma {:induction false} RetainedMembers(mirror: Mirror, accepts: RepositoryPredicate, repos: seq<Repository>)
    ensures forall r :: r in Retained(mirror, accepts, repos) <==> r in repos && !Removes(mirror, accepts, r)
  {
    if repos != [] {
      RetainedMembers(mirror, accepts, repos[1..]);
      assert forall r :: r in repos <==> r == repos[0] || r in repos[1..];
    }
  }

  lemma {:induction false} RetainedAppend(mirror: Mirror, accepts: RepositoryPredicate, a: seq<Repository>, b: seq<Repository>)
    ensures Retained(mirror, accepts, a + b) == Retained(mirror, accepts, a) + Retained(mirror, accepts, b)
  {
    if a != [] {
      assert (a + b)[0] == a[0] && (a + b)[1..] == a[1..] + b;
      RetainedAppend(mirror, accepts, a[1..], b);
    } else {
      assert a + b == b;
    }
  }

  lemma RetainedStep(mirror: Mirror, accepts: RepositoryPredicate, repos: seq<Repository>, i: nat)
    requires i < |repos|
    ensures Retained(mirror, accepts, repos[..i + 1])
            == Retained(mirror, accepts, repos[..i]) + (if Removes(mirror, accepts, repos[i]) then [] else [repos[i]])
  {
    assert repos[..i + 1] == repos[..i] + [repos[i]];
    RetainedAppend(mirror, accepts, repos[..i], [repos[i]]);
    assert Retained(mirror, accepts, [repos[i]])
           == (if Removes(mirror, accepts, repos[i]) then [] else [repos[i]]) + [];
  }

  /** One step of a sweep over `repos`: with the first `i` entries visited,
      visiting entry `i` removes it exactly when the decision says so. */
  lemma SweepStep(mirror: Mirror, accepts: RepositoryPredicate, repos: seq<Repository>, i: nat, current: seq<Repository>)
    requires i < |repos|
    requires current == Retained(mirror, accepts, repos[..i]) + repos[i..]
    ensures var position := |Retained(mirror, accepts, repos[..i])|;
            position < |current| && current[position] == repos[i]
            && Retained(mirror, accepts, repos[..i + 1]) + repos[i + 1..]
               == if Removes(mirror, accepts, repos[i]) then current[..position] + current[position + 1..]
                  else current
  {
    var kept := Retained(mirror, accepts, repos[..i]);
    RetainedStep(mirror, accepts, repos, i);
    assert repos[i..] == [repos[i]] + repos[i + 1..];
    assert current == kept + [repos[i]] + repos[i + 1..];
    if Removes(mirror, accepts, repos[i]) {
      assert current[..|kept|] == kept;
      assert current[|kept| + 1..] == repos[i + 1..];
    } else {
      assert kept + [repos[i]] + repos[i + 1..] == current;
    }
  }

  /** A sweep that has visited every entry without an error. */
  lemma SweepCompleted(mirror: Mirror, accepts: RepositoryPredicate, repos: seq<Repository>, current: seq<Repository>)
    requires current == Retained(mirror, accepts, repos[..|repos|]) + repos[|repos|..]
    requires |repos| <= FirstFailure(mirror, accepts, repos, 0)
    ensures FirstFailure(mirror, accepts, repos, 0) == |repos|
    ensures current == Retained(mirror, accepts, repos)
  {
    assert repos[..|repos|] == repos;
  }

  /** A sweep stopped by an error at entry `i`. */
  lemma SweepFailed(mirror: Mirror, accepts: RepositoryPredicate, repos: seq<Repository>, i: nat)
    requires i < |repos|
    requires i <= FirstFailure(mirror, accepts, repos, 0)
    requires Decide(mirror, accepts, repos[i]).Err?
    ensures FirstFailure(mirror, accepts, repos, 0) == i
  {
  }

  /** A sweep that visited entry `i` without an error goes on. */
  lemma SweepContinues(mirror: Mirror, accepts: RepositoryPredicate, repos: seq<Repository>, i: nat)
    requires i < |repos| && i <= FirstFailure(mirror, accepts, repos, 0)
    requires Decide(mirror, accepts, repos[i]).Ok?
    ensures i + 1 <= FirstFailure(mirror, accepts, repos, 0)
  {
  }

  /** Whether a sweep has removed something, after one more entry. */
  lemma FoundStep(mirror: Mirror, accepts: RepositoryPredicate, repos: seq<Repository>, i: nat, found: bool)
    requires i < |repos|
    requires found <==> exists j :: 0 <= j < i && Removes(mirror, accepts, repos[j])
    ensures (found || Removes(mirror, accepts, repos[i]))
            <==> exists j :: 0 <= j < i + 1 && Removes(mirror, accepts, repos[j])
  {
  }

  /** A sweep removes something exactly when some entry matches. */
  lemma {:induction false} RetainedShrinks(mirror: Mirror, accepts: RepositoryPredicate, repos: seq<Repository>)
    ensures |Retained(mirror, accepts, repos)| < |repos|
            <==> exists i :: 0 <= i < |repos| && Removes(mirror, accepts, repos[i])
    ensures (forall i :: 0 <= i < |repos| ==> !Removes(mirror, accepts, repos[i]))
            ==> Retained(mirror, accepts, repos) == repos
  {
    if repos != [] {
      RetainedShrinks(mirror, accepts, repos[1..]);
      if !Removes(mirror, accepts, repos[0]) {
        assert forall i :: 1 <= i < |repos| ==> repos[i] == repos[1..][i - 1];
        assert (exists i :: 0 <= i < |repos| && Removes(mirror, accepts, repos[i]))
               ==> exists i :: 0 <= i < |repos[1..]| && Removes(mirror, accepts, repos[1..][i]);
        assert [repos[0]] + repos[1..] == repos;
      }
    }
  }

  /** The index of the first entry (from `from` on) whose decision fails,
      or the length if none does. */
  function FirstFailure(mirror: Mirror, accepts: RepositoryPredicate, repos: seq<Repository>, from: nat): (k: nat)
    requires from <= |repos|
    ensures from <= k <= |repos|
    ensures forall j :: from <= j < k ==> Decide(mirror, accepts, repos[j]).Ok?
    ensures k < |repos| ==> Decide(mirror, accepts, repos[k]).Err?
    decreases |repos| - from
  {
    if from == |repos| || Decide(mirror, accepts, repos[from]).Err? then from
    else FirstFailure(mirror, accepts, repos, from + 1)
  }

  lemma {:induction false} FirstFailureIs(
    mirror: Mirror, accepts: RepositoryPredicate, repos: seq<Repository>, from: nat, k: nat)
    requires from <= k <= |repos|
    requires forall j :: from <= j < k ==> Decide(mirror, accepts, repos[j]).Ok?
    requires k < |repos| ==> Decide(mirror, accepts, repos[k]).Err?
    ensures FirstFailure(mirror, accepts, repos, from) == k
    decreases k - from
  {
    if from < k {
      FirstFailureIs(mirror, accepts, repos, from + 1, k);
    }
  }

  /** The repository added for a mirror: named after the mirror (its id
      when it has no name), at the mirror's URL, with the credentials of
      the first server carrying the mirror's id when those are usable. */
  function MirrorRepository(mirror: Mirror, servers: seq<Server>): (r: Repository)
    ensures r.IsMaven() && r.url == mirror.url
    ensures r.name == (if mirror.name.Some? then mirror.name.value else mirror.id)
    ensures var server := Credentials.GetServer(servers, mirror.id);
            r.credentials == if server.Some? && Credentials.HasUsableCredentials(server.value)
                             then Some(Credentials.CredentialsOf(server.value)) else None
  {
    var name := if mirror.name.Some? then mirror.name.value else mirror.id;
    Credentials.ApplyCredentials(
      Credentials.GetServer(servers, mirror.id),
      Repository(MavenKind, name, mirror.url, None))
  }

  /** The collection after a reconciliation, and the error it stopped with. */
  datatype Reconciliation = Reconciliation(repositories: seq<Repository>, failure: Option<MirrorError>)

  /** `createMirrorRepository`: one sweep removing every matching entry;
      the mirror repository is appended only if something was removed. A
      predicate that throws stops the sweep where it is, with nothing added. */
  function ApplyMirror(mirror: Mirror, accepts: RepositoryPredicate, servers: seq<Server>, repos: seq<Repository>)
    : (rec: Reconciliation)
    ensures |rec.repositories| <= |repos| + 1
    ensures rec.failure.Some? ==> |rec.repositories| <= |repos|
    ensures forall r :: r in rec.repositories ==>
              r in repos || (rec.failure.None? && r == MirrorRepository(mirror, servers))
  {
    var k := FirstFailure(mirror, accepts, repos, 0);
    RetainedMembers(mirror, accepts, repos[..k]);
    RetainedMembers(mirror, accepts, repos);
    assert forall r :: r in repos[..k] || r in repos[k..] ==> r in repos by {
      assert repos == repos[..k] + repos[k..];
    }
    if k < |repos| then
      Reconciliation(Retained(mirror, accepts, repos[..k]) + repos[k..],
                     Some(Decide(mirror, accepts, repos[k]).error))
    else if exists i :: 0 <= i < |repos| && Removes(mirror, accepts, repos[i]) then
      RetainedShrinks(mirror, accepts, repos);
      Reconciliation(Retained(mirror, accepts, repos) + [MirrorRepository(mirror, servers)], None)
    else
      Reconciliation(Retained(mirror, accepts, repos), None)
  }

  /** `registerMirrors`: select at most one mirror and apply it with its
      category's predicate. Only the external mirror can fail, and the only
      repository that can appear is the selected mirror's. */
  function Reconcile(mirrors: seq<Mirror>, servers: seq<Server>, lookup: string -> HostAddress, repos: seq<Repository>)
    : (rec: Reconciliation)
    ensures rec.failure.Some? ==> SelectMirror(mirrors).Some? && SelectMirror(mirrors).value.category == External
    ensures forall r :: r in rec.repositories ==>
              r in repos || (SelectMirror(mirrors).Some? && r == MirrorRepository(SelectMirror(mirrors).value.mirror, servers))
  {
    match SelectMirror(mirrors)
    case None => Reconciliation(repos, None)
    case Some(sel) =>
      var rec := ApplyMirror(sel.mirror, CategoryPredicate(sel.category, lookup), servers, repos);
      assert sel.category != External ==> rec.failure.None? by {
        if sel.category != External {
          OnlyExternalFails(sel, servers, lookup, repos);
        }
      }
      rec
  }

  /** Without a mirror of `*`, `external:*` or `central` nothing changes. */
  lemma NoMirrorNoChange(mirrors: seq<Mirror>, servers: seq<Server>, lookup: string -> HostAddress, repos: seq<Repository>)
    requires NoneDeclares(mirrors, GlobalToken) && NoneDeclares(mirrors, ExternalToken)
    requires NoneDeclares(mirrors, CentralToken)
    ensures Reconcile(mirrors, servers, lookup, repos) == Reconciliation(repos, None)
  {
  }

  /** Exactly one entry, the mirror repository, is added when at least one
      was removed; when nothing matched the collection is unchanged. */
  lemma AddsMirrorIffRemoved(mirror: Mirror, accepts: RepositoryPredicate, servers: seq<Server>, repos: seq<Repository>)
    requires ApplyMirror(mirror, accepts, servers, repos).failure.None?
    ensures var after := ApplyMirror(mirror, accepts, servers, repos).repositories;
            var kept := Retained(mirror, accepts, repos);
            if exists i :: 0 <= i < |repos| && Removes(mirror, accepts, repos[i])
            then |kept| < |repos| && after == kept + [MirrorRepository(mirror, servers)]
            else after == repos
  {
    RetainedShrinks(mirror, accepts, repos);
  }

  /** A repository disappears only if it is a Maven repository, not the
      local one, not at the mirror's URL, accepted by the predicate and not
      excluded; this holds even when the sweep stops on an error. */
  lemma RemovedOnlyIfMatched(
    mirror: Mirror, accepts: RepositoryPredicate, servers: seq<Server>, repos: seq<Repository>, repo: Repository)
    requires repo in repos && repo !in ApplyMirror(mirror, accepts, servers, repos).repositories
    ensures repo.IsMaven() && repo.name != MavenLocalName && repo.url != mirror.url
    ensures accepts(repo) == Ok(true)
    ensures repo.name !in ExcludedNames(mirror)
  {
    var k := FirstFailure(mirror, accepts, repos, 0);
    if k < |repos| {
      assert repos == repos[..k] + repos[k..];
      RetainedMembers(mirror, accepts, repos[..k]);
      assert repo in repos[..k] && repo !in Retained(mirror, accepts, repos[..k]);
    } else {
      RetainedMembers(mirror, accepts, repos);
    }
  }

  /** The added mirror repository points at the mirror's URL, so the sweep
      never removes it: Gradle re-running the action on the new entry is a
      no-op. */
  lemma MirrorRepositoryKept(mirror: Mirror, accepts: RepositoryPredicate, servers: seq<Server>)
    ensures Decide(mirror, accepts, MirrorRepository(mirror, servers)) == Ok(false)
  {
  }

  /** Only the external mirror can fail (on a host lookup). */
  lemma OnlyExternalFails(sel: Selection, servers: seq<Server>, lookup: string -> HostAddress, repos: seq<Repository>)
    requires sel.category != External
    ensures ApplyMirror(sel.mirror, CategoryPredicate(sel.category, lookup), servers, repos).failure.None?
  {
  }

  /** The external mirror never replaces a file repository or one whose
      host is the wildcard address, a loopback address or bound to a local
      interface. */
  lemma ExternalKeepsLocal(mirror: Mirror, lookup: string -> HostAddress, repo: Repository)
    requires var a := Resolve(lookup, repo.url.host);
             repo.url.scheme == "file" || (a.Address? && (a.anyLocal || a.loopback || a.onLocalInterface))
    ensures !Removes(mirror, CategoryPredicate(External, lookup), repo)
  {
  }

  /** A repository whose URL has no host (a `file:` URI) or an empty one
      resolves to the loopback address without a lookup: whatever the name
      service says, the external mirror neither fails on it nor replaces it. */
  lemma HostlessNeverFails(mirror: Mirror, lookup: string -> HostAddress, repo: Repository)
    requires !IsNamedHost(repo.url.host)
    ensures Decide(mirror, CategoryPredicate(External, lookup), repo) == Ok(false)
  {
  }

  /** The external mirror replaces a guarded, non-excluded repository
      exactly when it is not a file repository and its host is named and
      resolves to a remote address; a named host that does not resolve is
      an error. */
  lemma ExternalMatchesRemote(mirror: Mirror, lookup: string -> HostAddress, repo: Repository)
    requires Guarded(mirror, repo) && repo.name !in ExcludedNames(mirror)
    ensures IsNamedHost(repo.url.host) && lookup(repo.url.host.value).UnknownHost?
            ==> Decide(mirror, CategoryPredicate(External, lookup), repo) == Err(UnknownHostError(repo.url.host.value))
    ensures Removes(mirror, CategoryPredicate(External, lookup), repo)
            <==> repo.url.scheme != "file" && IsNamedHost(repo.url.host)
                 && lookup(repo.url.host.value).Address?
                 && !lookup(repo.url.host.value).anyLocal && !lookup(repo.url.host.value).loopback
                 && !lookup(repo.url.host.value).onLocalInterface
  {
  }

  /** The exclusion list is consulted only after the host lookup: a guarded
      repository whose host is unknown makes the external mirror fail even
      when the mirror excludes it by name. */
  lemma ExcludedUnknownHostFails(mirror: Mirror, lookup: string -> HostAddress, repo: Repository)
    requires Guarded(mirror, repo) && repo.name in ExcludedNames(mirror)
    requires IsNamedHost(repo.url.host) && lookup(repo.url.host.value).UnknownHost?
    ensures Decide(mirror, CategoryPredicate(External, lookup), repo) == Err(UnknownHostError(repo.url.host.value))
  {
  }

  /** The central mirror replaces a guarded, non-excluded repository
      exactly when the Maven Central URL starts with the repository's URL. */
  lemma CentralMatchesByPrefix(mirror: Mirror, lookup: string -> HostAddress, repo: Repository)
    requires Guarded(mirror, repo) && repo.name !in ExcludedNames(mirror)
    ensures Removes(mirror, CategoryPredicate(Central, lookup), repo) <==> StartsWith(MavenCentralUrl, repo.url.text)
  {
  }

  /** The global mirror replaces every guarded repository not excluded by
      name. */
  lemma GlobalMatchesAll(mirror: Mirror, lookup: string -> HostAddress, repo: Repository)
    ensures Removes(mirror, CategoryPredicate(Global, lookup), repo)
            <==> Guarded(mirror, repo) && repo.name !in ExcludedNames(mirror)
  {
  }

  /** Reconciling an already reconciled collection changes nothing. */
  lemma ReconcileIdempotent(mirrors: seq<Mirror>, servers: seq<Server>, lookup: string -> HostAddress, repos: seq<Repository>)
    requires Reconcile(mirrors, servers, lookup, repos).failure.None?
    ensures var once := Reconcile(mirrors, servers, lookup, repos).repositories;
            Reconcile(mirrors, servers, lookup, once) == Reconciliation(once, None)
  {
    var sel := SelectMirror(mirrors);
    if sel.Some? {
      var m := sel.value.mirror;
      var p := CategoryPredicate(sel.value.category, lookup);
      var once := ApplyMirror(m, p, servers, repos).repositories;
      var kept := Retained(m, p, repos);
      FirstFailureIs(m, p, repos, 0, |repos|);
      RetainedMembers(m, p, repos);
      assert forall r :: r in kept ==> r in repos && Decide(m, p, r) == Ok(false) by {
        forall r | r in kept ensures r in repos && Decide(m, p, r) == Ok(false) {
          var i :| 0 <= i < |repos| && repos[i] == r;
          assert Decide(m, p, repos[i]).Ok?;
        }
      }
      assert forall r :: r in once ==> Decide(m, p, r) == Ok(false) by {
        MirrorRepositoryKept(m, p, servers);
      }
      assert forall i :: 0 <= i < |once| ==> once[i] in once;
      FirstFailureIs(m, p, once, 0, |once|);
      RetainedShrinks(m, p, once);
    }
  }
}
