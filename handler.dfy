/** `MavenSettingsHandler` and the two Gradle objects it changes in place:
    the repository collection and the extra-properties extension. Each
    method is proved to leave those objects in the state the specification
    functions of `Profiles`, `Mirrors` and `Credentials` describe. */
module Handler {
  import opened Model
  import opened PluginExtension
  import opened SettingsLoader
  import opened Credentials
  import opened Mirrors
  import opened Profiles

  /** A Gradle `RepositoryHandler`: an ordered collection of repositories. */
  class RepositoryHandler {
    var entries: seq<Repository>

    constructor (initial: seq<Repository>)
      ensures entries == initial
    {
      entries := initial;
    }

    /** `repositories.maven { … }`: appends a repository. */
    method Add(repo: Repository)
      modifies this
      ensures entries == old(entries) + [repo]
    {
      entries := entries + [repo];
    }

    /** `repositories.remove(repo)`, with the repository given by position. */
    method Remove(i: nat)
      requires i < |entries|
      modifies this
      ensures entries == old(entries[..i] + entries[i + 1..])
    {
      entries := entries[..i] + entries[i + 1..];
    }

    /** `repo.credentials { username = …; password = … }`. */
    method SetCredentials(i: nat, credentials: Model.Credentials)
      requires i < |entries|
      modifies this
      ensures entries == old(entries[i := entries[i].(credentials := Some(credentials))])
    {
      entries := entries[i := entries[i].(credentials := Some(credentials))];
    }
  }

  /** Gradle's `ExtraPropertiesExtension`: a string-keyed property map. */
  class ExtraProperties {
    var values: map<string, string>

    constructor (initial: map<string, string>)
      ensures values == initial
    {
      values := initial;
    }

    method Set(key: string, value: string)
      modifies this
      ensures values == old(values)[key := value]
    {
      values := values[key := value];
    }
  }

  /** The inputs handed to the profile selector. System properties are a
      parameter, since they belong to the running JVM. */
  datatype ActivationContext = ActivationContext(
    activeProfileIds: seq<string>,
    projectDirectory: string,
    systemProperties: map<string, string>,
    userProperties: map<string, string>)

  /** `Map.Entry.toString()` on the JVM: the key, `=`, the value. */
  function EntryText(key: string, value: string): string
  {
    key + "=" + value
  }

  /** The activation context `activateProfiles` builds. The user properties
      come from `mapValues { value -> value.toString() }`, whose lambda
      receives the whole map entry: each project property is passed on
      under its own key but with the entry text `key=value` as its value. */
  function ActivationContextFor(
    extension: Extension, settingsActiveProfiles: seq<string>,
    projectDirectory: string, systemProperties: map<string, string>): (c: ActivationContext)
    ensures c.projectDirectory == projectDirectory && c.systemProperties == systemProperties
    ensures extension.exportGradleProps ==> c.userProperties.Keys == extension.projectProperties.Keys
    ensures !extension.exportGradleProps ==> c.userProperties == map[]
  {
    var projectProperties := extension.projectProperties;
    ActivationContext(
      extension.activeProfiles + settingsActiveProfiles,
      projectDirectory,
      systemProperties,
      if extension.exportGradleProps
      then map k | k in projectProperties :: EntryText(k, projectProperties[k])
      else map[])
  }

  /** As written, no exported user property keeps its value: the selector
      sees `key=value` where the project has `value`, so a property
      activation such as `<name>env</name><value>ci</value>`
      is not matched by the project property `env=ci`. The value survives only as the
      text after the key and the `=`. */
  lemma UserPropertiesAreEntryText(
    extension: Extension, settingsActiveProfiles: seq<string>,
    projectDirectory: string, systemProperties: map<string, string>, key: string)
    requires extension.exportGradleProps && key in extension.projectProperties
    ensures var user := ActivationContextFor(extension, settingsActiveProfiles, projectDirectory, systemProperties).userProperties;
            var value := extension.projectProperties[key];
            key in user && user[key] != value
            && |user[key]| == |key| + 1 + |value|
            && user[key][..|key|] == key && user[key][|key|] == '='
            && user[key][|key| + 1..] == value
  {
    var value := extension.projectProperties[key];
    assert |EntryText(key, value)| > |value|;
  }

  /** The context with the project properties passed on unchanged, as
      `mapValues { it.value.toString() }` would. */
  function IntendedActivationContextFor(
    extension: Extension, settingsActiveProfiles: seq<string>,
    projectDirectory: string, systemProperties: map<string, string>): (c: ActivationContext)
    ensures c.projectDirectory == projectDirectory && c.systemProperties == systemProperties
    ensures c.activeProfileIds
            == ActivationContextFor(extension, settingsActiveProfiles, projectDirectory, systemProperties).activeProfileIds
    ensures !extension.exportGradleProps ==> c.userProperties == map[]
  {
    ActivationContext(
      extension.activeProfiles + settingsActiveProfiles,
      projectDirectory,
      systemProperties,
      if extension.exportGradleProps then extension.projectProperties else map[])
  }

  /** With the intended conversion every exported project property reaches
      the selector with its own value, and no other key does. */
  lemma IntendedUserProperties(
    extension: Extension, settingsActiveProfiles: seq<string>,
    projectDirectory: string, systemProperties: map<string, string>)
    requires extension.exportGradleProps
    ensures var user := IntendedActivationContextFor(extension, settingsActiveProfiles, projectDirectory, systemProperties).userProperties;
            user.Keys == extension.projectProperties.Keys
            && forall key :: key in user ==> user[key] == extension.projectProperties[key]
  {
  }

  /** The ids forced active by the extension come first, those listed in
      the settings file after them; nothing is dropped or deduplicated. */
  lemma ActiveProfileIdsOrdered(
    extension: Extension, settingsActiveProfiles: seq<string>,
    projectDirectory: string, systemProperties: map<string, string>)
    ensures var ids := ActivationContextFor(extension, settingsActiveProfiles, projectDirectory, systemProperties).activeProfileIds;
            ids[..|extension.activeProfiles|] == extension.activeProfiles
            && ids[|extension.activeProfiles|..] == settingsActiveProfiles
            && multiset(ids) == multiset(extension.activeProfiles) + multiset(settingsActiveProfiles)
            && forall id :: id in ids <==> id in extension.activeProfiles || id in settingsActiveProfiles
  {
  }

  /** The message of the `GradleScriptException` thrown when the settings
      cannot be built. */
  const UnableToReadSettings: string := "Unable to read local Maven settings."

  /** Why the handler could not be created. */
  datatype HandlerError =
    | GradleScriptError(message: string, cause: string)
    | CredentialsUndecryptable(error: DecryptionError)

  class MavenSettingsHandler {
    const extension: Extension
    const settings: Settings

    constructor (extension: Extension, settings: Settings)
      ensures this.extension == extension && this.settings == settings
    {
      this.extension := extension;
      this.settings := settings;
    }

    /** `activateProfiles`: ask the profile selector which settings profiles
        are active, export their properties (when there is an
        extra-properties extension) and add their repositories (when there
        is a repository collection) unless a Maven repository of that name
        already exists. */
    method ActivateProfiles(
      selector: (seq<Profile>, ActivationContext) -> seq<Profile>,
      projectDirectory: string, systemProperties: map<string, string>,
      extraProperties: ExtraProperties?, repositories: RepositoryHandler?)
      modifies extraProperties, repositories
      ensures var profiles := selector(settings.profiles,
                ActivationContextFor(extension, settings.activeProfiles, projectDirectory, systemProperties));
              (extraProperties != null ==>
                 extraProperties.values == ContributeProperties(old(extraProperties.values), profiles))
              && (repositories != null ==>
                 repositories.entries == Contribute(old(repositories.entries), ProfileRepositories(profiles)))
    {
      var context := ActivationContextFor(extension, settings.activeProfiles, projectDirectory, systemProperties);
      var profiles := selector(settings.profiles, context);
      if extraProperties != null {
        ExportProperties(profiles, extraProperties);
      }
      if repositories != null {
        AddProfileRepositories(profiles, repositories);
      }
    }

    /** The first loop of `activateProfiles`: every property of every active
        profile, in profile order, is set as an extra property. */
    method ExportProperties(profiles: seq<Profile>, extraProperties: ExtraProperties)
      modifies extraProperties
      ensures extraProperties.values == ContributeProperties(old(extraProperties.values), profiles)
    {
      ghost var initial := extraProperties.values;
      var i := 0;
      while i < |profiles|
        invariant 0 <= i <= |profiles|
        invariant extraProperties.values == ContributeProperties(initial, profiles[..i])
      {
        ExportProfileProperties(profiles[i].properties, extraProperties);
        ContributePropertiesSnoc(initial, profiles[..i], profiles[i]);
        assert profiles[..i + 1] == profiles[..i] + [profiles[i]];
        i := i + 1;
      }
      assert profiles[..|profiles|] == profiles;
    }

    /** The inner loop for one profile: each of its properties is set,
        overwriting a value already there. */
    method ExportProfileProperties(properties: map<string, string>, extraProperties: ExtraProperties)
      modifies extraProperties
      ensures extraProperties.values == old(extraProperties.values) + properties
    {
      var pending := properties.Keys;
      ghost var start := extraProperties.values;
      while pending != {}
        invariant pending <= properties.Keys
        invariant extraProperties.values == start + map key | key in properties.Keys - pending :: properties[key]
        decreases pending
      {
        var key :| key in pending;
        extraProperties.Set(key, properties[key]);
        pending := pending - {key};
      }
      assert (map key | key in properties.Keys - {} :: properties[key]) == properties;
    }

    /** The second loop of `activateProfiles`: every repository of every
        active profile is added unless a Maven repository of that name is
        already in the collection, including one added earlier in the loop. */
    method AddProfileRepositories(profiles: seq<Profile>, repositories: RepositoryHandler)
      modifies repositories
      ensures repositories.entries == Contribute(old(repositories.entries), ProfileRepositories(profiles))
    {
      ghost var initial := repositories.entries;
      var i := 0;
      while i < |profiles|
        invariant 0 <= i <= |profiles|
        invariant repositories.entries == Contribute(initial, ProfileRepositories(profiles[..i]))
      {
        ghost var visited := ProfileRepositories(profiles[..i]);
        AddRepositoriesOf(profiles[i].repositories, repositories);
        ContributeAppend(initial, visited, profiles[i].repositories);
        ProfileRepositoriesSnoc(profiles[..i], profiles[i]);
        assert profiles[..i + 1] == profiles[..i] + [profiles[i]];
        i := i + 1;
      }
      assert profiles[..|profiles|] == profiles;
    }

    /** The inner loop for one profile: its repositories in declaration order. */
    method AddRepositoriesOf(prs: seq<ProfileRepository>, repositories: RepositoryHandler)
      modifies repositories
      ensures repositories.entries == Contribute(old(repositories.entries), prs)
    {
      ghost var start := repositories.entries;
      var j := 0;
      while j < |prs|
        invariant 0 <= j <= |prs|
        invariant repositories.entries == Contribute(start, prs[..j])
      {
        AddIfNotDefined(prs[j], repositories);
        ContributeSnoc(start, prs[..j], prs[j]);
        assert prs[..j + 1] == prs[..j] + [prs[j]];
        j := j + 1;
      }
      assert prs[..|prs|] == prs;
    }

    /** The body of the repository loop for one profile repository: look
        for a Maven repository of the same name, add one if there is none. */
    method AddIfNotDefined(pr: ProfileRepository, repositories: RepositoryHandler)
      modifies repositories
      ensures repositories.entries == AddIfAbsent(old(repositories.entries), pr)
    {
      var found := false;
      var n := 0;
      while n < |repositories.entries| && !found
        invariant 0 <= n <= |repositories.entries|
        invariant repositories.entries == old(repositories.entries)
        invariant found <==> exists t :: 0 <= t < n && repositories.entries[t].IsMaven()
                                           && repositories.entries[t].name == pr.id
      {
        var repo := repositories.entries[n];
        if repo.IsMaven() && repo.name == pr.id {
          found := true;
        }
        n := n + 1;
      }
      if !found {
        repositories.Add(ProfileRepositoryEntry(pr));
      }
    }

    /** `registerMirrors`: the first mirror of `*`, else the first of
        `external:*`, else the first of `central`, replaces the repositories
        it matches; an unresolvable host aborts the external sweep. */
    method RegisterMirrors(repositories: RepositoryHandler, lookup: string -> HostAddress)
      returns (failure: Option<MirrorError>)
      modifies repositories
      ensures Reconciliation(repositories.entries, failure)
              == Reconcile(settings.mirrors, settings.servers, lookup, old(repositories.entries))
    {
      var globalMirror := FindMirror(settings.mirrors, GlobalToken);
      if globalMirror.Some? {
        failure := CreateMirrorRepository(repositories, globalMirror.value, CategoryPredicate(Global, lookup));
        return;
      }
      var externalMirror := FindMirror(settings.mirrors, ExternalToken);
      if externalMirror.Some? {
        failure := CreateMirrorRepository(repositories, externalMirror.value, CategoryPredicate(External, lookup));
        return;
      }
      var centralMirror := FindMirror(settings.mirrors, CentralToken);
      if centralMirror.Some? {
        failure := CreateMirrorRepository(repositories, centralMirror.value, CategoryPredicate(Central, lookup));
        return;
      }
      failure := None;
    }

    /** `createMirrorRepository`: one sweep over the collection removing
        every repository the mirror replaces, then the mirror repository is
        added if anything was removed. */
    method CreateMirrorRepository(repositories: RepositoryHandler, mirror: Mirror, accepts: RepositoryPredicate)
      returns (failure: Option<MirrorError>)
      modifies repositories
      ensures Reconciliation(repositories.entries, failure)
              == ApplyMirror(mirror, accepts, settings.servers, old(repositories.entries))
    {
      var mirrorFound;
      mirrorFound, failure := Sweep(repositories, mirror, accepts);
      if failure.Some? {
        return;
      }
      if mirrorFound {
        var server := GetServer(settings.servers, mirror.id);
        var name := if mirror.name.Some? then mirror.name.value else mirror.id;
        var repo := ApplyCredentials(server, Repository(MavenKind, name, mirror.url, None));
        repositories.Add(repo);
      }
    }

    /** The `repositories.all { … }` pass of `createMirrorRepository`, over
        the entries present when it starts. */
    method Sweep(repositories: RepositoryHandler, mirror: Mirror, accepts: RepositoryPredicate)
      returns (mirrorFound: bool, failure: Option<MirrorError>)
      modifies repositories
      ensures var before := old(repositories.entries);
              var k := FirstFailure(mirror, accepts, before, 0);
              if k < |before| then
                failure == Some(Decide(mirror, accepts, before[k]).error)
                && repositories.entries == Retained(mirror, accepts, before[..k]) + before[k..]
              else
                failure.None? && repositories.entries == Retained(mirror, accepts, before)
                && (mirrorFound <==> exists j :: 0 <= j < |before| && Removes(mirror, accepts, before[j]))
    {
      mirrorFound := false;
      var excludedRepositoryNames := ExcludedNames(mirror);
      var snapshot := repositories.entries;
      var i := 0;
      while i < |snapshot|
        invariant 0 <= i <= |snapshot|
        invariant repositories.entries == Retained(mirror, accepts, snapshot[..i]) + snapshot[i..]
        invariant i <= FirstFailure(mirror, accepts, snapshot, 0)
        invariant mirrorFound <==> exists j :: 0 <= j < i && Removes(mirror, accepts, snapshot[j])
      {
        var removed, error := SweepOne(repositories, mirror, excludedRepositoryNames, accepts, snapshot, i);
        if error.Some? {
          SweepFailed(mirror, accepts, snapshot, i);
          return false, error;
        }
        SweepContinues(mirror, accepts, snapshot, i);
        FoundStep(mirror, accepts, snapshot, i, mirrorFound);
        mirrorFound := mirrorFound || removed;
        i := i + 1;
      }
      RetainedShrinks(mirror, accepts, snapshot);
      SweepCompleted(mirror, accepts, snapshot, repositories.entries);
      failure := None;
    }

    /** Visiting entry `i` of the snapshot, with the entries before it
        already visited. */
    method SweepOne(
      repositories: RepositoryHandler, mirror: Mirror, excludedRepositoryNames: seq<string>,
      accepts: RepositoryPredicate, snapshot: seq<Repository>, i: nat)
      returns (removed: bool, error: Option<MirrorError>)
      requires i < |snapshot| && excludedRepositoryNames == ExcludedNames(mirror)
      requires repositories.entries == Retained(mirror, accepts, snapshot[..i]) + snapshot[i..]
      modifies repositories
      ensures var decision := Decide(mirror, accepts, snapshot[i]);
              error == (if decision.Err? then Some(decision.error) else None)
              && (removed <==> decision == Ok(true))
      ensures error.None? ==> repositories.entries == Retained(mirror, accepts, snapshot[..i + 1]) + snapshot[i + 1..]
      ensures error.Some? ==> repositories.entries == old(repositories.entries)
    {
      SweepStep(mirror, accepts, snapshot, i, repositories.entries);
      var position := |repositories.entries| - (|snapshot| - i);
      removed, error := Visit(repositories, mirror, excludedRepositoryNames, accepts, position);
    }

    /** The action `repositories.all` runs on the entry at `position`:
        remove it when it is a Maven repository other than the local one,
        not at the mirror's URL, accepted by the predicate and not excluded.
        A predicate that throws leaves the collection as it is. */
    method Visit(
      repositories: RepositoryHandler, mirror: Mirror, excludedRepositoryNames: seq<string>,
      accepts: RepositoryPredicate, position: nat)
      returns (removed: bool, error: Option<MirrorError>)
      requires position < |repositories.entries|
      requires excludedRepositoryNames == ExcludedNames(mirror)
      modifies repositories
      ensures var repo := old(repositories.entries[position]);
              var decision := Decide(mirror, accepts, repo);
              (error.Some? <==> decision.Err?) && (decision.Err? ==> error == Some(decision.error))
              && (removed <==> decision == Ok(true))
              && repositories.entries
                 == if removed then old(repositories.entries[..position] + repositories.entries[position + 1..])
                    else old(repositories.entries)
    {
      var repo := repositories.entries[position];
      if repo.IsMaven() && repo.name != MavenLocalName && repo.url != mirror.url {
        var matches := accepts(repo);
        if matches.Err? {
          return false, Some(matches.error);
        }
        if matches.value && repo.name !in excludedRepositoryNames {
          repositories.Remove(position);
          return true, None;
        }
      }
      return false, None;
    }

    /** `applyRepoCredentials`: every Maven repository receives, in turn,
        the credentials of each server whose id equals its name. */
    method ApplyRepoCredentials(repositories: RepositoryHandler?)
      modifies repositories
      ensures repositories != null ==>
                repositories.entries == InjectAll(settings.servers, old(repositories.entries))
    {
      if repositories == null {
        return;
      }
      ghost var initial := repositories.entries;
      var servers := settings.servers;
      var i := 0;
      while i < |repositories.entries|
        invariant 0 <= i <= |initial| == |repositories.entries|
        invariant forall t :: 0 <= t < i ==> repositories.entries[t] == Inject(servers, initial[t])
        invariant forall t :: i <= t < |initial| ==> repositories.entries[t] == initial[t]
      {
        if repositories.entries[i].IsMaven() {
          var j := 0;
          while j < |servers|
            invariant 0 <= j <= |servers|
            invariant |repositories.entries| == |initial|
            invariant repositories.entries[i] == ApplyMatching(servers[..j], initial[i])
            invariant forall t :: 0 <= t < i ==> repositories.entries[t] == Inject(servers, initial[t])
            invariant forall t :: i < t < |initial| ==> repositories.entries[t] == initial[t]
          {
            var server := servers[j];
            assert servers[..j + 1][..j] == servers[..j];
            if repositories.entries[i].name == server.id {
              ApplyCredentialsAt(server, repositories, i);
            }
            j := j + 1;
          }
          assert servers[..|servers|] == servers;
        }
        i := i + 1;
      }
    }

    /** `applyCredentials(server, repo)` on the repository at position `i`. */
    method ApplyCredentialsAt(server: Server, repositories: RepositoryHandler, i: nat)
      requires i < |repositories.entries|
      modifies repositories
      ensures repositories.entries
              == old(repositories.entries[i := ApplyCredentials(Some(server), repositories.entries[i])])
    {
      if server.username.None? || server.password.None? {
        return;
      }
      repositories.SetCredentials(i, Model.Credentials(server.username.value, server.password.value));
    }
  }

  /** Creating the handler loads the settings; a settings-building failure
      is rethrown as a `GradleScriptException` with a fixed message, a
      decryption failure propagates unchanged. */
  method CreateHandler(extension: Extension, build: Result<SettingsDocument, string>, cipher: Cipher, file: SecurityFile)
    returns (r: Result<MavenSettingsHandler, HandlerError>)
    ensures build.Err? ==> r == Err(GradleScriptError(UnableToReadSettings, build.error))
    ensures build.Ok? ==>
              var p := Decrypted(cipher, file, build.value.servers);
              if p.failure.Some? then r == Err(CredentialsUndecryptable(UnableToDecrypt(p.failure.value)))
              else r.Ok? && r.value.extension == extension && r.value.settings.servers == p.servers
                   && r.value.settings.mirrors == build.value.mirrors
                   && r.value.settings.profiles == build.value.profiles
                   && r.value.settings.activeProfiles == build.value.activeProfiles
  {
    var loaded := LoadSettings(build, cipher, file);
    match loaded {
      case Err(SettingsBuildingFailed(message)) =>
        r := Err(GradleScriptError(UnableToReadSettings, message));
      case Err(DecryptionFailed(error)) =>
        r := Err(CredentialsUndecryptable(error));
      case Ok(settings) =>
        var handler := new MavenSettingsHandler(extension, settings);
        r := Ok(handler);
    }
  }
}
