# Maven settings for Gradle: a verified model

This project models the core of the Gradle Maven Settings plugin
(comahe-de/gradle-maven-settings-plugin). The plugin reads the user's
Maven `settings.xml` and applies it to a Gradle build. Four pieces are modelled:

- **Loading and decryption** (`LocalMavenSettingsLoader`). The effective
  settings are built, then every server's password and passphrase is
  decrypted in place with the master password kept in
  `~/.m2/settings-security.xml`.
- **The extension** (`MavenSettingsPluginExtension`). It holds the settings
  file name, the profile ids to force active and the property-export flag.
  Each is initialised from the Gradle project properties.
- **Profile contribution** (`MavenSettingsHandler.activateProfiles`).
  - The activation context passed to the profile selector.
  - The export of the active profiles' properties as extra properties.
  - The addition of their repositories, unless a Maven repository of that
    name already exists.
- **Mirror reconciliation and credential injection**
  (`registerMirrors`, `createMirrorRepository`, `applyRepoCredentials`,
  `applyCredentials`).
  - At most one mirror is chosen: `*` first, then `external:*`, then `central`.
  - Every repository it replaces is removed in one pass over the collection.
  - The mirror's repository is added only if something was removed.
  - Maven repositories then receive the credentials of the servers that
    share their names.

Modules, one per file:

- `Strings` (strings.dfy): Kotlin's `split`, `trim` (with the JVM's notion of
  whitespace), `isNotEmpty` and `startsWith`.
- `Sequences` (sequences.dfy): Kotlin's `map` and `filter` on lists.
- `Model` (model.dfy): repositories, URLs, servers, mirrors, profiles and the
  effective settings. The settings are a class, because decryption rewrites
  their servers in place.
- `PluginExtension` (extension.dfy): the extension's initialisers.
- `SettingsLoader` (loader.dfy): the decryption pass, imperative.
  - Specified by the function `Decrypted`.
- `Credentials` (credentials.dfy): server lookup and credential injection,
  as functions.
- `Mirrors` (mirrors.dfy): mirror selection, the per-repository decision and
  the collection a reconciliation leaves behind, as functions.
- `Profiles` (profiles.dfy): what the active profiles contribute, as functions.
- `Handler` (handler.dfy): `MavenSettingsHandler` and the two Gradle
  objects it changes in place.
  - A `RepositoryHandler` holding a sequence of repositories.
  - An `ExtraProperties` map.
  - Every method is proved to leave them in the state the functions of
    `Profiles`, `Mirrors` and `Credentials` describe.

Several foreign components become parameters:

- The Plexus cipher is a pair of functions.
- The security file is a record: present, directory, the master password
  read from it or why reading failed.
- The settings builder's outcome is a `Result`.
- The profile selector is a function.
- The host lookup (`InetAddress.getByName` with
  `NetworkInterface.getByInetAddress`) is a function to a `HostAddress`.
  `UnknownHost` in that result stands for `UnknownHostException`.

Behaviour of the code that is easy to miss, all modelled as written:

- **Mirror reconciliation can fail.** The external predicate calls
  `InetAddress.getByName`, and nothing catches its `UnknownHostException`,
  so it escapes `registerMirrors`. The sweep stops at that repository, with
  the earlier removals done and no mirror added (`Mirrors.ApplyMirror`,
  `Handler.MavenSettingsHandler.Sweep`). A URL without a host (a `file:`
  URL) resolves to the loopback address and never fails
  (`Mirrors.HostlessNeverFails`).
- **A failed decryption pass leaves changes behind.** Servers are rewritten
  in place one after the other. When one fails, the servers before it
  already hold their decrypted values (`SettingsLoader.DecryptServers`).
- **Settings-building errors are wrapped.** `MavenSettingsHandler` wraps
  them in a `GradleScriptException` with a fixed message
  (`Handler.CreateHandler`).
- **Reconciliation does not keep repository names unique.** A repository
  excluded from the mirror may have the same name as the mirror repository
  added beside it. Gradle's repository container renames a repository added
  under a name already in use; that renaming is not modelled. So the model
  claims unique names only for profile contribution
  (`Profiles.ContributeKeepsNamesUnique`).
- **Exported user properties carry the entry text.** The profile selector
  receives each project property as `key=value` rather than `value` (see
  Findings).

## Model

Source paths are relative to the repository root.

| member | source | states |
|---|---|---|
| Strings.Split | src/main/kotlin/de/comahe/maven/settings/gradle/plugin/MavenSettingsPluginExtension.kt:40 | splitting yields at least one piece and no piece contains the separator |
| Strings.JoinSplit | src/main/kotlin/de/comahe/maven/settings/gradle/plugin/MavenSettingsPluginExtension.kt:40 | splitting loses nothing: the pieces joined with the separator are the original text |
| Strings.SplitJoin | src/main/kotlin/de/comahe/maven/settings/gradle/plugin/MavenSettingsPluginExtension.kt:40 | splitting a separator-joined list of separator-free pieces gives back exactly those pieces |
| Strings.TrimStart | src/main/kotlin/de/comahe/maven/settings/gradle/plugin/MavenSettingsPluginExtension.kt:40 | the result is a suffix of the input, everything dropped is whitespace and the result does not start with whitespace |
| Strings.TrimEnd | src/main/kotlin/de/comahe/maven/settings/gradle/plugin/MavenSettingsPluginExtension.kt:40 | the result is a prefix of the input, everything dropped is whitespace and the result does not end with whitespace |
| Strings.Trim | src/main/kotlin/de/comahe/maven/settings/gradle/plugin/MavenSettingsPluginExtension.kt:40 | the result is no longer than the input and has no whitespace at either end |
| Strings.TrimIsInfix | src/main/kotlin/de/comahe/maven/settings/gradle/plugin/MavenSettingsPluginExtension.kt:40 | the trimmed text is a contiguous slice of the input |
| Strings.TrimTrimmed | src/main/kotlin/de/comahe/maven/settings/gradle/plugin/MavenSettingsPluginExtension.kt:40 | trimming text that is already trimmed changes nothing |
| Strings.TrimKeepsOut | src/main/kotlin/de/comahe/maven/settings/gradle/plugin/MavenSettingsPluginExtension.kt:40 | trimming never introduces a character, in particular no comma |
| PluginExtension.TrimmedNonEmpty | src/main/kotlin/de/comahe/maven/settings/gradle/plugin/MavenSettingsPluginExtension.kt:40 | no kept piece is empty or has whitespace at either end, and there are at most as many as there were pieces |
| PluginExtension.TrimmedNonEmptyAppend | src/main/kotlin/de/comahe/maven/settings/gradle/plugin/MavenSettingsPluginExtension.kt:40 | pieces are handled one by one and in order: the result for a concatenation is the concatenation of the results |
| PluginExtension.TrimmedNonEmptySingle | src/main/kotlin/de/comahe/maven/settings/gradle/plugin/MavenSettingsPluginExtension.kt:40 | a single piece yields its trim, or nothing when the trim is empty |
| PluginExtension.TrimmedNonEmptyMembers | src/main/kotlin/de/comahe/maven/settings/gradle/plugin/MavenSettingsPluginExtension.kt:40 | a string is kept exactly when it is non-empty and the trim of some piece |
| PluginExtension.ParseProfileList | src/main/kotlin/de/comahe/maven/settings/gradle/plugin/MavenSettingsPluginExtension.kt:38-40 | the ids are exactly the non-empty trims of the comma-separated pieces; none is empty, has whitespace at either end or holds a comma |
| PluginExtension.ParsedIdsAreTrimmed | src/main/kotlin/de/comahe/maven/settings/gradle/plugin/MavenSettingsPluginExtension.kt:38-40 | trimming a parsed profile id again leaves it unchanged |
| PluginExtension.ParseJoinedIds | src/main/kotlin/de/comahe/maven/settings/gradle/plugin/MavenSettingsPluginExtension.kt:38-40 | round trip: trimmed, non-empty, comma-free ids joined with commas parse back to the same list, order and duplicates included |
| PluginExtension.TrimmedOfTrimmed | src/main/kotlin/de/comahe/maven/settings/gradle/plugin/MavenSettingsPluginExtension.kt:40 | trimming and filtering a list of trimmed non-empty pieces keeps it as it is |
| PluginExtension.EmptyParsesToNothing | src/main/kotlin/de/comahe/maven/settings/gradle/plugin/MavenSettingsPluginExtension.kt:39-40 | the default empty text parses to no ids |
| PluginExtension.NewExtension | src/main/kotlin/de/comahe/maven/settings/gradle/plugin/MavenSettingsPluginExtension.kt:25-46 | the extension keeps the project properties and exports them by default |
| PluginExtension.NewExtensionDefaults | src/main/kotlin/de/comahe/maven/settings/gradle/plugin/MavenSettingsPluginExtension.kt:30-40 | without the file-name property the settings file is `<user.home>/.m2/settings.xml` and no profile is forced active |
| PluginExtension.NewExtensionReadsFileNameKey | src/main/kotlin/de/comahe/maven/settings/gradle/plugin/MavenSettingsPluginExtension.kt:30-40 | with the property present, its text is the settings file name and, parsed, the forced-active ids |
| PluginExtension.ActiveProfilesReadFileNameKey | src/main/kotlin/de/comahe/maven/settings/gradle/plugin/MavenSettingsPluginExtension.kt:38-40 | as written, a plain settings file name becomes the single forced-active profile id |
| PluginExtension.IntendedExtension | src/main/kotlin/de/comahe/maven/settings/gradle/plugin/MavenSettingsPluginExtension.kt:25-46 | the corrected extension agrees with the original on the file name and the export flag |
| PluginExtension.IntendedActiveProfiles | src/main/kotlin/de/comahe/maven/settings/gradle/plugin/MavenSettingsPluginExtension.kt:38-40 | corrected: a comma-joined list under `mavenSettings.activeProfiles` comes back as exactly that list |
| PluginExtension.IntendedDefaults | src/main/kotlin/de/comahe/maven/settings/gradle/plugin/MavenSettingsPluginExtension.kt:38-40 | corrected: without `mavenSettings.activeProfiles` no profile is forced active |
| SettingsLoader.DecryptField | src/main/kotlin/de/comahe/maven/settings/LocalMavenSettingsLoader.kt:72-85 | a field that is not encrypted is kept; an encrypted one fails with the missing-file cause when there is no master password; with a master password it succeeds exactly when the cipher decrypts it, and then holds the cipher's decryption |
| SettingsLoader.DecryptServer | src/main/kotlin/de/comahe/maven/settings/LocalMavenSettingsLoader.kt:72-86 | only the password and passphrase change, each only if encrypted; without a master password an encrypted one fails the server with the missing-file cause; the password is handled first: if it fails the server is unchanged, if only the passphrase fails the new password is kept; the server succeeds exactly when both fields do, and then holds both decryptions |
| SettingsLoader.DecryptServers | src/main/kotlin/de/comahe/maven/settings/LocalMavenSettingsLoader.kt:71-87 | the server count is kept; the pass succeeds exactly when every server does, and then each server is its own decryption; on failure the failing server is the first that fails, those before it are decrypted and those after it untouched |
| SettingsLoader.Decrypted | src/main/kotlin/de/comahe/maven/settings/LocalMavenSettingsLoader.kt:57-91 | without a security file, a successful pass leaves every server as it was |
| SettingsLoader.MasterPassword | src/main/kotlin/de/comahe/maven/settings/LocalMavenSettingsLoader.kt:59-70 | without a security file (missing, or a directory) the result is `Ok(None)`; with one, unlocking succeeds exactly when the stored master entry was read and the cipher decrypts it under `settings.security`, and the master password is that decryption |
| SettingsLoader.FirstFailing | src/main/kotlin/de/comahe/maven/settings/LocalMavenSettingsLoader.kt:71-87 | every server before the index gets through its turn, and the server at the index (if any) fails |
| SettingsLoader.FirstFailingIs | src/main/kotlin/de/comahe/maven/settings/LocalMavenSettingsLoader.kt:71-87 | the first failing index is fixed by where the failures are |
| SettingsLoader.DecryptedSucceedsIff | src/main/kotlin/de/comahe/maven/settings/LocalMavenSettingsLoader.kt:57-91 | the pass succeeds exactly when the master password unlocks and every server's password and passphrase decrypt |
| SettingsLoader.DecryptableSucceeds | src/main/kotlin/de/comahe/maven/settings/LocalMavenSettingsLoader.kt:57-91 | a readable security file whose master entry unlocks, with every encrypted password and passphrase decryptable under that master password, makes the pass succeed |
| SettingsLoader.PlaintextKept | src/main/kotlin/de/comahe/maven/settings/LocalMavenSettingsLoader.kt:71-87 | a password or passphrase that is not an encrypted string is never changed |
| SettingsLoader.OnlyCredentialsRewritten | src/main/kotlin/de/comahe/maven/settings/LocalMavenSettingsLoader.kt:71-87 | only the password and passphrase of a server can change |
| SettingsLoader.MissingSecurityRejectsCiphertext | src/main/kotlin/de/comahe/maven/settings/LocalMavenSettingsLoader.kt:72-86 | without a usable security file, any encrypted password or passphrase makes the pass fail with the missing-file cause |
| SettingsLoader.EncryptedFieldsDecrypted | src/main/kotlin/de/comahe/maven/settings/LocalMavenSettingsLoader.kt:63-82 | after a successful pass each encrypted field holds its decryption under the master password, itself unlocked with `settings.security` |
| SettingsLoader.DecryptCredentials | src/main/kotlin/de/comahe/maven/settings/LocalMavenSettingsLoader.kt:57-91 | the servers end up as `Decrypted` says, and every failure is reported as the one wrapping decryption error carrying its cause |
| SettingsLoader.DecryptServerAt | src/main/kotlin/de/comahe/maven/settings/LocalMavenSettingsLoader.kt:72-86 | one server's turn rewrites that server only, as `DecryptServer` says; a password failure leaves the servers unchanged, and a passphrase failure leaves the new password in place |
| SettingsLoader.DecryptServersIs | src/main/kotlin/de/comahe/maven/settings/LocalMavenSettingsLoader.kt:71-87 | the servers after the pass are those up to the first failing one rewritten and the rest untouched |
| SettingsLoader.LoadSettings | src/main/kotlin/de/comahe/maven/settings/LocalMavenSettingsLoader.kt:43-55 | build, then decrypt, then return: a build failure or a decryption failure is reported, otherwise the new settings hold the decrypted servers and the built mirrors and profiles |
| Credentials.GetServer | src/main/kotlin/de/comahe/maven/settings/gradle/plugin/MavenSettingsHandler.kt:182 | there is no result exactly when no server has the id; otherwise the result is the first server with it |
| Credentials.ApplyCredentials | src/main/kotlin/de/comahe/maven/settings/gradle/plugin/MavenSettingsHandler.kt:204-215 | the kind, name and URL of the repository never change; the credentials become the server's username and password when a server is given and has both, and stay as they were otherwise |
| Credentials.ApplyMatching | src/main/kotlin/de/comahe/maven/settings/gradle/plugin/MavenSettingsHandler.kt:195-199 | the kind, name and URL never change, and the credentials are either unchanged or those of some same-named server with both username and password |
| Credentials.Inject | src/main/kotlin/de/comahe/maven/settings/gradle/plugin/MavenSettingsHandler.kt:192-202 | the kind, name and URL never change, and a repository that is not a Maven repository is left as it is |
| Credentials.LastUsable | src/main/kotlin/de/comahe/maven/settings/gradle/plugin/MavenSettingsHandler.kt:195-199 | the index is that of a server with the name and usable credentials, and no later server is such a one |
| Credentials.InjectedCredentials | src/main/kotlin/de/comahe/maven/settings/gradle/plugin/MavenSettingsHandler.kt:192-215 | a Maven repository gets the credentials of the last same-named server having both username and password; anything else is untouched |
| Credentials.ApplyMatchingLastUsable | src/main/kotlin/de/comahe/maven/settings/gradle/plugin/MavenSettingsHandler.kt:195-199 | applying every same-named server in order leaves the credentials of the last usable one |
| Credentials.InjectIdempotent | src/main/kotlin/de/comahe/maven/settings/gradle/plugin/MavenSettingsHandler.kt:192-215 | injecting twice into a repository equals injecting once |
| Credentials.InjectAll | src/main/kotlin/de/comahe/maven/settings/gradle/plugin/MavenSettingsHandler.kt:192-202 | the collection keeps its length and each position holds its own repository after injection |
| Credentials.InjectAllIdempotent | src/main/kotlin/de/comahe/maven/settings/gradle/plugin/MavenSettingsHandler.kt:192-202 | injecting twice into a collection equals injecting once |
| Mirrors.FirstDeclaring | src/main/kotlin/de/comahe/maven/settings/gradle/plugin/MavenSettingsHandler.kt:109 | no mirror before the index declares the token, and the mirror at the index (if any) does |
| Mirrors.FindMirror | src/main/kotlin/de/comahe/maven/settings/gradle/plugin/MavenSettingsHandler.kt:119-121 | there is no result exactly when no mirror declares the token; otherwise the result is the first that does |
| Mirrors.SelectMirror | src/main/kotlin/de/comahe/maven/settings/gradle/plugin/MavenSettingsHandler.kt:108-150 | at most one mirror, in strict priority: the first `*` mirror; only if none, the first `external:*` one; only if neither, the first `central` one |
| Mirrors.Exclusions | src/main/kotlin/de/comahe/maven/settings/gradle/plugin/MavenSettingsHandler.kt:166-168 | a name is excluded exactly when `!` followed by that name is one of the tokens |
| Mirrors.CategoryMatches | src/main/kotlin/de/comahe/maven/settings/gradle/plugin/MavenSettingsHandler.kt:127-148 | the global predicate accepts everything; only the external one can fail, exactly when the host lookup finds no address; the external one accepts only a repository that is not a file repository and whose named host resolves to a remote address |
| Mirrors.Decide | src/main/kotlin/de/comahe/maven/settings/gradle/plugin/MavenSettingsHandler.kt:170-179 | an error arises exactly for a guarded repository whose predicate raised it, excluded or not; the repository is removed exactly when it is guarded, accepted and not excluded |
| Mirrors.ExcludedUnknownHostFails | src/main/kotlin/de/comahe/maven/settings/gradle/plugin/MavenSettingsHandler.kt:170-174 | a guarded repository with an unknown host makes the external mirror fail even when the mirror excludes it by name |
| Mirrors.Retained | src/main/kotlin/de/comahe/maven/settings/gradle/plugin/MavenSettingsHandler.kt:170-179 | a sweep never lengthens the collection |
| Mirrors.RetainedMembers | src/main/kotlin/de/comahe/maven/settings/gradle/plugin/MavenSettingsHandler.kt:170-179 | a repository survives the sweep exactly when it was present and the decision does not remove it |
| Mirrors.RetainedAppend | src/main/kotlin/de/comahe/maven/settings/gradle/plugin/MavenSettingsHandler.kt:170-179 | sweeping a concatenation sweeps each part, keeping relative order |
| Mirrors.SweepStep | src/main/kotlin/de/comahe/maven/settings/gradle/plugin/MavenSettingsHandler.kt:170-179 | visiting the next entry of the snapshot removes it at its current position exactly when the decision says so |
| Mirrors.RetainedShrinks | src/main/kotlin/de/comahe/maven/settings/gradle/plugin/MavenSettingsHandler.kt:165-181 | the sweep shortens the collection exactly when some entry matches, and leaves it identical when none does |
| Mirrors.FirstFailure | src/main/kotlin/de/comahe/maven/settings/gradle/plugin/MavenSettingsHandler.kt:170-179 | every entry before the index is decided without an error, and the entry at the index (if any) raises one |
| Mirrors.MirrorRepository | src/main/kotlin/de/comahe/maven/settings/gradle/plugin/MavenSettingsHandler.kt:181-188 | the added repository is a Maven repository at the mirror's URL, named after the mirror's name or else its id, carrying the credentials of the first server with the mirror's id when that server has both username and password, and none otherwise |
| Mirrors.ApplyMirror | src/main/kotlin/de/comahe/maven/settings/gradle/plugin/MavenSettingsHandler.kt:160-189 | at most one repository is added, none after a failure, and every resulting repository was present before or is the mirror repository |
| Mirrors.Reconcile | src/main/kotlin/de/comahe/maven/settings/gradle/plugin/MavenSettingsHandler.kt:108-150 | only the external mirror can make reconciliation fail, and every resulting repository was present before or is the selected mirror's repository |
| Mirrors.NoMirrorNoChange | src/main/kotlin/de/comahe/maven/settings/gradle/plugin/MavenSettingsHandler.kt:108-150 | without a `*`, `external:*` or `central` mirror the collection is unchanged |
| Mirrors.AddsMirrorIffRemoved | src/main/kotlin/de/comahe/maven/settings/gradle/plugin/MavenSettingsHandler.kt:165-188 | exactly one entry, the mirror repository, is added when something was removed; otherwise the collection is unchanged |
| Mirrors.RemovedOnlyIfMatched | src/main/kotlin/de/comahe/maven/settings/gradle/plugin/MavenSettingsHandler.kt:170-179 | a removed repository was a Maven repository, not MavenLocal, not at the mirror URL, accepted by the predicate and not excluded |
| Mirrors.MirrorRepositoryKept | src/main/kotlin/de/comahe/maven/settings/gradle/plugin/MavenSettingsHandler.kt:170-174 | the added mirror repository is never removed by its own mirror |
| Mirrors.OnlyExternalFails | src/main/kotlin/de/comahe/maven/settings/gradle/plugin/MavenSettingsHandler.kt:127-134 | the global and central mirrors never fail; only the external host lookup can |
| Mirrors.ExternalKeepsLocal | src/main/kotlin/de/comahe/maven/settings/gradle/plugin/MavenSettingsHandler.kt:127-134 | the external mirror never replaces a file repository or one whose host (loopback when there is none) is the wildcard, a loopback or a local-interface address |
| Mirrors.ExternalMatchesRemote | src/main/kotlin/de/comahe/maven/settings/gradle/plugin/MavenSettingsHandler.kt:127-134 | for a guarded, non-excluded repository, the external mirror replaces it exactly when it is not a file repository and it has a named host resolving to a remote address; an unknown host is an error |
| Mirrors.HostlessNeverFails | src/main/kotlin/de/comahe/maven/settings/gradle/plugin/MavenSettingsHandler.kt:127-134 | a repository URL without a host resolves to loopback, so the external mirror keeps it and raises no error |
| Mirrors.CentralMatchesByPrefix | src/main/kotlin/de/comahe/maven/settings/gradle/plugin/MavenSettingsHandler.kt:146-148 | for a guarded, non-excluded repository, the central mirror replaces it exactly when the Maven Central URL starts with the repository's URL |
| Mirrors.GlobalMatchesAll | src/main/kotlin/de/comahe/maven/settings/gradle/plugin/MavenSettingsHandler.kt:153-158 | the global mirror replaces exactly the guarded repositories that are not excluded |
| Mirrors.ReconcileIdempotent | src/main/kotlin/de/comahe/maven/settings/gradle/plugin/MavenSettingsHandler.kt:108-189 | reconciling an already reconciled collection changes nothing |
| Profiles.ProfileRepositoryEntry | src/main/kotlin/de/comahe/maven/settings/gradle/plugin/MavenSettingsHandler.kt:98-101 | the added entry is a Maven repository named after the profile repository's id, at its URL, without credentials |
| Profiles.AddIfAbsent | src/main/kotlin/de/comahe/maven/settings/gradle/plugin/MavenSettingsHandler.kt:86-101 | afterwards a Maven repository has the id; the old collection is a prefix of the new one, at most one entry longer, and nothing changes when the name was already taken |
| Profiles.AddIfAbsentDefines | src/main/kotlin/de/comahe/maven/settings/gradle/plugin/MavenSettingsHandler.kt:86-101 | after one step a Maven repository has a name exactly when one had it before or the name is the profile repository's id |
| Profiles.ProfileRepositories | src/main/kotlin/de/comahe/maven/settings/gradle/plugin/MavenSettingsHandler.kt:83-84 | a profile repository is visited exactly when some active profile declares it |
| Profiles.Contribute | src/main/kotlin/de/comahe/maven/settings/gradle/plugin/MavenSettingsHandler.kt:82-104 | the old collection is a prefix of the new one, which grows by at most one entry per visited profile repository |
| Profiles.ContributeAppend | src/main/kotlin/de/comahe/maven/settings/gradle/plugin/MavenSettingsHandler.kt:83-103 | visiting two runs of profile repositories one after the other is visiting their concatenation |
| Profiles.ContributeOnlyAppends | src/main/kotlin/de/comahe/maven/settings/gradle/plugin/MavenSettingsHandler.kt:82-104 | existing entries stay in place and every added entry is built from a visited profile repository |
| Profiles.ContributeDefines | src/main/kotlin/de/comahe/maven/settings/gradle/plugin/MavenSettingsHandler.kt:84-101 | afterwards a Maven repository has a name exactly when one had it before or a visited profile repository has it as id |
| Profiles.ContributeKeepsNamesUnique | src/main/kotlin/de/comahe/maven/settings/gradle/plugin/MavenSettingsHandler.kt:82-104 | a collection with unique Maven names keeps them unique |
| Profiles.FirstProfileRepositoryWins | src/main/kotlin/de/comahe/maven/settings/gradle/plugin/MavenSettingsHandler.kt:84-101 | for a name not yet in use, the first visited profile repository with that id is the one added |
| Profiles.ExistingRepositoryWins | src/main/kotlin/de/comahe/maven/settings/gradle/plugin/MavenSettingsHandler.kt:88-93 | an existing repository is never replaced |
| Profiles.ContributeProperties | src/main/kotlin/de/comahe/maven/settings/gradle/plugin/MavenSettingsHandler.kt:74-80 | every earlier key and every key of an active profile is present afterwards |
| Profiles.LastDefining | src/main/kotlin/de/comahe/maven/settings/gradle/plugin/MavenSettingsHandler.kt:74-80 | the index is a profile defining the key, and no later profile defines it |
| Profiles.PropertyFromLastProfile | src/main/kotlin/de/comahe/maven/settings/gradle/plugin/MavenSettingsHandler.kt:74-80 | a property holds the value of the last active profile defining it; otherwise its earlier value, or stays absent |
| Profiles.ContributedKeys | src/main/kotlin/de/comahe/maven/settings/gradle/plugin/MavenSettingsHandler.kt:74-80 | the exported keys are the earlier keys plus every key of an active profile |
| Handler.RepositoryHandler.Add | src/main/kotlin/de/comahe/maven/settings/gradle/plugin/MavenSettingsHandler.kt:98-101 | `repositories.maven { … }` appends one repository |
| Handler.RepositoryHandler.Remove | src/main/kotlin/de/comahe/maven/settings/gradle/plugin/MavenSettingsHandler.kt:176 | removal drops exactly that entry and keeps the order of the rest |
| Handler.RepositoryHandler.SetCredentials | src/main/kotlin/de/comahe/maven/settings/gradle/plugin/MavenSettingsHandler.kt:211-214 | only that repository's credentials change |
| Handler.ExtraProperties.Set | src/main/kotlin/de/comahe/maven/settings/gradle/plugin/MavenSettingsHandler.kt:77 | one key is set, overwriting its old value |
| Handler.ActivationContextFor | src/main/kotlin/de/comahe/maven/settings/gradle/plugin/MavenSettingsHandler.kt:58-66 | the context carries the project directory and system properties; when exporting is on the user properties have exactly the project properties' keys, otherwise there are none |
| Handler.UserPropertiesAreEntryText | src/main/kotlin/de/comahe/maven/settings/gradle/plugin/MavenSettingsHandler.kt:63-66 | as written, each exported user property differs from its project property: it is the key, `=`, then the value |
| Handler.IntendedActivationContextFor | src/main/kotlin/de/comahe/maven/settings/gradle/plugin/MavenSettingsHandler.kt:58-66 | corrected: the same ids, directory and system properties as the original context, and no user properties when exporting is off |
| Handler.IntendedUserProperties | src/main/kotlin/de/comahe/maven/settings/gradle/plugin/MavenSettingsHandler.kt:63-66 | corrected: when exporting, the user properties are exactly the project properties, values included |
| Handler.ActiveProfileIdsOrdered | src/main/kotlin/de/comahe/maven/settings/gradle/plugin/MavenSettingsHandler.kt:58-59 | the extension's ids come first, the settings' ids after them, nothing dropped or deduplicated |
| Handler.MavenSettingsHandler.ActivateProfiles | src/main/kotlin/de/comahe/maven/settings/gradle/plugin/MavenSettingsHandler.kt:40-105 | the selected profiles' properties and repositories are contributed as `Profiles` specifies, each only when its target object is present |
| Handler.MavenSettingsHandler.ExportProperties | src/main/kotlin/de/comahe/maven/settings/gradle/plugin/MavenSettingsHandler.kt:74-80 | the extra properties end up as `ContributeProperties` says: profile by profile, later overwriting earlier |
| Handler.MavenSettingsHandler.ExportProfileProperties | src/main/kotlin/de/comahe/maven/settings/gradle/plugin/MavenSettingsHandler.kt:76-78 | one profile's properties overwrite the map, whatever order its keys are visited in |
| Handler.MavenSettingsHandler.AddProfileRepositories | src/main/kotlin/de/comahe/maven/settings/gradle/plugin/MavenSettingsHandler.kt:82-104 | the collection ends up as `Contribute` says, each check seeing the repositories added before it |
| Handler.MavenSettingsHandler.AddRepositoriesOf | src/main/kotlin/de/comahe/maven/settings/gradle/plugin/MavenSettingsHandler.kt:84-102 | one profile's repositories are visited in declaration order |
| Handler.MavenSettingsHandler.AddIfNotDefined | src/main/kotlin/de/comahe/maven/settings/gradle/plugin/MavenSettingsHandler.kt:86-101 | the search over the collection adds the entry exactly when no Maven repository has the name |
| Handler.MavenSettingsHandler.RegisterMirrors | src/main/kotlin/de/comahe/maven/settings/gradle/plugin/MavenSettingsHandler.kt:108-150 | the collection and the error are exactly those of `Reconcile`: the selected mirror applied with its category's predicate |
| Handler.MavenSettingsHandler.CreateMirrorRepository | src/main/kotlin/de/comahe/maven/settings/gradle/plugin/MavenSettingsHandler.kt:160-189 | the collection and the error are exactly those of `ApplyMirror` |
| Handler.MavenSettingsHandler.Sweep | src/main/kotlin/de/comahe/maven/settings/gradle/plugin/MavenSettingsHandler.kt:165-179 | the pass removes what `Retained` drops; it stops at the first failing predicate; `mirrorFound` is set exactly when something was removed |
| Handler.MavenSettingsHandler.SweepOne | src/main/kotlin/de/comahe/maven/settings/gradle/plugin/MavenSettingsHandler.kt:170-179 | visiting one snapshot entry advances the collection one step of `Retained`, or leaves it as it was on an error |
| Handler.MavenSettingsHandler.Visit | src/main/kotlin/de/comahe/maven/settings/gradle/plugin/MavenSettingsHandler.kt:170-179 | the action removes the entry exactly when `Decide` says so, and reports the predicate's error |
| Handler.MavenSettingsHandler.ApplyRepoCredentials | src/main/kotlin/de/comahe/maven/settings/gradle/plugin/MavenSettingsHandler.kt:192-202 | a missing collection is ignored; otherwise the collection becomes `InjectAll` of the settings' servers |
| Handler.MavenSettingsHandler.ApplyCredentialsAt | src/main/kotlin/de/comahe/maven/settings/gradle/plugin/MavenSettingsHandler.kt:204-215 | only the repository at that position changes, as `ApplyCredentials` says |
| Handler.CreateHandler | src/main/kotlin/de/comahe/maven/settings/gradle/plugin/MavenSettingsHandler.kt:33-38 | a build failure becomes the "Unable to read local Maven settings." script error; a decryption failure propagates; otherwise the handler holds the decrypted settings |

## Left out

- Parsing and merging the global and user `settings.xml` (Maven's settings
  builder) is foreign code. Its outcome is an input, as is the settings
  file path and the `M2_HOME` global file.
- The profile selector and its JDK, OS, property and file activators are
  foreign code. The selector is a function parameter.
- Plexus cipher internals and `SecUtil.read` are foreign code.
  - They become the two cipher functions and the `SecurityFile` record.
  - `isEncryptedString(null)` is taken as false.
- The DNS and network-interface lookups are I/O, modelled by a lookup
  function. `URI` parsing is replaced by a `Url` record (scheme, optional host, text).
  - A URI that fails to parse (`URISyntaxException`) is not modelled.
  - URI equality is the record's structural equality.
- The system properties, `user.home` and the working directory are
  environment lookups. They are parameters.
- Logging is left out.
- Handler.MavenSettingsHandler.Sweep: Gradle's live `all { }` also runs the
  action on repositories added later. The model is one pass over the entries
  present when the sweep starts.
  - Within the plugin's own flow, the only repository added later by the
    plugin is the mirror repository, and `Mirrors.MirrorRepositoryKept`
    shows the action never removes it.
  - Repositories that a build script or another plugin adds after the
    sweep are not modelled. The live action still removes such a
    repository when it matches. `mirrorFound` has already been read by
    then, so no mirror repository is added in its place.
- Handler.MavenSettingsHandler.ApplyRepoCredentials: the live `all { }` also
  injects into repositories added to the collection after the call. Only the
  entries present at the call are modelled.
- Repository objects are values in a sequence. Aliasing between several
  collections holding the same Gradle repository object is not modelled.
  Neither is Gradle's renaming of same-named repositories.
- The extension's fields are user-writable after construction, and a build
  script may change them before the handler runs. The handler takes the
  extension as a value.
- The plugin entry point (`MavenSettingsPlugin`) only dispatches. On a
  project or on settings it creates the handler, activates profiles,
  registers mirrors, then injects credentials into the build's and the
  publishing repositories. That orchestration is not modelled as an
  operation of its own.

## Findings

| source | as written | input that shows it | evidently intended | confidence | as-written member | corrected member |
|---|---|---|---|---|---|---|
| src/main/kotlin/de/comahe/maven/settings/gradle/plugin/MavenSettingsPluginExtension.kt:38-40 | `activeProfiles` reads the project property `mavenSettings.userSettingsFileName`, the settings file name's key | project property `mavenSettings.userSettingsFileName=custom.xml` forces a profile named `custom.xml` active, and `mavenSettings.activeProfiles=a,b` is ignored | read `mavenSettings.activeProfiles` | high, not executed | PluginExtension.ActiveProfilesReadFileNameKey | PluginExtension.IntendedActiveProfiles |
| src/main/kotlin/de/comahe/maven/settings/gradle/plugin/MavenSettingsHandler.kt:63-66 | `mapValues { value -> value.toString() }` names the map entry `value`, so each user property becomes the entry's text | project property `env` with value `ci` and exporting on: the profile selector sees user property `env` with value `env=ci`, so a profile activated by property `env` with value `ci` is not selected through it | `mapValues { it.value.toString() }`, passing `ci` | medium, not executed | Handler.UserPropertiesAreEntryText | Handler.IntendedUserProperties |
