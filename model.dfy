/** The entities the plugin reads from Maven's settings model and from
    Gradle's repository container. */
module Model {

  datatype Option<+T> = None | Some(value: T)

  datatype Result<+T, +E> = Ok(value: T) | Err(error: E)

  /** A parsed `java.net.URI`: its scheme, its host and its full text
      (`toString()`). The host is absent for a URI without an authority,
      such as a `file:` URI. Two URLs are equal when all three agree. */
  datatype Url = Url(scheme: string, host: Option<string>, text: string)

  /** The username/password pair of a Gradle `PasswordCredentials`. */
  datatype Credentials = Credentials(username: string, password: string)

  /** Gradle repositories are either Maven repositories
      (`MavenArtifactRepository`) or something else (flat directory, Ivy). */
  datatype RepositoryKind = MavenKind | OtherKind

  /** One entry of a Gradle `RepositoryHandler`. */
  datatype Repository = Repository(
    kind: RepositoryKind,
    name: string,
    url: Url,
    credentials: Option<Credentials>)
  {
    predicate IsMaven() { kind == MavenKind }
  }

  /** A `<server>` of settings.xml; every credential field may be absent. */
  datatype Server = Server(
    id: string,
    username: Option<string>,
    password: Option<string>,
    passphrase: Option<string>,
    privateKey: Option<string>)

  /** A `<mirror>` of settings.xml; `name` is optional. */
  datatype Mirror = Mirror(id: string, name: Option<string>, url: Url, mirrorOf: string)

  /** A `<repository>` declared inside a settings profile. */
  datatype ProfileRepository = ProfileRepository(id: string, url: Url)

  /** A settings profile as the profile selector hands it back. */
  datatype Profile = Profile(
    id: string,
    properties: map<string, string>,
    repositories: seq<ProfileRepository>)

  /** What Maven's settings builder produces from the global and the user
      settings file. */
  datatype SettingsDocument = SettingsDocument(
    servers: seq<Server>,
    mirrors: seq<Mirror>,
    profiles: seq<Profile>,
    activeProfiles: seq<string>)

  /** The effective `Settings` object. Only its servers are ever rewritten
      (by the credential decryption pass); the rest is read-only. */
  class Settings {
    var servers: seq<Server>
    const mirrors: seq<Mirror>
    const profiles: seq<Profile>
    const activeProfiles: seq<string>

    constructor (document: SettingsDocument)
      ensures servers == document.servers && mirrors == document.mirrors
      ensures profiles == document.profiles && activeProfiles == document.activeProfiles
    {
      servers := document.servers;
      mirrors := document.mirrors;
      profiles := document.profiles;
      activeProfiles := document.activeProfiles;
    }
  }
}
