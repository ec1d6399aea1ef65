/** Loading the effective Maven settings and decrypting the server
    credentials in them (`LocalMavenSettingsLoader`). The settings builder,
    the Plexus cipher and the reading of settings-security.xml are outside
    the model: their results are inputs. */
module SettingsLoader {
  import opened Model

  /** The fixed key the master password itself is encrypted with
      (`DefaultSecDispatcher.SYSTEM_PROPERTY_SEC_LOCATION`). */
  const SecLocation: string := "settings.security"

  /** The Plexus cipher: `isEncryptedString` and `decryptDecorated`, the
      latter failing with a message. */
  datatype Cipher = Cipher(
    isEncrypted: string -> bool,
    decryptDecorated: (string, string) -> Result<string, string>)

  /** `~/.m2/settings-security.xml`: whether the path exists, whether it is
      a directory, and the encrypted master password read from it (or why
      reading failed). */
  datatype SecurityFile = SecurityFile(present: bool, isDirectory: bool, master: Result<string, string>)

  /** What went wrong inside the decryption pass. */
  datatype Cause =
    | MissingSecurityFile
    | SecurityFileUnreadable(message: string)
    | CipherFailure(message: string)

  /** Every failure of the pass is wrapped in one error,
      "Unable to decrypt local Maven settings credentials.". */
  datatype DecryptionError = UnableToDecrypt(cause: Cause)

  /** The two ways `loadSettings` fails. */
  datatype LoadError =
    | SettingsBuildingFailed(message: string)
    | DecryptionFailed(error: DecryptionError)

  /** The security file counts only if it exists and is not a directory. */
  predicate HasSettingsSecurity(file: SecurityFile)
  {
    file.present && !file.isDirectory
  }

  /** The decrypted master password: `None` without a security file. */
  function MasterPassword(cipher: Cipher, file: SecurityFile): (r: Result<Option<string>, Cause>)
    ensures r.Ok? ==> (r.value.Some? <==> HasSettingsSecurity(file))
    ensures !HasSettingsSecurity(file) ==> r == Ok(None)
    ensures HasSettingsSecurity(file) ==>
              (r.Ok? <==> file.master.Ok? && cipher.decryptDecorated(file.master.value, SecLocation).Ok?)
    ensures r.Ok? && r.value.Some? ==> Ok(r.value.value) == cipher.decryptDecorated(file.master.value, SecLocation)
  {
    if !HasSettingsSecurity(file) then Ok(None)
    else match file.master
      case Err(message) => Err(SecurityFileUnreadable(message))
      case Ok(stored) =>
        match cipher.decryptDecorated(stored, SecLocation)
        case Err(message) => Err(CipherFailure(message))
        case Ok(master) => Ok(Some(master))
  }

  /** A missing field is never an encrypted string. */
  predicate IsEncrypted(cipher: Cipher, field: Option<string>)
  {
    field.Some? && cipher.isEncrypted(field.value)
  }

  /** One credential field after the pass, or why it could not be decrypted:
      plaintext passes through, ciphertext needs a master password and is
      replaced by its decryption under it. */
  function DecryptField(cipher: Cipher, master: Option<string>, field: Option<string>): (r: Result<Option<string>, Cause>)
    ensures !IsEncrypted(cipher, field) ==> r == Ok(field)
    ensures IsEncrypted(cipher, field) && master.None? ==> r == Err(MissingSecurityFile)
    ensures IsEncrypted(cipher, field) && r.Ok? ==>
              master.Some? && r.value.Some? && cipher.decryptDecorated(field.value, master.value) == Ok(r.value.value)
    ensures IsEncrypted(cipher, field) && master.Some? ==>
              (r.Ok? <==> cipher.decryptDecorated(field.value, master.value).Ok?)
  {
    if !IsEncrypted(cipher, field) then Ok(field)
    else match master
      case None => Err(MissingSecurityFile)
      case Some(m) =>
        match cipher.decryptDecorated(field.value, m)
        case Err(message) => Err(CipherFailure(message))
        case Ok(plain) => Ok(Some(plain))
  }

  /** A server after its turn in the pass, and the failure that stopped it. */
  datatype ServerStep = ServerStep(server: Server, failure: Option<Cause>)

  /** The password is handled before the passphrase; when the passphrase
      fails, the password has already been rewritten. */
  function DecryptServer(cipher: Cipher, master: Option<string>, server: Server): (r: ServerStep)
    ensures r.server == server.(password := r.server.password, passphrase := r.server.passphrase)
    ensures !IsEncrypted(cipher, server.password) ==> r.server.password == server.password
    ensures !IsEncrypted(cipher, server.passphrase) ==> r.server.passphrase == server.passphrase
    ensures master.None? && (IsEncrypted(cipher, server.password) || IsEncrypted(cipher, server.passphrase))
            ==> r.failure == Some(MissingSecurityFile)
    ensures var pw := DecryptField(cipher, master, server.password);
            pw.Err? ==> r == ServerStep(server, Some(pw.error))
    ensures var pw := DecryptField(cipher, master, server.password);
            var pp := DecryptField(cipher, master, server.passphrase);
            pw.Ok? && pp.Err? ==> r == ServerStep(server.(password := pw.value), Some(pp.error))
    ensures var pw := DecryptField(cipher, master, server.password);
            var pp := DecryptField(cipher, master, server.passphrase);
            r.failure.None? <==> pw.Ok? && pp.Ok?
    ensures var pw := DecryptField(cipher, master, server.password);
            var pp := DecryptField(cipher, master, server.passphrase);
            pw.Ok? && pp.Ok? ==> r.server == server.(password := pw.value, passphrase := pp.value)
  {
    match DecryptField(cipher, master, server.password)
    case Err(cause) => ServerStep(server, Some(cause))
    case Ok(password) =>
      var rewritten := server.(password := password);
      match DecryptField(cipher, master, server.passphrase)
      case Err(cause) => ServerStep(rewritten, Some(cause))
      case Ok(passphrase) => ServerStep(rewritten.(passphrase := passphrase), None)
  }

  /** The index of the first server (from `from` on) whose turn fails, or
      `|servers|` if none does. */
  function FirstFailing(cipher: Cipher, master: Option<string>, servers: seq<Server>, from: nat): (k: nat)
    requires from <= |servers|
    ensures from <= k <= |servers|
    ensures forall j :: from <= j < k ==> DecryptServer(cipher, master, servers[j]).failure.None?
    ensures k < |servers| ==> DecryptServer(cipher, master, servers[k]).failure.Some?
    decreases |servers| - from
  {
    if from == |servers| || DecryptServer(cipher, master, servers[from]).failure.Some? then from
    else FirstFailing(cipher, master, servers, from + 1)
  }

  /** The first failing index is determined by where the failures are. */
  lemma {:induction false} FirstFailingIs(cipher: Cipher, master: Option<string>, servers: seq<Server>, from: nat, k: nat)
    requires from <= k <= |servers|
    requires forall j :: from <= j < k ==> DecryptServer(cipher, master, servers[j]).failure.None?
    requires k < |servers| ==> DecryptServer(cipher, master, servers[k]).failure.Some?
    ensures FirstFailing(cipher, master, servers, from) == k
    decreases k - from
  {
    if from < k {
      FirstFailingIs(cipher, master, servers, from + 1, k);
    }
  }

  /** The server list and the failure left by the pass. */
  datatype Pass = Pass(servers: seq<Server>, failure: Option<Cause>)

  /** Servers are handled in list order; the pass stops at the first
      failure, leaving the servers after it untouched. */
  function DecryptServers(cipher: Cipher, master: Option<string>, servers: seq<Server>): (p: Pass)
    ensures |p.servers| == |servers|
    ensures p.failure.None? <==> forall j :: 0 <= j < |servers| ==> DecryptServer(cipher, master, servers[j]).failure.None?
    ensures p.failure.None? ==> forall j :: 0 <= j < |servers| ==> p.servers[j] == DecryptServer(cipher, master, servers[j]).server
    ensures p.failure.Some? ==>
              exists k :: 0 <= k < |servers| && p.failure == DecryptServer(cipher, master, servers[k]).failure
                          && p.servers[k] == DecryptServer(cipher, master, servers[k]).server
                          && (forall j :: 0 <= j < k ==>
                                (DecryptServer(cipher, master, servers[j]).failure.None?
                                 && p.servers[j] == DecryptServer(cipher, master, servers[j]).server))
                          && forall j :: k < j < |servers| ==> p.servers[j] == servers[j]
  {
    var k := FirstFailing(cipher, master, servers, 0);
    Pass(
      seq(|servers|, j requires 0 <= j < |servers| =>
        if j <= k then DecryptServer(cipher, master, servers[j]).server else servers[j]),
      if k < |servers| then DecryptServer(cipher, master, servers[k]).failure else None)
  }

  /** The servers the pass leaves, given where it stops: those up to and
      including the first failing one are rewritten, the rest untouched. */
  lemma DecryptServersIs(cipher: Cipher, master: Option<string>, servers: seq<Server>, current: seq<Server>)
    requires |current| == |servers|
    requires forall j :: 0 <= j < |servers| ==>
               current[j] == if j <= FirstFailing(cipher, master, servers, 0)
                             then DecryptServer(cipher, master, servers[j]).server else servers[j]
    ensures DecryptServers(cipher, master, servers).servers == current
  {
  }

  /** The whole `decryptCredentials` pass: unlock the master password, then
      decrypt the servers. */
  function Decrypted(cipher: Cipher, file: SecurityFile, servers: seq<Server>): (p: Pass)
    ensures |p.servers| == |servers|
    ensures p.failure.None? && !HasSettingsSecurity(file) ==> p.servers == servers
  {
    match MasterPassword(cipher, file)
    case Err(cause) => Pass(servers, Some(cause))
    case Ok(master) => DecryptServers(cipher, master, servers)
  }

  /** The pass succeeds exactly when the master password can be unlocked and
      every server's password and passphrase can be decrypted. */
  lemma DecryptedSucceedsIff(cipher: Cipher, file: SecurityFile, servers: seq<Server>)
    ensures Decrypted(cipher, file, servers).failure.None?
            <==> MasterPassword(cipher, file).Ok?
                 && forall i :: 0 <= i < |servers| ==>
                      DecryptServer(cipher, MasterPassword(cipher, file).value, servers[i]).failure.None?
  {
    if MasterPassword(cipher, file).Ok? {
      var master := MasterPassword(cipher, file).value;
      var k := FirstFailing(cipher, master, servers, 0);
      if k < |servers| {
        assert DecryptServer(cipher, master, servers[k]).failure.Some?;
      }
    }
  }

  /** A password or passphrase that is not an encrypted string is never
      changed, whatever else happens in the pass. */
  lemma PlaintextKept(cipher: Cipher, file: SecurityFile, servers: seq<Server>, i: nat)
    requires i < |servers|
    ensures !IsEncrypted(cipher, servers[i].password) ==>
              Decrypted(cipher, file, servers).servers[i].password == servers[i].password
    ensures !IsEncrypted(cipher, servers[i].passphrase) ==>
              Decrypted(cipher, file, servers).servers[i].passphrase == servers[i].passphrase
  {
  }

  /** Only the password and passphrase of a server are ever rewritten. */
  lemma OnlyCredentialsRewritten(cipher: Cipher, file: SecurityFile, servers: seq<Server>, i: nat)
    requires i < |servers|
    ensures var s := Decrypted(cipher, file, servers).servers[i];
            s == servers[i].(password := s.password, passphrase := s.passphrase)
  {
  }

  /** Without a usable security file, an encrypted password or passphrase
      anywhere in the list makes the pass fail for that reason: ciphertext
      never passes through. */
  lemma MissingSecurityRejectsCiphertext(cipher: Cipher, file: SecurityFile, servers: seq<Server>, i: nat)
    requires !HasSettingsSecurity(file)
    requires i < |servers|
    requires IsEncrypted(cipher, servers[i].password) || IsEncrypted(cipher, servers[i].passphrase)
    ensures Decrypted(cipher, file, servers).failure == Some(MissingSecurityFile)
  {
    var k := FirstFailing(cipher, None, servers, 0);
    assert DecryptServer(cipher, None, servers[i]).failure.Some?;
    assert k <= i;
    var s := servers[k];
    assert DecryptField(cipher, None, s.password).Err? ==>
             DecryptField(cipher, None, s.password) == Err(MissingSecurityFile);
    assert DecryptField(cipher, None, s.passphrase).Err? ==>
             DecryptField(cipher, None, s.passphrase) == Err(MissingSecurityFile);
  }

  /** With a usable security file whose master password unlocks, a pass
      that succeeds has replaced every encrypted password and passphrase by
      its decryption under that master password. */
  /** When the security file is readable and unlocks, and every encrypted
      password and passphrase decrypts under the unlocked master password,
      the pass succeeds. */
  lemma DecryptableSucceeds(
    cipher: Cipher, file: SecurityFile, servers: seq<Server>, stored: string, master: string)
    requires HasSettingsSecurity(file) && file.master == Ok(stored)
    requires cipher.decryptDecorated(stored, SecLocation) == Ok(master)
    requires forall i :: 0 <= i < |servers| && IsEncrypted(cipher, servers[i].password) ==>
               cipher.decryptDecorated(servers[i].password.value, master).Ok?
    requires forall i :: 0 <= i < |servers| && IsEncrypted(cipher, servers[i].passphrase) ==>
               cipher.decryptDecorated(servers[i].passphrase.value, master).Ok?
    ensures Decrypted(cipher, file, servers).failure.None?
  {
    DecryptedSucceedsIff(cipher, file, servers);
  }

  lemma EncryptedFieldsDecrypted(
    cipher: Cipher, file: SecurityFile, servers: seq<Server>, i: nat, stored: string, master: string)
    requires HasSettingsSecurity(file) && file.master == Ok(stored)
    requires cipher.decryptDecorated(stored, SecLocation) == Ok(master)
    requires i < |servers|
    requires Decrypted(cipher, file, servers).failure.None?
    ensures var s := Decrypted(cipher, file, servers).servers[i];
            (IsEncrypted(cipher, servers[i].password) ==>
               Ok(s.password.value) == cipher.decryptDecorated(servers[i].password.value, master))
            && (IsEncrypted(cipher, servers[i].passphrase) ==>
               Ok(s.passphrase.value) == cipher.decryptDecorated(servers[i].passphrase.value, master))
  {
    assert MasterPassword(cipher, file) == Ok(Some(master));
    var k := FirstFailing(cipher, Some(master), servers, 0);
    assert k == |servers|;
  }

  /** The pass over the settings' servers, rewriting them in place. On a
      failure the servers before the failing one are already rewritten. */
  method DecryptCredentials(settings: Settings, cipher: Cipher, file: SecurityFile)
    returns (error: Option<DecryptionError>)
    modifies settings
    ensures var p := Decrypted(cipher, file, old(settings.servers));
            settings.servers == p.servers
            && error == (if p.failure.Some? then Some(UnableToDecrypt(p.failure.value)) else None)
  {
    var masterPassword: Option<string> := None;
    var hasSettingsSecurity := false;
    if file.present && !file.isDirectory {
      if file.master.Err? {
        return Some(UnableToDecrypt(SecurityFileUnreadable(file.master.error)));
      }
      var unlocked := cipher.decryptDecorated(file.master.value, SecLocation);
      if unlocked.Err? {
        return Some(UnableToDecrypt(CipherFailure(unlocked.error)));
      }
      masterPassword := Some(unlocked.value);
      hasSettingsSecurity := true;
    }
    assert MasterPassword(cipher, file) == Ok(masterPassword);
    ghost var before := settings.servers;
    var i := 0;
    while i < |settings.servers|
      invariant |settings.servers| == |before|
      invariant 0 <= i <= |before|
      invariant hasSettingsSecurity <==> masterPassword.Some?
      invariant forall j :: 0 <= j < i ==>
                  settings.servers[j] == DecryptServer(cipher, masterPassword, before[j]).server
                  && DecryptServer(cipher, masterPassword, before[j]).failure.None?
      invariant forall j :: i <= j < |before| ==> settings.servers[j] == before[j]
    {
      var cause := DecryptServerAt(settings, cipher, masterPassword, hasSettingsSecurity, i);
      if cause.Some? {
        FirstFailingIs(cipher, masterPassword, before, 0, i);
        DecryptServersIs(cipher, masterPassword, before, settings.servers);
        return Some(UnableToDecrypt(cause.value));
      }
      i := i + 1;
    }
    FirstFailingIs(cipher, masterPassword, before, 0, |before|);
    DecryptServersIs(cipher, masterPassword, before, settings.servers);
    error := None;
  }

  /** The turn of server `i`: its password, then its passphrase. A failure
      on the passphrase leaves the password already rewritten. */
  method DecryptServerAt(
    settings: Settings, cipher: Cipher, masterPassword: Option<string>, hasSettingsSecurity: bool, i: nat)
    returns (failure: Option<Cause>)
    requires i < |settings.servers|
    requires hasSettingsSecurity <==> masterPassword.Some?
    modifies settings
    ensures var step := DecryptServer(cipher, masterPassword, old(settings.servers[i]));
            settings.servers == old(settings.servers)[i := step.server] && failure == step.failure
    ensures var pw := DecryptField(cipher, masterPassword, old(settings.servers[i]).password);
            pw.Err? ==> settings.servers == old(settings.servers) && failure == Some(pw.error)
    ensures var pw := DecryptField(cipher, masterPassword, old(settings.servers[i]).password);
            var pp := DecryptField(cipher, masterPassword, old(settings.servers[i]).passphrase);
            pw.Ok? && pp.Err? ==>
              settings.servers == old(settings.servers)[i := old(settings.servers[i]).(password := pw.value)]
              && failure == Some(pp.error)
  {
    var server := settings.servers[i];
    if server.password.Some? && cipher.isEncrypted(server.password.value) {
      if !hasSettingsSecurity {
        return Some(MissingSecurityFile);
      }
      var plain := cipher.decryptDecorated(server.password.value, masterPassword.value);
      if plain.Err? {
        return Some(CipherFailure(plain.error));
      }
      settings.servers := settings.servers[i := server.(password := Some(plain.value))];
    }
    server := settings.servers[i];
    if server.passphrase.Some? && cipher.isEncrypted(server.passphrase.value) {
      if !hasSettingsSecurity {
        return Some(MissingSecurityFile);
      }
      var plain := cipher.decryptDecorated(server.passphrase.value, masterPassword.value);
      if plain.Err? {
        return Some(CipherFailure(plain.error));
      }
      settings.servers := settings.servers[i := server.(passphrase := Some(plain.value))];
    }
    failure := None;
  }

  /** `loadSettings`: build the effective settings from the global and user
      files, decrypt their credentials in place, and return them. */
  method LoadSettings(build: Result<SettingsDocument, string>, cipher: Cipher, file: SecurityFile)
    returns (r: Result<Settings, LoadError>)
    ensures build.Err? ==> r == Err(SettingsBuildingFailed(build.error))
    ensures build.Ok? ==>
              var p := Decrypted(cipher, file, build.value.servers);
              if p.failure.Some? then r == Err(DecryptionFailed(UnableToDecrypt(p.failure.value)))
              else r.Ok? && fresh(r.value) && r.value.servers == p.servers
                   && r.value.mirrors == build.value.mirrors && r.value.profiles == build.value.profiles
                   && r.value.activeProfiles == build.value.activeProfiles
  {
    if build.Err? {
      return Err(SettingsBuildingFailed(build.error));
    }
    var settings := new Settings(build.value);
    var error := DecryptCredentials(settings, cipher, file);
    if error.Some? {
      return Err(DecryptionFailed(error.value));
    }
    r := Ok(settings);
  }
}
