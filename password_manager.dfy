/**
 * `PasswordManager` of password_manager.py: the in-memory credential map and master
 * password, the master-hash file that gates them, and the data file that holds the whole
 * map encrypted after every change.
 */
module Store {
  import opened Common
  import opened Text
  import opened Records
  import opened Primitives
  import opened CryptoUtils
  import opened Disk

  /** The data file `PasswordManager()` uses when none is given. */
  const DefaultDataFile: string := "credentials.json.encrypted"
  const MasterHashFile: string := ".master_hash"
  /** The fixed salt of the master-password hash, `b"secure_password_manager_salt_2024"`. */
  const MasterSaltText: string := "secure_password_manager_salt_2024"
  /** The `version` an export file records. */
  const ExportVersion: string := "1.0"
  /** Passwords shorter than this count as weak in the statistics. */
  const StrongLength: nat := 8

  /** The bytes of an ASCII literal such as `b"..."`. */
  function AsciiBytes(s: string): (r: seq<byte>)
    ensures |r| == |s|
  {
    seq(|s|, i requires 0 <= i < |s| => (s[i] as int) % 256)
  }

  /** `_hash_master_password`: hex of PBKDF2-HMAC-SHA256 under the fixed salt, 100000 rounds. */
  function HashMasterPassword(suite: Suite, password: string): (h: string)
    ensures forall i :: 0 <= i < |h| ==> !IsSpace(h[i])
    ensures suite.Lawful() ==> |h| == 2 * KeyLength
  {
    ToHex(suite.pbkdf2(suite.utf8Encode(password), AsciiBytes(MasterSaltText), Iterations, KeyLength))
  }

  /** The contents `initialize_master_password` and `change_master_password` give the hash file. */
  function HashFileContents(suite: Suite, password: string): seq<byte> {
    suite.utf8Encode(HashMasterPassword(suite, password))
  }

  /**
   * `verify_master_password` on a snapshot of the disk: false when the hash file is
   * missing or is not text, otherwise whether its stripped text is the password's hash.
   */
  function HashFileAccepts(suite: Suite, files: map<string, seq<byte>>, hashFile: string, password: string)
    : (accepted: bool)
    ensures accepted ==> hashFile in files && suite.utf8Decode(files[hashFile]).Ok?
    ensures hashFile in files && suite.utf8Decode(files[hashFile]).Ok? ==>
              (accepted <==> Strip(suite.utf8Decode(files[hashFile]).value) == HashMasterPassword(suite, password))
  {
    hashFile in files &&
    match suite.utf8Decode(files[hashFile])
    case Err(_) => false
    case Ok(text) => Strip(text) == HashMasterPassword(suite, password)
  }

  /** A hash file holding what was written for a password accepts that password. */
  lemma HashFileVerifies(suite: Suite, files: map<string, seq<byte>>, hashFile: string, password: string)
    requires suite.Lawful()
    requires hashFile in files && files[hashFile] == HashFileContents(suite, password)
    ensures HashFileAccepts(suite, files, hashFile, password)
  {
    var h := HashMasterPassword(suite, password);
    assert suite.utf8Decode(suite.utf8Encode(h)) == Ok(h);
    StripWithoutSpace(h);
  }

  /** `site.lower().strip()`: the key get, update and delete look up. */
  function Normalize(site: string): string {
    Strip(Lower(site))
  }

  /** `credentials.get(site.lower().strip())`. */
  function Lookup(credentials: map<string, Credential>, site: string): (r: Option<Credential>)
    ensures r.Some? <==> Normalize(site) in credentials
    ensures r.Some? ==> r.value == credentials[Normalize(site)]
  {
    if Normalize(site) in credentials then Some(credentials[Normalize(site)]) else None
  }

  /**
   * `add_credential` stores the service exactly as given while lookups normalise it, so a
   * record added under a key that is not already normal cannot be found by that key.
   */
  lemma AddedKeyFoundOnlyIfNormal(credentials: map<string, Credential>, service: string, record: Credential)
    ensures Normalize(service) == service ==> Lookup(credentials[service := record], service) == Some(record)
    ensures Normalize(service) != service ==> Lookup(credentials[service := record], service) == Lookup(credentials, service)
  {
  }

  /** The example: a record added as "GitHub" is not what `get_credential("GitHub")` returns. */
  lemma MixedCaseServiceUnreachable(record: Credential)
    ensures Lookup(map["GitHub" := record], "GitHub") == None
  {
    var lowered := Lower("GitHub");
    assert lowered == "github" by {
      assert |lowered| == 6;
      forall i | 0 <= i < 6
        ensures lowered[i] == "github"[i]
      {
        assert lowered[i] == LowerChar("GitHub"[i]);
      }
    }
    assert forall i :: 0 <= i < |"github"| ==> !IsSpace("github"[i]);
    StripWithoutSpace("github");
    assert Normalize("GitHub") == "github";
    assert "github"[0] != "GitHub"[0];
  }

  /** What the vault's operations raise, by kind. */
  datatype Error =
    | ServiceExists(service: string)          // add_credential: the exact key is taken
    | CorruptedCredentials                    // _load_credentials: the data file is not a credentials object
    | DecryptionFailed(cause: CryptoError)    // _load_credentials, import_credentials
    | NoMasterPassword                        // encrypting or decrypting while master_password is None
    | UnreadableBackup                        // import_credentials: the backup is not a JSON document
    | NotAnObject                             // import_credentials: `in` or indexing fails on the parsed value

  /** What `_save_credentials` writes: the JSON of the whole map, encrypted under the password. */
  function StoreEnvelope(suite: Suite, credentials: map<string, Credential>, password: string, entropy: Entropy): seq<byte> {
    EncryptData(suite, suite.jsonDumps(Vault(credentials)), password, entropy)
  }

  /**
   * `_load_credentials` on a snapshot of the disk: a missing or empty data file is an
   * empty store; otherwise decrypt and parse.
   */
  function LoadResult(suite: Suite, files: map<string, seq<byte>>, dataFile: string, password: Option<string>)
    : (r: Result<map<string, Credential>, Error>)
    ensures dataFile !in files || files[dataFile] == [] ==> r == Ok(map[])
    ensures dataFile in files && files[dataFile] != [] && password.None? ==> r == Err(NoMasterPassword)
    ensures dataFile in files && files[dataFile] != [] && password.Some? && DecryptData(suite, files[dataFile], password.value).Err? ==>
              r == Err(DecryptionFailed(DecryptData(suite, files[dataFile], password.value).error))
    ensures dataFile in files && files[dataFile] != [] && r.Ok? ==>
              password.Some? && DecryptData(suite, files[dataFile], password.value).Ok? &&
              suite.jsonLoads(DecryptData(suite, files[dataFile], password.value).value) == Some(Vault(r.value))
  {
    if dataFile !in files || files[dataFile] == [] then Ok(map[])
    else if password.None? then Err(NoMasterPassword)
    else
      match DecryptData(suite, files[dataFile], password.value)
      case Err(cause) => Err(DecryptionFailed(cause))
      case Ok(text) =>
        match suite.jsonLoads(text)
        case Some(Vault(entries)) => Ok(entries)
        case _ => Err(CorruptedCredentials)
  }

  /** Whatever `_save_credentials` wrote, `_load_credentials` reads back under the same password. */
  lemma SavedStoreLoads(suite: Suite, files: map<string, seq<byte>>, dataFile: string,
                        credentials: map<string, Credential>, password: string, entropy: Entropy)
    requires suite.Lawful()
    requires dataFile in files && files[dataFile] == StoreEnvelope(suite, credentials, password, entropy)
    ensures LoadResult(suite, files, dataFile, Some(password)) == Ok(credentials)
  {
    DecryptInvertsEncrypt(suite, suite.jsonDumps(Vault(credentials)), password, entropy);
  }

  /** The disk after the hash file is written for `password` and then the map is saved under it. */
  function Rekeyed(suite: Suite, files: map<string, seq<byte>>, hashFile: string, dataFile: string,
                   credentials: map<string, Credential>, password: string, entropy: Entropy): map<string, seq<byte>>
  {
    files[hashFile := HashFileContents(suite, password)][dataFile := StoreEnvelope(suite, credentials, password, entropy)]
  }

  lemma RekeyedHashAccepts(suite: Suite, files: map<string, seq<byte>>, hashFile: string, dataFile: string,
                           credentials: map<string, Credential>, password: string, entropy: Entropy)
    requires suite.Lawful() && dataFile != hashFile
    ensures HashFileAccepts(suite, Rekeyed(suite, files, hashFile, dataFile, credentials, password, entropy),
                            hashFile, password)
  {
    HashFileVerifies(suite, Rekeyed(suite, files, hashFile, dataFile, credentials, password, entropy), hashFile, password);
  }

  lemma RekeyedStoreLoads(suite: Suite, files: map<string, seq<byte>>, hashFile: string, dataFile: string,
                          credentials: map<string, Credential>, password: string, entropy: Entropy)
    requires suite.Lawful()
    ensures LoadResult(suite, Rekeyed(suite, files, hashFile, dataFile, credentials, password, entropy),
                       dataFile, Some(password)) == Ok(credentials)
  {
    SavedStoreLoads(suite, Rekeyed(suite, files, hashFile, dataFile, credentials, password, entropy),
                    dataFile, credentials, password, entropy);
  }

  /** `update_credential`'s change to one record: given fields replace, `updated_at` is set. */
  function Patched(c: Credential, username: Option<string>, password: Option<string>, notes: Option<string>, now: string)
    : (r: Credential)
    ensures r.username == (if username.Some? then username.value else c.username)
    ensures r.password == (if password.Some? then password.value else c.password)
    ensures r.notes == (if notes.Some? then notes.value else c.notes)
    ensures r.timestamp == c.timestamp && r.updatedAt == Some(now)
  {
    c.(username := if username.Some? then username.value else c.username,
       password := if password.Some? then password.value else c.password,
       notes := if notes.Some? then notes.value else c.notes,
       updatedAt := Some(now))
  }

  /** An update that names no field only refreshes `updated_at`. */
  lemma EmptyPatchRefreshesOnly(c: Credential, now: string)
    ensures Patched(c, None, None, None, now) == c.(updatedAt := Some(now))
  {
  }

  /** What `export_credentials` writes: `{exported_at, version: "1.0", credentials}`, encrypted. */
  function ExportEnvelope(suite: Suite, credentials: map<string, Credential>, password: string, now: string, entropy: Entropy)
    : seq<byte>
  {
    EncryptData(suite, suite.jsonDumps(Backup(now, ExportVersion, credentials)), password, entropy)
  }

  /**
   * The reading half of `import_credentials`: `Ok(None)` when the file does not exist,
   * otherwise the records under `credentials`. A value without that key merges nothing; a
   * scalar, or an array or string that holds "credentials", makes `in` or `[...]` raise.
   */
  function ReadBackup(suite: Suite, files: map<string, seq<byte>>, filename: string, password: string)
    : (r: Result<Option<map<string, Credential>>, Error>)
    ensures r == Ok(None) <==> filename !in files
    ensures filename in files && DecryptData(suite, files[filename], password).Err? ==>
              r == Err(DecryptionFailed(DecryptData(suite, files[filename], password).error))
    ensures filename in files && r.Ok? && r.value.Some? && r.value.value != map[] ==>
              var document := suite.jsonLoads(DecryptData(suite, files[filename], password).value);
              document.Some? && document.value.Backup? && document.value.credentials == r.value.value
    ensures filename in files && DecryptData(suite, files[filename], password).Ok? &&
            suite.jsonLoads(DecryptData(suite, files[filename], password).value) == Some(Sequence(false)) ==>
              r == Ok(Some(map[]))
    ensures filename in files && DecryptData(suite, files[filename], password).Ok? &&
            suite.jsonLoads(DecryptData(suite, files[filename], password).value) == None ==>
              r == Err(UnreadableBackup)
    ensures filename in files && DecryptData(suite, files[filename], password).Ok? &&
            suite.jsonLoads(DecryptData(suite, files[filename], password).value) in {Some(Scalar), Some(Sequence(true))} ==>
              r == Err(NotAnObject)
  {
    if filename !in files then Ok(None)
    else
      match DecryptData(suite, files[filename], password)
      case Err(cause) => Err(DecryptionFailed(cause))
      case Ok(text) =>
        match suite.jsonLoads(text)
        case None => Err(UnreadableBackup)
        case Some(Backup(_, _, entries)) => Ok(Some(entries))
        case Some(Vault(_)) => Ok(Some(map[]))
        case Some(Sequence(holdsCredentials)) => if holdsCredentials then Err(NotAnObject) else Ok(Some(map[]))
        case Some(Scalar) => Err(NotAnObject)
  }

  /** Importing an export with the password it was made under yields exactly the exported records. */
  lemma ExportThenImport(suite: Suite, files: map<string, seq<byte>>, filename: string,
                         credentials: map<string, Credential>, password: string, now: string, entropy: Entropy)
    requires suite.Lawful()
    ensures ReadBackup(suite, files[filename := ExportEnvelope(suite, credentials, password, now, entropy)], filename, password)
            == Ok(Some(credentials))
  {
    DecryptInvertsEncrypt(suite, suite.jsonDumps(Backup(now, ExportVersion, credentials)), password, entropy);
  }

  /** The services whose password is shorter than 8 characters. */
  function WeakKeys(credentials: map<string, Credential>): set<string> {
    set k | k in credentials && |credentials[k].password| < StrongLength
  }

  /** The services whose notes are not empty. */
  function NotedKeys(credentials: map<string, Credential>): set<string> {
    set k | k in credentials && credentials[k].notes != ""
  }

  lemma SubsetSize<T>(a: set<T>, b: set<T>)
    requires a <= b
    ensures |a| <= |b|
  {
    assert b == a + (b - a);
  }

  /** The dictionary `get_statistics` returns. */
  datatype Statistics = Statistics(total: nat, withNotes: nat, weak: nat, strong: nat)

  class PasswordManager {
    const suite: Suite
    const disk: FileSystem
    const dataFile: string
    const masterHashFile: string
    var masterPassword: Option<string>
    var credentials: map<string, Credential>

    /** `__init__`: nothing is loaded and no password is known yet. */
    constructor (suite: Suite, disk: FileSystem, dataFile: string := DefaultDataFile)
      ensures this.suite == suite && this.disk == disk && this.dataFile == dataFile
      ensures masterHashFile == MasterHashFile
      ensures masterPassword == None && credentials == map[]
    {
      this.suite := suite;
      this.disk := disk;
      this.dataFile := dataFile;
      masterHashFile := MasterHashFile;
      masterPassword := None;
      credentials := map[];
    }

    /** `is_first_run`: no master-hash file yet. */
    function IsFirstRun(): (r: bool)
      reads disk
      ensures r <==> masterHashFile !in disk.files
    {
      masterHashFile !in disk.files
    }

    /** `verify_master_password`. */
    function VerifyMasterPassword(password: string): (r: bool)
      reads disk
      ensures masterHashFile !in disk.files ==> !r
      ensures r ==> masterHashFile in disk.files && suite.utf8Decode(disk.files[masterHashFile]).Ok?
    {
      HashFileAccepts(suite, disk.files, masterHashFile, password)
    }

    /** What `_save_credentials` returns: `True`, or an exception when there is no password to encrypt under. */
    function SaveOutcome(): Result<bool, Error>
      reads this
    {
      if masterPassword.Some? then Ok(true) else Err(NoMasterPassword)
    }

    /** The disk after `_save_credentials`, relative to the disk `before`. */
    ghost predicate SavedFrom(before: map<string, seq<byte>>, entropy: Entropy)
      reads this, disk
    {
      match masterPassword
      case None => disk.files == before
      case Some(p) => disk.files == before[dataFile := StoreEnvelope(suite, credentials, p, entropy)]
    }

    /** `_save_credentials`: overwrite the data file with the whole map, freshly encrypted. */
    method SaveCredentials(entropy: Entropy) returns (r: Result<bool, Error>)
      modifies disk
      ensures r == SaveOutcome() && SavedFrom(old(disk.files), entropy)
    {
      match masterPassword
      case None =>
        r := Err(NoMasterPassword);
      case Some(p) =>
        disk.Write(dataFile, StoreEnvelope(suite, credentials, p, entropy));
        r := Ok(true);
    }

    /** `_load_credentials`: replace the map by the data file's contents, or raise and keep it. */
    method LoadCredentials() returns (r: Result<bool, Error>)
      modifies this`credentials
      ensures match LoadResult(suite, disk.files, dataFile, masterPassword)
              case Ok(m) => r == Ok(true) && credentials == m
              case Err(e) => r == Err(e) && credentials == old(credentials)
    {
      match LoadResult(suite, disk.files, dataFile, masterPassword)
      case Ok(m) =>
        credentials := m;
        r := Ok(true);
      case Err(e) =>
        r := Err(e);
    }

    /**
     * `initialize_master_password`: write the hash file, forget any records and save the
     * empty map under the new password.
     */
    method InitializeMasterPassword(password: string, entropy: Entropy) returns (r: bool)
      modifies this, disk
      ensures r
      ensures masterPassword == Some(password) && credentials == map[]
      ensures disk.files == old(disk.files)[masterHashFile := HashFileContents(suite, password)]
                                           [dataFile := StoreEnvelope(suite, map[], password, entropy)]
      ensures !IsFirstRun()
      ensures suite.Lawful() && dataFile != masterHashFile ==>
                VerifyMasterPassword(password) && LoadResult(suite, disk.files, dataFile, Some(password)) == Ok(map[])
    {
      disk.Write(masterHashFile, HashFileContents(suite, password));
      masterPassword := Some(password);
      credentials := map[];
      var _ := SaveCredentials(entropy);
      if suite.Lawful() && dataFile != masterHashFile {
        RekeyedHashAccepts(suite, old(disk.files), masterHashFile, dataFile, map[], password, entropy);
        RekeyedStoreLoads(suite, old(disk.files), masterHashFile, dataFile, map[], password, entropy);
      }
      r := true;
    }

    /** `authenticate`: on a verified password, remember it and load the data file. */
    method Authenticate(password: string) returns (r: Result<bool, Error>)
      modifies this
      ensures !VerifyMasterPassword(password) ==>
                r == Ok(false) && masterPassword == old(masterPassword) && credentials == old(credentials)
      ensures VerifyMasterPassword(password) ==>
                masterPassword == Some(password) &&
                match LoadResult(suite, disk.files, dataFile, Some(password))
                case Ok(m) => r == Ok(true) && credentials == m
                case Err(e) => r == Err(e) && credentials == old(credentials)
    {
      if !VerifyMasterPassword(password) {
        return Ok(false);
      }
      masterPassword := Some(password);
      r := LoadCredentials();
    }

    /**
     * `add_credential`: the service is the key exactly as given; a taken key raises and
     * nothing changes, otherwise the new record is inserted and the map saved.
     */
    method AddCredential(service: string, username: string, password: string, notes: string, now: string, entropy: Entropy)
      returns (r: Result<bool, Error>)
      modifies this, disk
      ensures masterPassword == old(masterPassword)
      ensures service in old(credentials) ==>
                r == Err(ServiceExists(service)) && credentials == old(credentials) && disk.files == old(disk.files)
      ensures service !in old(credentials) ==>
                credentials == old(credentials)[service := Credential(username, password, notes, now, None)] &&
                r == SaveOutcome() && SavedFrom(old(disk.files), entropy)
    {
      if service in credentials {
        return Err(ServiceExists(service));
      }
      credentials := credentials[service := Credential(username, password, notes, now, None)];
      r := SaveCredentials(entropy);
    }

    /** `get_credential` (the live definition): a normalised lookup. */
    function GetCredential(site: string): (r: Option<Credential>)
      reads this
      ensures r.Some? <==> Normalize(site) in credentials
      ensures r.Some? ==> r.value == credentials[Normalize(site)]
    {
      Lookup(credentials, site)
    }

    /** `get_all_credentials`: a copy of the whole map, which answers every lookup as `get_credential` does. */
    function GetAllCredentials(): (r: map<string, Credential>)
      reads this
      ensures r == credentials
      ensures forall site :: Lookup(r, site) == GetCredential(site)
    {
      credentials
    }

    /**
     * `update_credential` (the live definition): `False` when the normalised key is absent;
     * otherwise patch that record only and save.
     */
    method UpdateCredential(site: string, username: Option<string>, password: Option<string>, notes: Option<string>,
                            now: string, entropy: Entropy)
      returns (r: Result<bool, Error>)
      modifies this, disk
      ensures masterPassword == old(masterPassword)
      ensures Normalize(site) !in old(credentials) ==>
                r == Ok(false) && credentials == old(credentials) && disk.files == old(disk.files)
      ensures Normalize(site) in old(credentials) ==>
                credentials == old(credentials)[Normalize(site) :=
                                 Patched(old(credentials)[Normalize(site)], username, password, notes, now)] &&
                r == SaveOutcome() && SavedFrom(old(disk.files), entropy)
    {
      var key := Normalize(site);
      if key !in credentials {
        return Ok(false);
      }
      credentials := credentials[key := Patched(credentials[key], username, password, notes, now)];
      r := SaveCredentials(entropy);
    }

    /** `delete_credential`: `False` when the normalised key is absent; otherwise remove it and save. */
    method DeleteCredential(site: string, entropy: Entropy) returns (r: Result<bool, Error>)
      modifies this, disk
      ensures masterPassword == old(masterPassword)
      ensures Normalize(site) !in old(credentials) ==>
                r == Ok(false) && credentials == old(credentials) && disk.files == old(disk.files)
      ensures Normalize(site) in old(credentials) ==>
                credentials == old(credentials) - {Normalize(site)} &&
                r == SaveOutcome() && SavedFrom(old(disk.files), entropy)
    {
      var key := Normalize(site);
      if key !in credentials {
        return Ok(false);
      }
      credentials := credentials - {key};
      r := SaveCredentials(entropy);
    }

    /**
     * `change_master_password`: refuse a current password that does not verify; otherwise
     * rewrite the hash file and re-encrypt the unchanged map under the new password.
     */
    method ChangeMasterPassword(currentPassword: string, newPassword: string, entropy: Entropy)
      returns (r: Result<bool, Error>)
      modifies this, disk
      ensures credentials == old(credentials)
      ensures !old(VerifyMasterPassword(currentPassword)) ==>
                r == Ok(false) && masterPassword == old(masterPassword) && disk.files == old(disk.files)
      ensures old(VerifyMasterPassword(currentPassword)) ==>
                r == Ok(true) && masterPassword == Some(newPassword) &&
                disk.files == old(disk.files)[masterHashFile := HashFileContents(suite, newPassword)]
                                             [dataFile := StoreEnvelope(suite, credentials, newPassword, entropy)]
      ensures old(VerifyMasterPassword(currentPassword)) && suite.Lawful() && dataFile != masterHashFile ==>
                VerifyMasterPassword(newPassword) &&
                LoadResult(suite, disk.files, dataFile, Some(newPassword)) == Ok(credentials)
    {
      if !VerifyMasterPassword(currentPassword) {
        return Ok(false);
      }
      disk.Write(masterHashFile, HashFileContents(suite, newPassword));
      masterPassword := Some(newPassword);
      r := SaveCredentials(entropy);
      if suite.Lawful() && dataFile != masterHashFile {
        RekeyedHashAccepts(suite, old(disk.files), masterHashFile, dataFile, credentials, newPassword, entropy);
        RekeyedStoreLoads(suite, old(disk.files), masterHashFile, dataFile, credentials, newPassword, entropy);
      }
    }

    /**
     * `export_credentials`: `False` for an empty store; otherwise write the wrapped map,
     * encrypted under the master password, to `filename`.
     */
    method ExportCredentials(filename: string, now: string, entropy: Entropy) returns (r: Result<bool, Error>)
      modifies disk
      ensures credentials == map[] ==> r == Ok(false) && disk.files == old(disk.files)
      ensures credentials != map[] && masterPassword.None? ==> r == Err(NoMasterPassword) && disk.files == old(disk.files)
      ensures credentials != map[] && masterPassword.Some? ==>
                r == Ok(true) &&
                disk.files == old(disk.files)[filename := ExportEnvelope(suite, credentials, masterPassword.value, now, entropy)]
    {
      if credentials == map[] {
        return Ok(false);
      }
      match masterPassword
      case None =>
        r := Err(NoMasterPassword);
      case Some(p) =>
        disk.Write(filename, ExportEnvelope(suite, credentials, p, now, entropy));
        r := Ok(true);
    }

    /**
     * `import_credentials`: `False` when the file is missing; raise when it does not decrypt
     * or parse; otherwise copy each imported record over the map, one key at a time, and save.
     */
    method ImportCredentials(filename: string, password: string, entropy: Entropy) returns (r: Result<bool, Error>)
      modifies this, disk
      ensures masterPassword == old(masterPassword)
      ensures match ReadBackup(suite, old(disk.files), filename, password)
              case Ok(None) => r == Ok(false) && credentials == old(credentials) && disk.files == old(disk.files)
              case Err(e) => r == Err(e) && credentials == old(credentials) && disk.files == old(disk.files)
              case Ok(Some(incoming)) =>
                credentials == old(credentials) + incoming && r == SaveOutcome() && SavedFrom(old(disk.files), entropy)
    {
      match ReadBackup(suite, disk.files, filename, password)
      case Ok(None) =>
        r := Ok(false);
      case Err(e) =>
        r := Err(e);
      case Ok(Some(incoming)) =>
        var pending := incoming.Keys;
        while pending != {}
          invariant pending <= incoming.Keys
          invariant masterPassword == old(masterPassword) && disk.files == old(disk.files)
          invariant credentials == old(credentials) + (map k | k in incoming.Keys - pending :: incoming[k])
          decreases pending
        {
          var k :| k in pending;
          ghost var done := incoming.Keys - pending;
          assert (map j | j in done + {k} :: incoming[j]) == (map j | j in done :: incoming[j])[k := incoming[k]];
          credentials := credentials[k := incoming[k]];
          pending := pending - {k};
          assert incoming.Keys - pending == done + {k};
        }
        assert (map k | k in incoming.Keys - {} :: incoming[k]) == incoming;
        r := SaveCredentials(entropy);
    }

    /**
     * `get_statistics`: how many records, how many with notes, and how many passwords are
     * shorter than 8 characters (counted in a loop); the rest are strong.
     */
    method GetStatistics() returns (s: Statistics)
      ensures s.total == |credentials| && s.withNotes == |NotedKeys(credentials)|
      ensures s.weak == |WeakKeys(credentials)| && s.strong == s.total - s.weak
      ensures s.weak + s.strong == s.total && s.weak <= s.total && s.withNotes <= s.total
    {
      var total := |credentials|;
      SubsetSize(NotedKeys(credentials), credentials.Keys);
      var withNotes := |NotedKeys(credentials)|;
      var weak := 0;
      var pending := credentials.Keys;
      while pending != {}
        invariant pending <= credentials.Keys
        invariant weak == |WeakKeys(credentials) - pending|
        decreases pending
      {
        var k :| k in pending;
        if |credentials[k].password| < StrongLength {
          assert WeakKeys(credentials) - (pending - {k}) == (WeakKeys(credentials) - pending) + {k};
          weak := weak + 1;
        } else {
          assert WeakKeys(credentials) - (pending - {k}) == WeakKeys(credentials) - pending;
        }
        pending := pending - {k};
      }
      assert WeakKeys(credentials) - {} == WeakKeys(credentials);
      SubsetSize(WeakKeys(credentials), credentials.Keys);
      s := Statistics(total, withNotes, weak, total - weak);
    }
  }

  /**
   * The first use of a vault: set a master password, then add one record. The whole map
   * is then that record, found again by `get_credential` when the service name is already
   * normal, and a later start verifies the password and loads the same map.
   */
  method FirstUse(suite: Suite, disk: FileSystem, master: string, service: string, username: string,
                  password: string, notes: string, now: string, first: Entropy, second: Entropy)
    returns (vault: PasswordManager, added: Result<bool, Error>)
    modifies disk
    ensures fresh(vault) && vault.disk == disk && vault.dataFile == DefaultDataFile
    ensures added == Ok(true) && vault.masterPassword == Some(master)
    ensures vault.GetAllCredentials() == map[service := Credential(username, password, notes, now, None)]
    ensures Normalize(service) == service ==>
              vault.GetCredential(service) == Some(Credential(username, password, notes, now, None))
    ensures suite.Lawful() ==>
              vault.VerifyMasterPassword(master) &&
              LoadResult(suite, disk.files, DefaultDataFile, Some(master)) == Ok(vault.GetAllCredentials())
  {
    vault := new PasswordManager(suite, disk);
    var _ := vault.InitializeMasterPassword(master, first);
    ghost var initialized := disk.files;
    added := vault.AddCredential(service, username, password, notes, now, second);
    if suite.Lawful() {
      assert HashFileAccepts(suite, initialized, MasterHashFile, master);
      assert disk.files[MasterHashFile] == initialized[MasterHashFile];
      SavedStoreLoads(suite, disk.files, DefaultDataFile, vault.credentials, master, second);
    }
  }
}
