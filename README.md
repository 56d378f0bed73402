# Security-Vault in Dafny

A model of the core of Security-Vault, a local password manager. The models and what each one proves:

- **The vault.** The vault is `PasswordManager` in password_manager.py. It keeps a map from service name to credential in memory. Access is gated by a master password, whose PBKDF2 hash sits in `.master_hash`. After every change, the whole map goes to one data file as JSON encrypted under that password. The model is the class `Store.PasswordManager`. Its fields are the same ones the Python object updates. Each method is proved against specification functions of the disk snapshot: `LoadResult`, `HashFileAccepts`, `StoreEnvelope`, `ReadBackup`, `Patched`.
- **Key disk facts.** Key facts about the disk are lemmas:
  - whatever `_save_credentials` writes, `_load_credentials` reads back;
  - after initialising or changing the master password, the new password verifies and the saved map loads;
  - an export imports back to the same records.
- **Crypto helpers.** The crypto helpers of crypto_utils.py live in `CryptoUtils`:
  - the salt-plus-token envelope, which decryption inverts;
  - the password generator, a real loop plus an in-place Fisher–Yates shuffle on an array, proved to give the right length, every required character class, and only characters of the alphabet;
  - the hex-encoded hash records that always verify;
  - the file validator.
- **Front ends.** The front ends contribute their pure decision logic:
  - `Cli` models main.py: the password-strength rule, the three-attempt login loop (a method proved against a specification function), the keep-if-blank update merge and the backup file name.
  - `GuiMain` models gui_main.py: folding the URL into the notes and reading it back, the search filter, the lenient strength check and the form checks.
  - `GuiModern` models gui_modern.py: the URL-only notes, the edit dialogue's marker deletion, the filter and the first-run checks.

Library code the program calls is not modelled. That covers PBKDF2-HMAC-SHA256, Fernet, UTF-8 and JSON. Each is a function-valued field of `Primitives.Suite`. `Suite.Lawful()` states the only facts the proofs use:
- PBKDF2 returns the requested length;
- Fernet decryption undoes encryption with the same key;
- UTF-8 decoding undoes encoding;
- JSON parsing undoes dumping.

Randomness and the clock become parameters:
- `os.urandom(32)` becomes a `Salt`;
- Fernet's IV and timestamp become a nonce;
- `secrets.choice` and the shuffle become draw functions;
- `datetime.now().isoformat()` becomes a `now` string.

The file system is one shared `Disk.FileSystem` object holding a map from path to bytes. Exceptions are `Result` values whose error says which exception was raised.

The files:
- `common.dfy`: bytes, `Option`, `Result`.
- `text.dfy`: Python's `strip`, `lower`, `in`, `replace`, `split('\n', 1)[0]`, `join`.
- `records.dfy`: stored records and JSON documents.
- `primitives.dfy`: the library functions.
- `crypto_utils.dfy`, `disk.dfy`, `password_manager.dfy`, `cli.dfy`, `gui_main.dfy`, `gui_modern.dfy`.

## Model

| member | source | states |
|---|---|---|
| Store.PasswordManager.constructor | password_manager.py:13-19 | the data file is the given one and the hash file is `.master_hash`; no master password and an empty map |
| Store.PasswordManager.IsFirstRun | password_manager.py:40-42 | first run exactly when the hash file does not exist |
| Store.HashMasterPassword | password_manager.py:34-38 | the master hash is hex text without white space; under lawful PBKDF2 it is 64 characters |
| Store.HashFileAccepts | password_manager.py:63-75 | accepted only when the hash file exists and decodes as UTF-8, and then exactly when its stripped text is the password's hash |
| Store.HashFileVerifies | password_manager.py:63-73 | a hash file holding what was written for a password accepts that password after the read is stripped |
| Store.PasswordManager.VerifyMasterPassword | password_manager.py:63-75 | false when the hash file is absent; true only when the file exists and decodes as text |
| Store.PasswordManager.InitializeMasterPassword | password_manager.py:44-61 | returns True; sets the master password and empties the map; the disk gains the hash file, then the saved empty store; afterwards it is not a first run, the password verifies and the data file loads to the empty map |
| Store.PasswordManager.Authenticate | password_manager.py:77-83 | a password that does not verify returns False and changes nothing; a verified one is remembered and the map becomes what the data file loads to, or stays unchanged with the load's error |
| Store.LoadResult | password_manager.py:85-107 | a missing or empty data file is the empty map; with no password it raises; a decryption failure is passed on with its cause; a loaded map is exactly the object the decrypted JSON parses to |
| Store.PasswordManager.LoadCredentials | password_manager.py:85-107 | the map becomes `LoadResult` of the disk (missing or empty file: empty map); on a decryption, parse or no-password error it is unchanged and the error is returned |
| Store.SavedStoreLoads | password_manager.py:85-127 | a data file holding what `_save_credentials` wrote for a map loads back to exactly that map under the same password |
| Store.PasswordManager.SaveCredentials | password_manager.py:109-127 | with a master password the data file (only) is overwritten with the encrypted map; without one an error is returned and the disk is unchanged |
| Store.PasswordManager.AddCredential | password_manager.py:129-141 | a taken exact key raises with nothing changed; otherwise exactly that key is added with the given fields, the timestamp and no `updated_at`, and the map is saved |
| Store.Lookup | password_manager.py:197-203 | found exactly when the lower-cased, stripped key is in the map, and then that record |
| Store.PasswordManager.GetCredential | password_manager.py:197-203 | the live `get_credential`: a lookup by the normalised key |
| Store.AddedKeyFoundOnlyIfNormal | password_manager.py:129-141 | a record added under an already normal key is found by it; under any other key, a lookup by that key is unaffected by the insertion |
| Store.MixedCaseServiceUnreachable | password_manager.py:131-134 | a record added as "GitHub" is not what `get_credential("GitHub")` returns |
| Store.PasswordManager.GetAllCredentials | password_manager.py:205-210 | the whole map, which answers every site exactly as `get_credential` does |
| Store.FirstUse | password_manager.py:44-141 | after `initialize_master_password` and one `add_credential` on a new vault, the add returns True, `get_all_credentials` is exactly that one record, `get_credential` finds it under an already normal name, and the password verifies and the data file loads that map |
| Store.Patched | password_manager.py:220-230 | each given field replaces the old one, others keep their values, `timestamp` is kept and `updated_at` is set |
| Store.EmptyPatchRefreshesOnly | password_manager.py:222-230 | an update naming no field changes only `updated_at` |
| Store.PasswordManager.UpdateCredential | password_manager.py:212-235 | absent normalised key: False and nothing changes; otherwise only that record is patched and the map saved |
| Store.PasswordManager.DeleteCredential | password_manager.py:237-249 | absent normalised key: False and nothing changes; otherwise exactly that key is removed and the map saved |
| Store.PasswordManager.ChangeMasterPassword | password_manager.py:251-268 | current password not verifying: False, no file written; otherwise the hash file holds the new hash and the unchanged map is re-encrypted under the new password, which then verifies and loads that map |
| Store.RekeyedHashAccepts | password_manager.py:44-73 | after the hash file and then the data file are written, the hash file still accepts the new password |
| Store.RekeyedStoreLoads | password_manager.py:44-57 | after the hash file and then the data file are written, the data file loads back the saved map |
| Store.PasswordManager.ExportCredentials | password_manager.py:270-294 | empty store: False and nothing written; otherwise exactly the file named is written with `{exported_at, version "1.0", credentials}` encrypted under the master password |
| Store.ReadBackup | password_manager.py:298-313 | a missing file reads as nothing to import; a decryption failure is passed on with its cause; any records read are those of an export wrapper's `credentials`; an array or string without "credentials" imports nothing; a scalar, or an array or string holding "credentials", raises |
| Store.ExportThenImport | password_manager.py:270-313 | reading back an export with the password it was made under yields exactly the exported records |
| Store.PasswordManager.ImportCredentials | password_manager.py:296-316 | missing file: False with nothing changed; undecryptable, unparsable, or a value on which the `credentials` test raises: error with nothing changed; otherwise every imported key overwrites, the other keys are kept, and the map is saved |
| Store.PasswordManager.GetStatistics | password_manager.py:318-336 | total is the map size; notes is the count of records with non-empty notes; weak counts passwords under 8 characters; weak + strong == total, and weak and notes are at most total |
| CryptoUtils.Base64UrlEncode | crypto_utils.py:35 | output is 4 bytes per started group of 3 and uses only the URL-safe alphabet and padding |
| CryptoUtils.DeriveKey | crypto_utils.py:20-36 | a function of (password, salt): 32 PBKDF2 bytes under 100000 rounds, base64 encoded to a 44-byte key |
| CryptoUtils.EncryptData | crypto_utils.py:41-61 | the envelope starts with the 32-byte salt, followed by the token |
| CryptoUtils.DecryptData | crypto_utils.py:63-78 | `InvalidToken` exactly when Fernet rejects the token after the first 32 bytes under the key derived from those bytes; a result is the UTF-8 decoding of what Fernet returned |
| CryptoUtils.DecryptInvertsEncrypt | crypto_utils.py:63-78 | cutting at byte 32 undoes the concatenation, so decrypting an encryption with the same password gives the data back |
| CryptoUtils.DecryptFailureMessage | crypto_utils.py:80-83 | the intended message: it starts with "Decryption failed: " exactly for a decoding error, and the reason follows; a rejected token gets "Invalid master password or corrupted data" |
| CryptoUtils.InvalidTokenNotRecognised | crypto_utils.py:80-83 | the code as written reports a rejected token as "Decryption failed: " with an empty reason |
| CryptoUtils.ExceptionText | crypto_utils.py:80-83 | `str(e)` of the caught exception: for `InvalidToken` it does not mention "InvalidToken"; for a UTF-8 error it is the decoder's text |
| CryptoUtils.DecryptFailureMessageAsWritten | crypto_utils.py:80-83 | the code as written: the message meant for a rejected token when the text mentions "InvalidToken", otherwise the message meant for a decoding error with that text |
| CryptoUtils.AsWrittenAgreesOnlyOnDecodingErrors | crypto_utils.py:80-83 | for every failure, the as-written message is the intended one exactly when it is a decoding error whose text does not mention "InvalidToken"; a rejected token is always misreported |
| CryptoUtils.Choice | crypto_utils.py:99-110 | `secrets.choice` picks a character of its pool |
| CryptoUtils.RequiredCharacters | crypto_utils.py:97-105 | a lowercase letter, an uppercase letter, a digit, and a symbol when asked, all in the alphabet |
| CryptoUtils.Shuffle | crypto_utils.py:113 | the shuffle only permutes the characters |
| CryptoUtils.GenerateSecurePassword | crypto_utils.py:85-115 | the length is max(length, 4) with symbols and max(length, 3) without; the password has a lowercase letter, an uppercase letter and a digit, plus a symbol when asked; every character is in the alphabet |
| CryptoUtils.ContainsClasses | crypto_utils.py:108-113 | a permutation of the chosen characters keeps their length, classes and alphabet |
| CryptoUtils.ToHex | crypto_utils.py:135-136 | two hex digits per byte, none of them white space |
| CryptoUtils.FromHex | crypto_utils.py:145 | decoding yields at most one byte per two characters, and input starting with a character that is neither white space nor a hex digit raises |
| CryptoUtils.FromHexToHex | crypto_utils.py:145 | `bytes.fromhex(b.hex()) == b` |
| CryptoUtils.HashWithSalt | crypto_utils.py:127-137 | the salt is recorded as its hex, and the hash is 64 hex characters under lawful PBKDF2 |
| CryptoUtils.HashPassword | crypto_utils.py:120-140 | the given salt, or the freshly drawn one when none is given, is the one recorded |
| CryptoUtils.VerifyPasswordHash | crypto_utils.py:142-150 | raises exactly when the stored salt is not hex; true only when the stored hash is the recomputed one, which under lawful PBKDF2 is 64 characters long |
| CryptoUtils.HashThenVerify | crypto_utils.py:120-150 | a hash record verifies for the password it was made from |
| CryptoUtils.ValidateEncryptedFile | crypto_utils.py:173-190 | missing file: "File does not exist"; under 32 bytes: "File is too small to contain valid encrypted data", without decrypting; otherwise valid exactly when it decrypts, "File is valid and decryptable", else "Validation failed: " and the text `decrypt_data` raises as written, so a token Fernet rejects gives "Validation failed: Decryption failed: " |
| CryptoUtils.RejectedTokenMessage | crypto_utils.py:80-83 | the validation text for a rejected token is "Validation failed: Decryption failed: " |
| CryptoUtils.EncryptedFileValidates | crypto_utils.py:173-187 | a file written by `encrypt_data` validates under the same password |
| Disk.FileSystem.Write | password_manager.py:119-120 | writing a file replaces exactly that path's contents |
| Cli.Missing | main.py:57-65 | every class the password lacks appears, each once, in the order uppercase, lowercase, number, special |
| Cli.ValidatePasswordStrength | main.py:47-70 | under 8 characters: false with the length message whatever the content; true exactly when it is long enough and has all four classes ("Strong password"); otherwise "Password must contain: " and the missing classes joined by ", " |
| Cli.MissingEmpty | main.py:57-68 | nothing is missing exactly when all four classes are present |
| Cli.OnlyDigitMissing | main.py:57-68 | a long password lacking only a digit is told "Password must contain: number" |
| Cli.LoginFrom | main.py:366-389 | the loop as written: an authenticated password is non-blank, accepted by the hash file and its data file loads; an error comes from the load of such a password; a denial follows a wrong third entry |
| Cli.LoginFromIntended | main.py:366-389 | the loop as intended: the same guarantees for authentication and errors; a denial means every remaining entry was blank or wrong |
| Cli.FallsThroughIffLastBlank | main.py:366-389 | the loop ends with no password and no exit exactly when the first two entries are blank or wrong and the third is blank |
| Cli.BlankEntriesReachMenu | main.py:366-375 | three blank entries leave the loop without authenticating or exiting |
| Cli.DeniedIffThirdWrong | main.py:376-385 | access is denied exactly when the first two entries are blank or wrong and the third is a wrong password |
| Cli.AuthenticatedByVerifiedEntry | main.py:369-379 | a login succeeds only with one of the first three entries, one the hash file accepts and whose data file loads |
| Cli.OnlyThreeEntriesRead | main.py:366-369 | only the first three entries affect the outcome |
| Cli.IntendedNeverFallsThrough | main.py:366-389 | the intended loop always authenticates, errs or denies, and agrees with the loop as written whenever that does not fall through |
| Cli.LoginLoop | main.py:366-389 | the loop's outcome is the specification's; an authenticated password is remembered with its map loaded; a denied or fallen-through loop changes nothing; whenever it does not fall through it agrees with the intended loop |
| Cli.KeepIfBlank | main.py:202-221 | the result is the answer or the current value; a non-blank answer wins; the result is blank only when both are |
| Cli.UpdateAnswers | main.py:202-221 | username and notes are stripped, the password is not; each blank answer keeps the existing value; a new weak password without a "y" (either case) cancels |
| Cli.BlankAnswersKeepRecord | main.py:202-224 | blank answers leave the record as it was, apart from `updated_at` |
| Cli.BackupFilename | main.py:312-316 | always ends in ".encrypted"; a blank answer gives `password_backup_<timestamp>`, otherwise the stripped answer |
| GuiMain.ExtractUrl | gui_main.py:676-681 | notes that do not start with "URL: " give no URL; the URL never holds a newline |
| GuiMain.CombineNotes | gui_main.py:803-806 | without a URL the notes unchanged; with one, "URL: " and the URL, then a newline and the notes when there are notes; `CombineThenExtract` is its inverse |
| GuiMain.CombineThenExtract | gui_main.py:803-806 | a non-empty URL without a newline reads back unchanged from the notes it was folded into, whatever the notes |
| GuiMain.NoUrlKeepsNotes | gui_main.py:803-806 | without a URL the notes are stored unchanged |
| GuiMain.Refresh | gui_main.py:663-685 | one row per record: service, username and the URL read from the notes |
| GuiMain.Search | gui_main.py:687-713 | a row is kept exactly when the lower-cased term occurs in the lower-cased service, username or URL |
| GuiMain.EmptySearchShowsAll | gui_main.py:687-713 | an empty term shows every row |
| GuiMain.Assess | gui_main.py:355-375 | an error below 8 characters, a warning when a class is missing, nothing when the command-line rule calls it strong |
| GuiMain.ValidatePasswordStrength | gui_main.py:355-375 | accepted exactly when at least 8 characters long; a long password the command-line rule rejects is accepted with a warning |
| GuiMain.WindowMoreLenient | gui_main.py:355-375 | every password the command-line rule accepts is accepted here, and "aaaaaaaa" is accepted here but not there |
| GuiMain.AddForm | gui_main.py:787-808 | rejected unless the stripped service, stripped username and password are all non-empty; the record's notes give back the stripped URL, or are the stripped notes when there is no URL |
| GuiMain.SaveChanges | gui_main.py:870-890 | rejected unless the stripped username and password are non-empty; the notes give back the stripped URL, or are the stripped notes when there is no URL |
| GuiModern.PackNotes | gui_modern.py:1040 | no URL gives empty notes; otherwise "URL: " followed by the URL, and nothing of the old notes |
| GuiModern.EditUrl | gui_modern.py:1157-1158 | notes that do not start with "URL: " give no URL |
| GuiModern.PackThenEdit | gui_modern.py:1157-1158 | a URL not containing "URL: " reads back unchanged |
| GuiModern.MarkerInUrlLost | gui_modern.py:1157-1158 | the URL "URL: x" reads back as "x", since every marker is deleted |
| GuiModern.Filter | gui_modern.py:1224-1241 | an empty query shows every record; otherwise a record is shown exactly when the lower-cased query occurs in the lower-cased key or username |
| GuiModern.FilterWithinSearch | gui_modern.py:1238-1241 | every record this filter shows, the other window's search shows too |
| GuiModern.CreateMasterPassword | gui_modern.py:599-618 | empty, then a differing confirmation, then under 8 characters is refused in that order; only the rest initialises, with a password the length check accepts |
| GuiModern.RequiredFields | gui_modern.py:1035 | `all([service, username, password])` on the unstripped fields; any fields whose stripped forms are non-empty pass |
| GuiModern.RequiredFieldsLooser | gui_modern.py:1033-1036 | a form that passes the other window's add check passes this one; a service of one space passes here but not there |

## Left out

- File permissions (`_ensure_secure_permissions` and the `os.chmod` calls) are not modelled: they change no data the program reads.
- `secure_delete_string` and `get_encryption_info` are not modelled. The first has no observable effect and the second returns constants.
- The dead earlier copies of `get_credential` and `update_credential` at password_manager.py:143-195 are shadowed by the later definitions and are not modelled.
- PBKDF2, SHA-256, Fernet (AES and HMAC), base64 padding details, UTF-8 and JSON are library code. Only the laws in `Suite.Lawful` are assumed of them, so with an unlawful suite the proofs say nothing.
- Fernet's rejection of a key that is not 32 url-safe bytes and the `Key derivation failed` exception are not modelled.
- `Store.LoadResult`: a data file whose JSON is an export wrapper, an array, a string, a number or `null` is reported as corrupt. The source would install that value as the map and return True.
- `Store.ReadBackup`: a plain store map that holds a service named "credentials" imports nothing in the model. The source merges that record's fields (`username`, `password`, ...) into the map as if they were services; the model's map of credentials cannot hold those string values.
- Records go through JSON with a fixed shape (`username`, `password`, `notes`, `timestamp`, optional `updated_at`). Records with missing or extra keys, which `.get(..., '')` in the source tolerates, are not modelled.
- Exceptions are modelled by their kind. The wording built from `str(e)` is modelled only for `decrypt_data`'s message, as written in `CryptoUtils.ExceptionText` and `DecryptFailureMessageAsWritten`, and for `validate_encrypted_file`, which reports that as-written text.
- Dictionaries are values. Aliasing is not modelled: `update_credential` mutates the record in place, and `get_all_credentials` makes a shallow copy.
- `Text.Lower` and the character classes (`isupper`, `islower`, `isdigit`) are ASCII only. Python applies Unicode case mapping and Unicode categories.
- `Text.Strip` follows Python's `str.isspace`, including the Unicode space characters.
- Console output and Tk widgets are not modelled. That covers menus, prompts, message boxes, the clipboard, colours, tree ordering and the order in which rows are shown.
- `getpass` and `input` become sequences of answers. `KeyboardInterrupt` (exit 0) is not modelled, and an input error counts as a blank answer.
- In main.py, only the helpers the model covers are modelled. Left out are the first-run set-up loop at main.py:337-363, the menu itself, and the add, view, search, delete and change-password dialogues, whose checks repeat the pure rules given here.
- In gui_main.py, the master-password screens and the copy and delete handlers are not modelled.
- In gui_modern.py, `generate_quantum_password` (plain `random.choice`) and the screen and widget classes are not modelled.
- `CryptoUtils.GenerateSecurePassword`: all randomness comes from the draw functions. The model makes no claim about its distribution.

## Findings

| source | as written | input that shows it | evidently intended | confidence | as-written member | corrected member |
|---|---|---|---|---|---|---|
| crypto_utils.py:80-83 | the failure kind is guessed from the text of the exception; cryptography raises `InvalidToken` with no message, so the test never matches | any wrong master password: the message is "Decryption failed: ", and `validate_encrypted_file` reports "Validation failed: Decryption failed: " | "Invalid master password or corrupted data" for a rejected token | medium, not executed | CryptoUtils.InvalidTokenNotRecognised | CryptoUtils.DecryptFailureMessage |
| main.py:366-389 | a blank entry only counts an attempt, and the loop carries on to the menu when attempts run out on a blank entry | three blank password entries: the menu opens with no master password | running out of attempts denies access | high, not executed | Cli.BlankEntriesReachMenu | Cli.IntendedNeverFallsThrough |
