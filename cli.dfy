/**
 * The command-line front end of main.py: the password-strength rule, the three-attempt
 * login loop, the keep-if-blank merge of the update dialogue and the backup file name.
 */
module Cli {
  import opened Common
  import opened Text
  import opened Records
  import opened Primitives
  import opened Store

  /** The shortest password `validate_password_strength` accepts. */
  const MinimumLength: nat := 8
  const TooShortMessage: string := "Password must be at least 8 characters long"
  const MissingPrefix: string := "Password must contain: "
  const StrongMessage: string := "Strong password"

  /** The character classes a strong password needs; the message lists them in this order. */
  datatype CharClass = Uppercase | Lowercase | Number | SpecialCharacter

  /** The words the message uses for a class. */
  function Label(c: CharClass): string {
    match c
    case Uppercase => "uppercase letter"
    case Lowercase => "lowercase letter"
    case Number => "number"
    case SpecialCharacter => "special character"
  }

  /** The position of a class in the message. */
  function Rank(c: CharClass): nat {
    match c
    case Uppercase => 0
    case Lowercase => 1
    case Number => 2
    case SpecialCharacter => 3
  }

  /** `any(c.isupper() ...)` and its siblings. */
  predicate Meets(p: string, c: CharClass) {
    match c
    case Uppercase => HasUpper(p)
    case Lowercase => HasLower(p)
    case Number => HasDigit(p)
    case SpecialCharacter => HasSpecial(p)
  }

  /** The `missing` list: every class `p` lacks, each once, in message order. */
  function Missing(p: string): (r: seq<CharClass>)
    ensures forall c :: c in r <==> !Meets(p, c)
    ensures forall k, l :: 0 <= k < l < |r| ==> Rank(r[k]) < Rank(r[l])
  {
    (if HasUpper(p) then [] else [Uppercase]) +
    (if HasLower(p) then [] else [Lowercase]) +
    (if HasDigit(p) then [] else [Number]) +
    (if HasSpecial(p) then [] else [SpecialCharacter])
  }

  function Labels(cs: seq<CharClass>): (r: seq<string>)
    ensures |r| == |cs| && forall k :: 0 <= k < |cs| ==> r[k] == Label(cs[k])
  {
    seq(|cs|, k requires 0 <= k < |cs| => Label(cs[k]))
  }

  /**
   * `validate_password_strength`: short passwords fail on length alone; long ones pass
   * exactly when every class is present, and otherwise name the missing classes.
   */
  function ValidatePasswordStrength(p: string): (r: (bool, string))
    ensures |p| < MinimumLength ==> r == (false, TooShortMessage)
    ensures r.0 <==> |p| >= MinimumLength && HasUpper(p) && HasLower(p) && HasDigit(p) && HasSpecial(p)
    ensures r.0 ==> r.1 == StrongMessage
    ensures |p| >= MinimumLength && !r.0 ==> Missing(p) != [] && r.1 == MissingPrefix + Join(Labels(Missing(p)), ", ")
  {
    if |p| < MinimumLength then (false, TooShortMessage)
    else
      var missing := Missing(p);
      MissingEmpty(p);
      if missing != [] then (false, MissingPrefix + Join(Labels(missing), ", "))
      else (true, StrongMessage)
  }

  /** Nothing is missing exactly when all four classes are present. */
  lemma MissingEmpty(p: string)
    ensures Missing(p) == [] <==> HasUpper(p) && HasLower(p) && HasDigit(p) && HasSpecial(p)
  {
    var m := Missing(p);
    assert Uppercase in m <==> !Meets(p, Uppercase);
    assert Lowercase in m <==> !Meets(p, Lowercase);
    assert Number in m <==> !Meets(p, Number);
    assert SpecialCharacter in m <==> !Meets(p, SpecialCharacter);
  }

  /** A long password lacking only a digit is told exactly that. */
  lemma OnlyDigitMissing(p: string)
    requires |p| >= MinimumLength && HasUpper(p) && HasLower(p) && !HasDigit(p) && HasSpecial(p)
    ensures ValidatePasswordStrength(p) == (false, "Password must contain: number")
  {
    assert Missing(p) == [Number];
    assert Labels([Number]) == ["number"];
    assert Join(["number"], ", ") == "number";
    assert MissingPrefix + "number" == "Password must contain: number";
  }

  /** `max_attempts` of the login loop. */
  const MaxAttempts: nat := 3

  /**
   * The answer to the `attempt`-th password prompt: what the user typed, or "" when the
   * input ends (`get_master_password` returns `None` for both).
   */
  function Entry(entries: seq<string>, attempt: nat): string {
    if attempt < |entries| then entries[attempt] else ""
  }

  /** How the login loop ends. */
  datatype Login =
    | Authenticated(password: string)        // `break` after a successful `authenticate`
    | AuthenticationError(password: string, error: Error) // `authenticate` raised: exit(1)
    | AccessDenied                           // a third wrong password: exit(1)
    | FellThrough                            // the loop ran out with no exit and no password

  /** An entry that does not log in: blank, or refused by the hash file. */
  predicate Refused(suite: Suite, files: map<string, seq<byte>>, hashFile: string, p: string) {
    p == "" || !HashFileAccepts(suite, files, hashFile, p)
  }

  /**
   * The outcome of the login loop of `main` from attempt `attempts` on, over a disk
   * that does not change while it runs.
   */
  function LoginFrom(suite: Suite, files: map<string, seq<byte>>, hashFile: string, dataFile: string,
                     entries: seq<string>, attempts: nat): (r: Login)
    ensures r.Authenticated? ==>
              r.password != "" && HashFileAccepts(suite, files, hashFile, r.password) &&
              LoadResult(suite, files, dataFile, Some(r.password)).Ok?
    ensures r.AuthenticationError? ==>
              r.password != "" && HashFileAccepts(suite, files, hashFile, r.password) &&
              LoadResult(suite, files, dataFile, Some(r.password)) == Err(r.error)
    ensures r.AccessDenied? ==> Entry(entries, MaxAttempts - 1) != "" &&
                                !HashFileAccepts(suite, files, hashFile, Entry(entries, MaxAttempts - 1))
    decreases MaxAttempts - attempts
  {
    if attempts >= MaxAttempts then FellThrough
    else
      var p := Entry(entries, attempts);
      if p == "" then LoginFrom(suite, files, hashFile, dataFile, entries, attempts + 1)
      else if !HashFileAccepts(suite, files, hashFile, p) then
        if attempts + 1 < MaxAttempts then LoginFrom(suite, files, hashFile, dataFile, entries, attempts + 1)
        else AccessDenied
      else
        match LoadResult(suite, files, dataFile, Some(p))
        case Ok(_) => Authenticated(p)
        case Err(e) => AuthenticationError(p, e)
  }

  /**
   * The loop as written ends with no password and no exit exactly when the first two
   * entries are refused and the third is blank.
   */
  lemma FallsThroughIffLastBlank(suite: Suite, files: map<string, seq<byte>>, hashFile: string, dataFile: string,
                                 entries: seq<string>)
    ensures LoginFrom(suite, files, hashFile, dataFile, entries, 0) == FellThrough <==>
              Refused(suite, files, hashFile, Entry(entries, 0)) &&
              Refused(suite, files, hashFile, Entry(entries, 1)) &&
              Entry(entries, 2) == ""
  {
    assert LoginFrom(suite, files, hashFile, dataFile, entries, 3) == FellThrough;
  }

  /** Three blank entries leave the loop without authenticating and without exiting. */
  lemma BlankEntriesReachMenu(suite: Suite, files: map<string, seq<byte>>, hashFile: string, dataFile: string)
    ensures LoginFrom(suite, files, hashFile, dataFile, ["", "", ""], 0) == FellThrough
  {
    FallsThroughIffLastBlank(suite, files, hashFile, dataFile, ["", "", ""]);
  }

  /** Access is denied exactly when the first two entries are refused and the third is a wrong password. */
  lemma DeniedIffThirdWrong(suite: Suite, files: map<string, seq<byte>>, hashFile: string, dataFile: string,
                            entries: seq<string>)
    ensures LoginFrom(suite, files, hashFile, dataFile, entries, 0) == AccessDenied <==>
              Refused(suite, files, hashFile, Entry(entries, 0)) &&
              Refused(suite, files, hashFile, Entry(entries, 1)) &&
              Entry(entries, 2) != "" && !HashFileAccepts(suite, files, hashFile, Entry(entries, 2))
  {
    assert LoginFrom(suite, files, hashFile, dataFile, entries, 3) == FellThrough;
  }

  /** A login succeeds only with one of the first three entries, and only one the hash file accepts. */
  lemma {:induction false} AuthenticatedByVerifiedEntry(suite: Suite, files: map<string, seq<byte>>, hashFile: string,
                                                        dataFile: string, entries: seq<string>, attempts: nat)
    requires LoginFrom(suite, files, hashFile, dataFile, entries, attempts).Authenticated?
    ensures var p := LoginFrom(suite, files, hashFile, dataFile, entries, attempts).password;
            p != "" && HashFileAccepts(suite, files, hashFile, p) && LoadResult(suite, files, dataFile, Some(p)).Ok? &&
            exists i :: attempts <= i < MaxAttempts && Entry(entries, i) == p
    decreases MaxAttempts - attempts
  {
    var p := Entry(entries, attempts);
    if Refused(suite, files, hashFile, p) {
      AuthenticatedByVerifiedEntry(suite, files, hashFile, dataFile, entries, attempts + 1);
    } else {
      assert Entry(entries, attempts) == p;
    }
  }

  /** Only the first three entries are ever read. */
  lemma {:induction false} OnlyThreeEntriesRead(suite: Suite, files: map<string, seq<byte>>, hashFile: string,
                                                dataFile: string, entries: seq<string>, others: seq<string>, attempts: nat)
    requires forall i :: attempts <= i < MaxAttempts ==> Entry(entries, i) == Entry(others, i)
    ensures LoginFrom(suite, files, hashFile, dataFile, entries, attempts) ==
            LoginFrom(suite, files, hashFile, dataFile, others, attempts)
    decreases MaxAttempts - attempts
  {
    if attempts < MaxAttempts {
      OnlyThreeEntriesRead(suite, files, hashFile, dataFile, entries, others, attempts + 1);
    }
  }

  /** The evidently intended loop: running out of attempts denies access, whatever the last entry was. */
  function LoginFromIntended(suite: Suite, files: map<string, seq<byte>>, hashFile: string, dataFile: string,
                             entries: seq<string>, attempts: nat): (r: Login)
    ensures r.Authenticated? ==>
              r.password != "" && HashFileAccepts(suite, files, hashFile, r.password) &&
              LoadResult(suite, files, dataFile, Some(r.password)).Ok?
    ensures r.AuthenticationError? ==>
              r.password != "" && HashFileAccepts(suite, files, hashFile, r.password) &&
              LoadResult(suite, files, dataFile, Some(r.password)) == Err(r.error)
    ensures r.AccessDenied? ==>
              forall i :: attempts <= i < MaxAttempts ==> Refused(suite, files, hashFile, Entry(entries, i))
    decreases MaxAttempts - attempts
  {
    if attempts >= MaxAttempts then AccessDenied
    else
      var p := Entry(entries, attempts);
      if Refused(suite, files, hashFile, p) then LoginFromIntended(suite, files, hashFile, dataFile, entries, attempts + 1)
      else
        match LoadResult(suite, files, dataFile, Some(p))
        case Ok(_) => Authenticated(p)
        case Err(e) => AuthenticationError(p, e)
  }

  /**
   * The intended loop never reaches the menu without a password, and it agrees with the
   * loop as written on every input where the latter does not fall through.
   */
  lemma {:induction false} IntendedNeverFallsThrough(suite: Suite, files: map<string, seq<byte>>, hashFile: string,
                                                     dataFile: string, entries: seq<string>, attempts: nat)
    ensures LoginFromIntended(suite, files, hashFile, dataFile, entries, attempts) != FellThrough
    ensures LoginFrom(suite, files, hashFile, dataFile, entries, attempts) != FellThrough ==>
              LoginFromIntended(suite, files, hashFile, dataFile, entries, attempts) ==
              LoginFrom(suite, files, hashFile, dataFile, entries, attempts)
    decreases MaxAttempts - attempts
  {
    if attempts < MaxAttempts {
      IntendedNeverFallsThrough(suite, files, hashFile, dataFile, entries, attempts + 1);
      if attempts + 1 == MaxAttempts {
        assert LoginFromIntended(suite, files, hashFile, dataFile, entries, attempts + 1) == AccessDenied;
      }
    }
  }

  /**
   * The login loop of `main`: read up to three passwords, skipping blank ones, and stop at
   * the first that authenticates, at an error, or at the third wrong one.
   */
  method LoginLoop(pm: PasswordManager, entries: seq<string>) returns (outcome: Login)
    modifies pm
    ensures outcome == LoginFrom(pm.suite, pm.disk.files, pm.masterHashFile, pm.dataFile, entries, 0)
    ensures outcome != FellThrough ==>
              outcome == LoginFromIntended(pm.suite, pm.disk.files, pm.masterHashFile, pm.dataFile, entries, 0)
    ensures outcome.Authenticated? ==>
              pm.masterPassword == Some(outcome.password) &&
              LoadResult(pm.suite, pm.disk.files, pm.dataFile, Some(outcome.password)) == Ok(pm.credentials)
    ensures outcome.AuthenticationError? ==>
              pm.masterPassword == Some(outcome.password) && pm.credentials == old(pm.credentials)
    ensures outcome.AccessDenied? || outcome.FellThrough? ==>
              pm.masterPassword == old(pm.masterPassword) && pm.credentials == old(pm.credentials)
  {
    IntendedNeverFallsThrough(pm.suite, pm.disk.files, pm.masterHashFile, pm.dataFile, entries, 0);
    var attempts: nat := 0;
    while attempts < MaxAttempts
      invariant attempts <= MaxAttempts
      invariant pm.masterPassword == old(pm.masterPassword) && pm.credentials == old(pm.credentials)
      invariant LoginFrom(pm.suite, pm.disk.files, pm.masterHashFile, pm.dataFile, entries, 0) ==
                LoginFrom(pm.suite, pm.disk.files, pm.masterHashFile, pm.dataFile, entries, attempts)
      decreases MaxAttempts - attempts
    {
      var p := Entry(entries, attempts);
      if p == "" {
        attempts := attempts + 1;
        continue;
      }
      var r := pm.Authenticate(p);
      match r
      case Ok(true) =>
        return Authenticated(p);
      case Ok(false) =>
        attempts := attempts + 1;
        if MaxAttempts - attempts == 0 {
          return AccessDenied;
        }
      case Err(e) =>
        return AuthenticationError(p, e);
    }
    outcome := FellThrough;
  }

  /** `new_username = ... or existing['username']`: a blank answer keeps the current value. */
  function KeepIfBlank(answer: string, current: string): (r: string)
    ensures r == answer || r == current
    ensures answer != "" ==> r == answer
    ensures r == "" <==> answer == "" && current == ""
  {
    if answer == "" then current else answer
  }

  /**
   * The values the update dialogue of `main` passes to `update_credential`: username and
   * notes stripped, the password as typed, each blank answer replaced by the current value.
   * A new weak password needs a "y" (in either case) to go on; otherwise the update is
   * cancelled.
   */
  function UpdateAnswers(existing: Credential, username: string, password: string, notes: string, confirm: string)
    : (r: Option<(string, string, string)>)
    ensures r.None? <==> password != "" && !ValidatePasswordStrength(password).0 && Lower(confirm) != "y"
    ensures r.Some? ==> r.value.0 == KeepIfBlank(Strip(username), existing.username)
    ensures r.Some? ==> r.value.1 == KeepIfBlank(password, existing.password)
    ensures r.Some? ==> r.value.2 == KeepIfBlank(Strip(notes), existing.notes)
  {
    if password != "" && !ValidatePasswordStrength(password).0 && Lower(confirm) != "y" then None
    else Some((KeepIfBlank(Strip(username), existing.username), KeepIfBlank(password, existing.password),
               KeepIfBlank(Strip(notes), existing.notes)))
  }

  /** Blank answers (or answers of only spaces) change nothing but `updated_at`. */
  lemma BlankAnswersKeepRecord(existing: Credential, username: string, notes: string, confirm: string, now: string)
    requires forall i :: 0 <= i < |username| ==> IsSpace(username[i])
    requires forall i :: 0 <= i < |notes| ==> IsSpace(notes[i])
    ensures var r := UpdateAnswers(existing, username, "", notes, confirm);
            r.Some? && Patched(existing, Some(r.value.0), Some(r.value.1), Some(r.value.2), now) ==
                       existing.(updatedAt := Some(now))
  {
    StripAllSpace(username);
    StripAllSpace(notes);
  }

  const BackupStem: string := "password_backup_"
  const BackupSuffix: string := ".encrypted"

  /**
   * `export_credentials` of `main`: the stripped answer, or `password_backup_<timestamp>`
   * when it is blank, always followed by ".encrypted".
   */
  function BackupFilename(answer: string, timestamp: string): (r: string)
    ensures |r| >= |BackupSuffix| && r[|r| - |BackupSuffix|..] == BackupSuffix
    ensures Strip(answer) == "" ==> r == BackupStem + timestamp + BackupSuffix
    ensures Strip(answer) != "" ==> r[..|r| - |BackupSuffix|] == Strip(answer)
  {
    var stem := if Strip(answer) == "" then BackupStem + timestamp else Strip(answer);
    stem + BackupSuffix
  }
}
