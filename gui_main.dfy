/**
 * The form logic of the Tk window in gui_main.py: how the URL field is folded into the
 * notes and read back out of them, which rows a search keeps, the lenient strength check
 * and the required-field checks of the add form and the edit dialogue.
 */
module GuiMain {
  import opened Common
  import opened Text
  import opened Records
  import Cli

  /** The marker that opens a notes field carrying a URL. */
  const UrlPrefix: string := "URL: "

  /**
   * `notes_combined` of `add_credential` and `save_changes`: with a URL, the URL line
   * followed by the notes on the next line (no second line when the notes are empty);
   * without one, the notes unchanged.
   */
  function CombineNotes(url: string, notes: string): (combined: string)
    ensures url == "" ==> combined == notes
    ensures url != "" ==> |combined| == |UrlPrefix| + |url| + (if notes == "" then 0 else 1 + |notes|)
    ensures url != "" ==> StartsWith(combined, UrlPrefix) && combined[|UrlPrefix|..][..|url|] == url
    ensures url != "" && notes != "" ==> combined[|UrlPrefix| + |url|..] == "\n" + notes
  {
    if url == "" then notes
    else if notes == "" then UrlPrefix + url
    else UrlPrefix + url + "\n" + notes
  }

  /**
   * The URL column of `refresh_credentials` and `search_credentials`: the first line of
   * notes that start with the marker, without the marker; otherwise empty.
   */
  function ExtractUrl(notes: string): (url: string)
    ensures !StartsWith(notes, UrlPrefix) ==> url == ""
    ensures '\n' !in url
  {
    if notes != "" && StartsWith(notes, UrlPrefix) then
      var line := FirstLine(notes);
      if |line| >= |UrlPrefix| then line[|UrlPrefix|..] else ""
    else ""
  }

  /** A URL without a newline comes back out of the notes it was folded into, whatever the notes. */
  lemma CombineThenExtract(url: string, notes: string)
    ensures url != "" && '\n' !in url ==> ExtractUrl(CombineNotes(url, notes)) == url
  {
    if url == "" || '\n' in url {
      return;
    }
    var line := UrlPrefix + url;
    assert '\n' !in line by {
      assert forall i :: 0 <= i < |line| ==> line[i] == (if i < |UrlPrefix| then UrlPrefix[i] else url[i - |UrlPrefix|]);
    }
    FirstLineOfLines(line, notes);
    assert line[..|UrlPrefix|] == UrlPrefix;
    if notes != "" {
      var combined := line + "\n" + notes;
      assert combined[..|UrlPrefix|] == UrlPrefix;
    }
  }

  /** Without a URL the notes are stored as typed, so their own URL column is unchanged. */
  lemma NoUrlKeepsNotes(notes: string)
    ensures CombineNotes("", notes) == notes && ExtractUrl(CombineNotes("", notes)) == ExtractUrl(notes)
  {
  }

  /** One row of the credentials tree: service, username and URL column. */
  datatype Row = Row(service: string, username: string, url: string)

  function RowOf(service: string, c: Credential): (r: Row)
    ensures r.service == service && r.username == c.username && r.url == ExtractUrl(c.notes)
  {
    Row(service, c.username, ExtractUrl(c.notes))
  }

  /** `refresh_credentials`: one row per stored record. */
  function Refresh(credentials: map<string, Credential>): (rows: map<string, Row>)
    ensures rows.Keys == credentials.Keys
    ensures forall k :: k in rows ==> rows[k] == RowOf(k, credentials[k])
  {
    map k | k in credentials :: RowOf(k, credentials[k])
  }

  /** The test of `search_credentials`: the lower-cased term occurs in one of the row's columns, lower-cased. */
  predicate SearchKeeps(term: string, row: Row) {
    var t := Lower(term);
    Contains(Lower(row.service), t) || Contains(Lower(row.username), t) || Contains(Lower(row.url), t)
  }

  /** `search_credentials`: the rows of `refresh_credentials` that the term matches. */
  function Search(term: string, credentials: map<string, Credential>): (rows: map<string, Row>)
    ensures rows.Keys <= credentials.Keys
    ensures forall k :: k in credentials ==> (k in rows <==> SearchKeeps(term, RowOf(k, credentials[k])))
    ensures forall k :: k in rows ==> rows[k] == Refresh(credentials)[k]
  {
    map k | k in credentials && SearchKeeps(term, RowOf(k, credentials[k])) :: RowOf(k, credentials[k])
  }

  /** Every string contains the empty string. */
  lemma ContainsEmpty(s: string)
    ensures Contains(s, "")
  {
    assert StartsWith(s, "");
  }

  /** An empty search term shows the same rows as a refresh. */
  lemma EmptySearchShowsAll(credentials: map<string, Credential>)
    ensures Search("", credentials) == Refresh(credentials)
  {
    forall k | k in credentials
      ensures SearchKeeps("", RowOf(k, credentials[k]))
    {
      ContainsEmpty(Lower(k));
    }
  }

  /** What `validate_password_strength` shows: an error, a warning, or nothing. */
  datatype Strength = TooShort | Warned | Strong

  /**
   * The verdict of `validate_password_strength`: too short below 8 characters; a warning
   * when a class is missing; otherwise strong.
   */
  function Assess(p: string): (s: Strength)
    ensures s == TooShort <==> |p| < Cli.MinimumLength
    ensures s == Strong <==> Cli.ValidatePasswordStrength(p).0
  {
    if |p| < Cli.MinimumLength then TooShort
    else if !(HasUpper(p) && HasLower(p) && HasDigit(p) && HasSpecial(p)) then Warned
    else Strong
  }

  /** `validate_password_strength` returns False only for a short password: weak ones are accepted with a warning. */
  function ValidatePasswordStrength(p: string): (accepted: bool)
    ensures accepted <==> |p| >= Cli.MinimumLength
    ensures accepted && !Cli.ValidatePasswordStrength(p).0 ==> Assess(p) == Warned
  {
    Assess(p) != TooShort
  }

  /** The window accepts every password the command line calls strong, and some it does not. */
  lemma WindowMoreLenient()
    ensures forall p :: Cli.ValidatePasswordStrength(p).0 ==> ValidatePasswordStrength(p)
    ensures ValidatePasswordStrength("aaaaaaaa") && !Cli.ValidatePasswordStrength("aaaaaaaa").0
  {
    assert !HasUpper("aaaaaaaa") by {
      forall i | 0 <= i < |"aaaaaaaa"|
        ensures !IsUpperChar("aaaaaaaa"[i])
      {
      }
    }
  }

  /**
   * `add_credential` of the window: service, username, URL and notes are stripped, the
   * password is taken as typed; the first three must be non-empty, and then the record
   * to add is (service, username, password, combined notes).
   */
  function AddForm(service: string, username: string, password: string, url: string, notes: string)
    : (r: Option<(string, string, string, string)>)
    ensures r.Some? <==> Strip(service) != "" && Strip(username) != "" && password != ""
    ensures r.Some? ==> r.value.0 == Strip(service) && r.value.1 == Strip(username) && r.value.2 == password
    ensures r.Some? && Strip(url) != "" && '\n' !in Strip(url) ==> ExtractUrl(r.value.3) == Strip(url)
    ensures r.Some? && Strip(url) == "" ==> r.value.3 == Strip(notes)
  {
    if Strip(service) == "" || Strip(username) == "" || password == "" then None
    else
      var combined := CombineNotes(Strip(url), Strip(notes));
      CombineThenExtract(Strip(url), Strip(notes));
      Some((Strip(service), Strip(username), password, combined))
  }

  /**
   * `save_changes` of the edit dialogue: username stripped and password as typed must both
   * be non-empty; then the username, password and combined notes to update with.
   */
  function SaveChanges(username: string, password: string, url: string, notes: string)
    : (r: Option<(string, string, string)>)
    ensures r.Some? <==> Strip(username) != "" && password != ""
    ensures r.Some? ==> r.value.0 == Strip(username) && r.value.1 == password
    ensures r.Some? && Strip(url) != "" && '\n' !in Strip(url) ==> ExtractUrl(r.value.2) == Strip(url)
    ensures r.Some? && Strip(url) == "" ==> r.value.2 == Strip(notes)
  {
    if Strip(username) == "" || password == "" then None
    else
      var combined := CombineNotes(Strip(url), Strip(notes));
      CombineThenExtract(Strip(url), Strip(notes));
      Some((Strip(username), password, combined))
  }
}
