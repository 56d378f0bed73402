/**
 * The form logic of the styled window in gui_modern.py: the notes field holds nothing but
 * the URL, the edit dialogue reads it back by deleting every marker, the search filter,
 * and the checks of the first-run screen and the record forms.
 */
module GuiModern {
  import opened Common
  import opened Text
  import opened Records
  import GuiMain
  import Cli

  const UrlPrefix: string := GuiMain.UrlPrefix

  /**
   * `notes` of `save_cyber_credential` and `update_cyber_credential`: the marker and the
   * URL, or nothing; whatever notes the record had are not kept.
   */
  function PackNotes(url: string): (notes: string)
    ensures url == "" ==> notes == ""
    ensures url != "" ==> StartsWith(notes, UrlPrefix) && notes[|UrlPrefix|..] == url
  {
    if url != "" then UrlPrefix + url else ""
  }

  /**
   * The URL `show_cyber_edit_dialog` fills in: for notes that start with the marker, the
   * notes with every occurrence of the marker deleted; otherwise empty.
   */
  function EditUrl(notes: string): (url: string)
    ensures !StartsWith(notes, UrlPrefix) ==> url == ""
  {
    if StartsWith(notes, UrlPrefix) then ReplaceAll(notes, UrlPrefix, "") else ""
  }

  /** A URL that does not itself contain the marker comes back unchanged from the notes it was packed into. */
  lemma PackThenEdit(url: string)
    requires !Contains(url, UrlPrefix)
    ensures EditUrl(PackNotes(url)) == url
  {
    if url != "" {
      var notes := UrlPrefix + url;
      assert notes[..|UrlPrefix|] == UrlPrefix;
      assert notes[|UrlPrefix|..] == url;
      ReplaceAbsent(url, UrlPrefix, "");
      assert ReplaceAll(notes, UrlPrefix, "") == "" + ReplaceAll(url, UrlPrefix, "");
    }
  }

  /** A URL that does contain the marker loses it on the way back: "URL: x" reads back as "x". */
  lemma MarkerInUrlLost()
    ensures EditUrl(PackNotes("URL: x")) == "x"
  {
    var notes := PackNotes("URL: x");
    assert notes == "URL: URL: x";
    assert StartsWith(notes, UrlPrefix);
    var rest := notes[|UrlPrefix|..];
    assert rest == "URL: x";
    assert StartsWith(rest, UrlPrefix);
    assert rest[|UrlPrefix|..] == "x";
    assert !StartsWith("x", UrlPrefix);
    assert ReplaceAll("x", UrlPrefix, "") == "x" by {
      assert ReplaceAll("", UrlPrefix, "") == "";
      assert "x"[1..] == "";
    }
  }

  /** The record test of `search_credentials`: the lower-cased query occurs in the lower-cased key or username. */
  predicate FilterKeeps(query: string, service: string, c: Credential) {
    Contains(Lower(service), Lower(query)) || Contains(Lower(c.username), Lower(query))
  }

  /** `search_credentials`: every record for an empty query, otherwise the records the query matches. */
  function Filter(query: string, credentials: map<string, Credential>): (shown: map<string, Credential>)
    ensures Lower(query) == "" ==> shown == credentials
    ensures shown.Keys <= credentials.Keys && forall k :: k in shown ==> shown[k] == credentials[k]
    ensures Lower(query) != "" ==>
              forall k :: k in credentials ==> (k in shown <==> FilterKeeps(query, k, credentials[k]))
  {
    if Lower(query) == "" then credentials
    else map k | k in credentials && FilterKeeps(query, k, credentials[k]) :: credentials[k]
  }

  /** Every record this window's search shows, the other window's search shows too. */
  lemma FilterWithinSearch(query: string, credentials: map<string, Credential>)
    ensures Filter(query, credentials).Keys <= GuiMain.Search(query, credentials).Keys
  {
    forall k | k in Filter(query, credentials)
      ensures k in GuiMain.Search(query, credentials)
    {
      if Lower(query) == "" {
        GuiMain.ContainsEmpty(Lower(k));
      }
    }
  }

  /** What `create_master_password` does with the two entries, checked in this order. */
  datatype Setup = KeyRequired | Mismatch | TooShort | Initialize(password: string)

  /**
   * `create_master_password`: an empty password, then a differing confirmation, then a
   * password under 8 characters is refused; anything else initialises the vault.
   */
  function CreateMasterPassword(password: string, confirm: string): (r: Setup)
    ensures password == "" ==> r == KeyRequired
    ensures password != "" && password != confirm ==> r == Mismatch
    ensures r.Initialize? <==> password != "" && password == confirm && |password| >= Cli.MinimumLength
    ensures r.Initialize? ==> r.password == password && GuiMain.ValidatePasswordStrength(password)
  {
    if password == "" then KeyRequired
    else if password != confirm then Mismatch
    else if |password| < Cli.MinimumLength then TooShort
    else Initialize(password)
  }

  /** `all([service, username, password])` of the save and update forms: nothing is stripped. */
  predicate RequiredFields(service: string, username: string, password: string)
    ensures Strip(service) != "" && Strip(username) != "" && password != "" ==> RequiredFields(service, username, password)
  {
    service != "" && username != "" && password != ""
  }

  /**
   * The check is looser than the other window's: a service of only spaces passes here but
   * not in the other window's add form. Whenever the other form passes, this one does.
   */
  lemma RequiredFieldsLooser(service: string, username: string, password: string, url: string, notes: string)
    ensures GuiMain.AddForm(service, username, password, url, notes).Some? ==> RequiredFields(service, username, password)
    ensures RequiredFields(" ", "user", "pw") && GuiMain.AddForm(" ", "user", "pw", url, notes).None?
  {
    assert IsSpace(" "[0]);
    StripAllSpace(" ");
  }
}
