/** The values the vault stores and serialises. */
module Records {
  import opened Common

  /**
   * One stored credential: the JSON object
   * `{"username", "password", "notes", "timestamp"}` that `add_credential` writes,
   * plus the `"updated_at"` field that `update_credential` adds.
   */
  datatype Credential = Credential(
    username: string,
    password: string,
    notes: string,
    timestamp: string,
    updatedAt: Option<string>)

  /**
   * The JSON documents the program reads: the data file holds an object keyed by service,
   * an export file wraps such an object with `exported_at` and `version`. A file may also
   * hold JSON that is not an object at all; for those only what `'credentials' in` does
   * with them matters.
   */
  datatype Document =
    | Vault(entries: map<string, Credential>)
    | Backup(exportedAt: string, version: string, credentials: map<string, Credential>)
    | Sequence(holdsCredentials: bool)  // an array or a string; whether "credentials" is an element or a substring
    | Scalar                            // a number, `true`, `false` or `null`
}
