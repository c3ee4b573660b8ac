/**
 * The "Save Profile" branch of `main_app` (frontend2.py:191-215): check the
 * four fields, update the current user's record in place, write the store to
 * disk and, when that worked, mirror the profile into the user worksheet.
 */
module App {
  import opened Accounts
  import opened Sheets

  /** Which message the page shows after "Save Profile". */
  datatype SaveOutcome =
    | MissingFields     // "All fields (except name) must be filled to save."
    | LocalSaveFailed   // "Failed to save profile locally."
    | SavedAndSynced    // "Profile saved and synced to Google Sheets!"
    | SavedNotSynced    // "Profile saved locally, but failed to sync with Google Sheets."

  /**
   * `username` is the logged-in user, which exists in the store because the
   * login succeeded. The in-memory update is not undone when the file write
   * fails.
   */
  method SaveProfile(store: UserStore, sheet: Worksheet, username: string,
                     gmail: string, skills: string, education: string, interests: string)
    returns (outcome: SaveOutcome)
    requires username in store.users
    modifies store`users, store`file, sheet
    ensures outcome == MissingFields <==> gmail == "" || skills == "" || education == "" || interests == ""
    ensures outcome == MissingFields ==>
              store.users == old(store.users) && store.file == old(store.file) && sheet.rows == old(sheet.rows)
    ensures outcome != MissingFields ==>
              store.users == old(store.users)[username := WithProfile(old(store.users)[username], gmail, skills, education, interests)]
    ensures outcome == LocalSaveFailed ==> sheet.rows == old(sheet.rows)
    ensures outcome == SavedAndSynced ==>
              store.file == store.users && sheet.rows == Upsert(old(sheet.rows), UserRow(username, gmail, skills, education, interests))
    ensures outcome == SavedNotSynced ==> store.file == store.users && sheet.rows == old(sheet.rows)
  {
    if gmail == "" || skills == "" || education == "" || interests == "" {
      return MissingFields;
    }
    store.UpdateProfile(username, gmail, skills, education, interests);
    var saved := store.SaveUsersToFile();
    if !saved {
      return LocalSaveFailed;
    }
    var updated := UpdateUserToGsheet(sheet, username, gmail, skills, education, interests);
    outcome := if updated then SavedAndSynced else SavedNotSynced;
  }
}
