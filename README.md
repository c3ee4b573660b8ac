# SkillPilot account store, sheet upsert and request payload — a Dafny model

SkillPilot is a Streamlit front end that collects a user profile, forwards it
to a recommendation webhook and renders the suggested jobs and courses. The
part of `frontend2.py` that holds logic of its own is modelled here:

* **Accounts** (`accounts.dfy`): the in-memory user store
  `st.session_state.users_db`, a dictionary from username to a record
  holding the password hash and four profile fields. `UserStore` is a class
  with that dictionary as a `map` field, the password hasher as a constant
  function (`hash_password`, deterministic and otherwise unknown) and the
  store as this session last wrote it to `users.json` (at construction: as
  loaded), unknown after a failed write.
  `create_user` and the profile update are methods of it that change
  `users`. The checks of `create_user` are specified by the pure function
  `Register`. `check_password` and `get_user_profile` are pure functions over
  the map.
* **Sheets** (`sheets.dfy`): the user worksheet as a sequence of data rows
  under one header row, and the upsert rule of `update_user_to_gsheet`. If
  the username is already in the username column, its first row is
  overwritten at sheet row `index + 2`. Otherwise one row is appended.
* **Payload** (`payload.dfy`): Python's `str.split(",")` and `str.strip()`
  as used to build the webhook request, the "all fields filled" guard of the
  "Get Recommendations" button, and the job-link fallback.
* **App** (`app.dfy`): the "Save Profile" branch of `main_app`. It checks the
  four fields and updates the record in place. It then writes the store and,
  when that worked, mirrors the profile to the sheet.

Two outside effects are modelled as results the verifier cannot predict: the
file write of `save_users_to_file` and the Google Sheets connection. Each is
a nondeterministic boolean. The hasher is a function-valued constant, so
nothing about SHA-256 is assumed beyond determinism.

Three behaviours of the code that the model keeps:

* A failed file write after "Save Profile" does not undo the in-memory profile
  update (frontend2.py:195-202). Only `create_user` rolls its insert back
  (frontend2.py:110).
* The upsert overwrites the *first* row whose username matches
  (`list.index`, frontend2.py:57), not any matching row.
* A record without a `password_hash` key never matches a password, because
  `check_password` compares `.get('password_hash')` (frontend2.py:91), which
  gives `None`. `Record.passwordHash` is therefore an `Option`.

## Model

| member | source | states |
|---|---|---|
| `Accounts.CheckPassword` | frontend2.py:88-92 | true only for a stored user that has a password hash. `RegisterThenLogin` and `RegisterWrongPassword` show a new user is accepted with its own password and refused with a password of different hash. `UnknownUser` shows an unknown user is always refused |
| `Accounts.GetUserProfile` | frontend2.py:113-116 | never fails, and a profile carrying a hash is the stored record. `UnknownUser` shows the all-empty default for an unknown user. `ProfileUpdateThenProfile` shows the saved fields are returned after a profile save |
| `Accounts.Register` | frontend2.py:94-105 | the duplicate check comes first: a taken username always fails with "Username already exists". Otherwise a username under 3 or a password under 6 characters fails as too short. It succeeds exactly when neither applies. On success the keys grow by exactly the new username, its record holds `hash(password)` and the given fields, and every earlier entry is untouched |
| `Accounts.RegisterThenLogin` | frontend2.py:88-108 | after a successful registration, `check_password` with the chosen password holds |
| `Accounts.RegisterWrongPassword` | frontend2.py:88-92 | after registration, a password whose hash differs from the chosen one is refused |
| `Accounts.RegisterKeepsOtherLogins` | frontend2.py:88-106 | registering one user changes no other username's login outcome |
| `Accounts.RegisterThenProfile` | frontend2.py:99-116 | the profile looked up for a newly registered user is the one it registered with |
| `Accounts.UnknownUser` | frontend2.py:88-92 | an unknown username gets the all-empty default profile (lines 113-116) and no password logs it in |
| `Accounts.RollbackRestores` | frontend2.py:106-111 | deleting the key just inserted for a new username gives back the store exactly as before |
| `Accounts.WithProfile` | frontend2.py:195-200 | the dictionary `.update()` overwrites gmail, skills, education and interests and keeps the password hash |
| `Accounts.ProfileUpdateKeepsLogins` | frontend2.py:195-200 | saving a profile changes no login outcome for any user and any password |
| `Accounts.ProfileUpdateThenProfile` | frontend2.py:176-200 | after a profile save the prefill shows the saved fields with the old hash, and every other user's profile is unchanged |
| `Accounts.UserStore.constructor` | frontend2.py:278-279 | the session's store starts as the loaded dictionary, which is also the file's content |
| `Accounts.UserStore.SaveUsersToFile` | frontend2.py:35-43 | the write may fail. When it reports success the file holds exactly the store. The store itself is not modified |
| `Accounts.UserStore.CreateUser` | frontend2.py:94-111 | if `Register` refuses, the result is False with its message and nothing changes. If the save then works, the store becomes `Register`'s map, the file equals it and the new user can log in. If the save fails, the insert is rolled back and the result is False with "Failed to save account" |
| `Accounts.UserStore.UpdateProfile` | frontend2.py:195-200 | the current user's record becomes `WithProfile` of the old one, and no other entry changes |
| `Sheets.Upsert` | frontend2.py:56-61 | the rows keep their count or gain exactly the new row at the end, and every row other than the new one is the old row at the same position. `UpsertPresent`, `UpsertAbsent` and `UpsertTwice` give the first-match overwrite, the append and the repeat behaviour |
| `Sheets.IndexOf` | frontend2.py:57 | `list.index`: a position holding the username, with none before it |
| `Sheets.UpsertPresent` | frontend2.py:56-59 | when the username is present, its first row is replaced by the new row. The row count is unchanged and every other row is kept |
| `Sheets.UpsertAbsent` | frontend2.py:60-61 | when the username is absent, exactly the new row is appended |
| `Sheets.UpsertSize` | frontend2.py:56-61 | the row count grows by one exactly when the username was not in the column, and the new row is always in the sheet afterwards |
| `Sheets.UpsertTwice` | frontend2.py:52-62 | upserting the same username twice equals upserting the second row once: the same row is rewritten and no second row is created |
| `Sheets.Worksheet.GetAllRecords` | frontend2.py:52 | returns every data row in order |
| `Sheets.Worksheet.Update` | frontend2.py:58 | writing columns A..E of sheet row `a` replaces data row `a - 2` and nothing else |
| `Sheets.Worksheet.AppendRow` | frontend2.py:61 | the row is added after the last data row |
| `Sheets.UpdateUserToGsheet` | frontend2.py:46-69 | on True the sheet holds `Upsert` of its old rows and the user's row. On False (a connection or API failure) the sheet is unchanged |
| `Payload.FirstNonSpace` | frontend2.py:225 | where the left strip stops: every character skipped is whitespace, and the stop is the end of the string or a non-whitespace character |
| `Payload.TrailStart` | frontend2.py:225 | where the right strip stops: every character cut off is whitespace, and the character before the cut is not whitespace, unless the cut reaches the left bound |
| `Payload.Strip` | frontend2.py:225 | the result neither starts nor ends with Python whitespace, and it is a slice of the input with only whitespace removed on either side |
| `Payload.StripUnique` | frontend2.py:225 | any stripped string obtained from the input by removing only surrounding whitespace is `Strip`'s result |
| `Payload.StripIdempotent` | frontend2.py:225 | stripping twice equals stripping once |
| `Payload.Split` | frontend2.py:225 | `str.split` gives `count(sep) + 1` pieces, none containing the separator, whose join with the separator is the input |
| `Payload.SplitJoin` | frontend2.py:225 | splitting the join of separator-free pieces gives back those pieces |
| `Payload.CommaList` | frontend2.py:225-227 | the skills and interests lists have `count(",") + 1` entries. Each entry is the corresponding comma piece with surrounding whitespace stripped |
| `Payload.BuildRequest` | frontend2.py:217-228 | no request is built exactly when some field is empty. Otherwise name, gmail and education are sent as typed, and skills and interests as stripped comma lists |
| `Payload.JobLinkAsWritten` | frontend2.py:245-247 | a truthy top-level link is used. An absent `apply_options` gives no link. Otherwise the first option's link is used, and an empty option list raises `IndexError` |
| `Payload.EmptyApplyOptionsRaises` | frontend2.py:245-247 | the as-written fallback raises for a job with no link and an empty `apply_options` list, where the corrected one gives no link |
| `Payload.JobLink` | frontend2.py:245-247 | the link is truthy exactly when the top-level link is, or else the first application option's is. It agrees with the as-written expression wherever that does not raise |
| `Payload.ShownLink` | frontend2.py:245-251 | "Apply Here" is shown, with a non-empty link, exactly when the top-level link is truthy or else the first application option's link is. Wherever the expression at lines 245-247 does not raise, the link shown is its value exactly when that value is truthy. For the input that raises, the no-link note is the corrected behaviour (see Findings) |
| `App.SaveProfile` | frontend2.py:191-215 | if a field is empty, nothing changes. Otherwise the record is updated in place, even when the file write then fails. Only after a successful write is the sheet upserted, and a failed sync leaves the sheet unchanged |

## Findings

| source | as written | input that shows it | evidently intended | confidence | as-written member | corrected member |
|---|---|---|---|---|---|---|
| frontend2.py:245-247 | `job.get('apply_options', [{}])[0]` indexes the list without checking that it is non-empty | a job `{"link": null, "apply_options": []}` in a 200 response: `IndexError` is raised, and only `RequestException` is caught, so the page fails | fall back to "no application link" | medium, not executed | `Payload.JobLinkAsWritten` (shown by `Payload.EmptyApplyOptionsRaises`) | `Payload.JobLink` |

## Left out

- Streamlit rendering, forms, tabs, `st.rerun`, the login/logout session flags and top-level initialisation are user interface (frontend2.py:118-184, 273-284).
- Only one browser session is modelled. Each Streamlit session holds its own `users_db`, loaded at frontend2.py:278-279, and overwrites the whole of users.json with it on every save (frontend2.py:37-40). So `file` is users.json only while no other session writes it; a later save by another session silently drops this session's new accounts from disk.
- `load_users_from_file` (frontend2.py:23-33) is file I/O and JSON decoding. The constructor takes the loaded dictionary as a parameter. A corrupt file, which loads as `{}`, is not distinguished.
- `Accounts.UserStore.SaveUsersToFile`: what a failed write leaves in the file is left unspecified, and the JSON encoding is not modelled.
- SHA-256 itself (frontend2.py:85-86) is not modelled. The hasher is an arbitrary deterministic function, so properties about wrong passwords assume the two hashes differ.
- The gspread client, authorisation and worksheet lookup (frontend2.py:9-12, 47-51) are foreign library and network calls. They are one failure point before anything is written.
- `Sheets.UpdateUserToGsheet`: every remote failure is treated as happening before the single write. Cell values are assumed to be read back as the strings written, although gspread may turn numeric-looking cells into numbers.
- Sheets.UpdateUserToGsheet: assumes the sheet's row 1 holds the headers username, gmail, skills, education, interests in columns A..E. The source looks usernames up under whichever column is headed `username` (frontend2.py:53), but always writes columns A..E by position (frontend2.py:58, 61). `UpsertTwice`'s "no second row" depends on this layout.
- `save_courses_to_gsheet` (frontend2.py:71-82) is a loop of remote appends, one per course, with nothing further to state.
- The webhook POST, status handling, JSON decoding and rendering of summary, jobs and courses (frontend2.py:230-270) are network I/O and display. Only the link choice is modelled.
- `Payload.JobLinkAsWritten`: JSON values other than strings and `null` for `link`, and a non-list `apply_options`, are not modelled.
- App.SaveProfile and Accounts.UserStore.UpdateProfile: require the logged-in user to be in the store. The source would raise `KeyError` otherwise, but a user only reaches this screen after `check_password` found it in the store.
- `frontend.py` is not part of this model. Its field check and comma-split payload repeat frontend2.py:218-228 without the gmail field.
