# Plex User Manager: time-windowed library sharing

Plex User Manager is a small web application. An operator uses it to decide
which libraries of a Plex Media Server each friend of the Plex account may see,
and for which window of time. Each (user, library) pair has a share row: an
`is_active` flag, an optional start date and an optional expiration date. A
share is live at instant `now` when it is active, its start is absent or
`<= now`, and its expiry is absent or `> now`. So the window is closed at the
start and open at the expiry.

This project models the part of the application that turns those rows into
remote access:

- `update_user_access`: the one call that replaces the sections a friend
  gets. An empty key list sends nothing. Missing credentials are a failure.
  Each requested key resolves to its first matching section, in request
  order. The section titled `Default` (in any case) is added once, at the
  end, when it is not already there. Exactly one `updateFriend` request is
  sent.
- `check_schedules`: the background pass. It goes through every user once,
  in table order, computes that user's live library keys and pushes them.
  The outcome of each update is ignored.
- `user_details` on POST: one share row per library is upserted, and its flag
  and dates are overwritten from the form. The rows are committed. Then the
  keys whose window is open now are pushed, and the outcome picks the flash
  message.
- `run_scheduler`: the manual trigger of one pass. It catches the error that
  stops a pass.
- `sync_plex_data`: libraries are upserted by section key and users by Plex
  id. Only the first shared-server entry that matches this server's machine
  identifier is read. Every share it reports becomes active. Sync never
  deactivates or deletes a share.
- The role predicates of `models.py`. A new user's role is `auditor`.

The database is the class `Store.Database`. Its tables are sequences of
records that the handlers reassign when they commit. The Plex server is the
class `Remote.Plex`. It holds a snapshot of what the server answers and a log
of the `updateFriend` requests sent to it. Each imperative method in
`PlexService` and `App` is proved equal to a pure specification function:
`AccessUpdate`, `SchedulePass`, `SyncPlex` or `UserDetails`. The lemmas are
proved about those functions. The share-window test is one predicate,
`ShareWindow.ShouldShare`. The scheduler and the form both use it, and
`UserForm.FormAgreesWithSchedule` proves that the form pushes the same set
of keys as the next scheduled pass would (the form lists them in library
order, the pass in share-row order).

Behaviour worth noting:

- The keys the pass pushes for a user are a list in share-row order, not a set.
- Missing credentials do not abort a pass: `check_schedules` ignores the
  outcome of each update, so each user's update fails and the pass carries on.
- A live share row whose library row is missing raises out of
  `check_schedules`: `share.library.plex_key` is evaluated outside the `try`.
  The pass stops at that user and `run_scheduler` shows the error. On tables
  that keep their foreign keys this cannot happen
  (`App.SchedulerSucceedsOnValidTables`).
- An empty key list is skipped without a request. Otherwise the `Default`
  section, when the server has one, is added so that an update never removes
  the user from the server.

## Model

| member | source | states |
|---|---|---|
| Models.NewUser | models.py:15 | a new user is an auditor, not a moderator or admin, and has none of the management capabilities |
| Models.RoleChain | models.py:25-39 | `is_admin` is role admin; `is_moderator` is admin or moderator; `is_auditor` is any of the three roles; admin implies moderator implies auditor |
| Models.CapabilitiesFollowRoles | models.py:41-55 | managing users and editing settings are exactly admin; editing libraries and syncing are exactly moderator-or-admin |
| Models.RolePrivileges | models.py:29-55 | for each of the three roles, which capabilities hold and which do not |
| Schema.FindLibraryByKey | plex_service.py:38 | `filter_by(plex_key=…).first()`: a found index holds that key; none found means no row has it |
| Schema.FindLibraryById | models.py:79 | the index of the library with a given id, or no row has that id |
| Schema.FindUserByPlexId | plex_service.py:53 | the first user row with the Plex id, or none has it |
| Schema.FindUserById | app.py:142 | the user row with that id, or none has it (the 404 case) |
| Schema.FindShare | app.py:160 | the row for the (user, library) pair, or no row has that pair |
| Schema.LibraryKeyOf | plex_service.py:207 | with unique library ids, `share.library.plex_key` is the key of the row with that id |
| Schema.ActivateShareSpec | plex_service.py:111-118 | after importing a pair, it has an active row and nothing is deactivated; other pairs' rows are unchanged; a new row has the pair; row pairs stay unique |
| Schema.StoreShareSpec | app.py:160-167 | after storing a pair from the form, a row holds exactly the submitted flag and dates; other rows are unchanged; row pairs stay unique |
| Remote.Plex.constructor | plex_service.py:9-22 | a connection to a server starts with no requests sent |
| Remote.Plex.UpdateFriend | plex_service.py:173 | a request is appended to the log with the friend and the sections |
| ShareWindow.InactiveNeverShares | plex_service.py:199-206 | an inactive row is never shared, whatever its dates |
| ShareWindow.OpenWindowAlwaysShares | plex_service.py:199-206 | an active row with no dates is always shared |
| ShareWindow.StartIsInclusive | plex_service.py:201-202 | a row is shared at its start instant and not one tick before it |
| ShareWindow.ExpiryIsExclusive | plex_service.py:203-204 | a row is not shared at its expiry instant; an active undated-start row is shared one tick before it |
| ShareWindow.InvertedWindowNeverShares | plex_service.py:199-206 | a start after the expiry never shares |
| ShareWindow.WindowIsHalfOpen | app.py:172-176 | an active row with both dates is shared iff start <= now < expiry |
| Access.FirstWithKey | plex_service.py:148-151 | the first section whose key equals the requested key, or none matches |
| Access.ResolveKeys | plex_service.py:146-151 | at most one section per key, each a server section with a requested key |
| Access.FirstDefault | plex_service.py:156-158 | the first section whose lower-cased title is `default`, or none is |
| Access.AccessUpdate | plex_service.py:128-179 | at most one request is sent; a request is sent iff the outcome is "Access updated successfully."; it is for the given friend |
| Access.EmptyKeysLeaveServerUntouched | plex_service.py:131-134 | an empty key list succeeds with "No libraries to share - user not invited." and sends nothing |
| Access.MissingCredentialsFail | plex_service.py:136-140 | without both settings rows: "Plex credentials not configured.", no request |
| Access.ServerErrorsAreReported | plex_service.py:142-179 | an error raised by the server comes back as the failure message and nothing is sent |
| Access.UpdateSendsOneCall | plex_service.py:146-176 | otherwise exactly one request, with the resolved sections plus Default |
| Access.ResolveKeysAppend | plex_service.py:147-151 | sections are resolved key by key in request order |
| Access.ResolveOneKey | plex_service.py:148-151 | one key resolves to at most one section, the first that matches |
| Access.ResolveKeysWhenAllExist | plex_service.py:147-151 | when every key exists on the server, the chosen sections carry exactly the requested keys, in order |
| Access.ResolvedKeysDistinct | plex_service.py:147-151 | distinct requested keys give sections with distinct keys |
| Access.SharedKeysDistinct | plex_service.py:146-163 | adding Default never duplicates a section key |
| Access.DefaultIsAlwaysShared | plex_service.py:153-163 | with a Default section on the server it is always shared, appended at the end only when missing; without one the resolved sections are sent unchanged |
| Access.SharedSectionsExist | plex_service.py:146-163 | every section sent is a server section; at most one more than the keys |
| Access.DefaultTitles | plex_service.py:157 | an illustration of the ASCII `lower() == 'default'` test: "default", "Default" and "DEFAULT" match; "Defaults" and "Movies" do not |
| PlexService.FindSection | plex_service.py:148-151 | the inner loop with its `break` finds `FirstWithKey` |
| PlexService.ResolveSections | plex_service.py:146-151 | the key loop builds `ResolveKeys` |
| PlexService.AddDefault | plex_service.py:155-163 | the Default loop appends the Default section when no chosen section has its key |
| PlexService.ChooseSections | plex_service.py:146-163 | the sections sent are `SectionsToShare` |
| PlexService.UpdateUserAccess | plex_service.py:128-179 | outcome and requests sent are those of `AccessUpdate` |
| PlexService.LiveLibraryKeys | plex_service.py:193-207 | the share loop collects `ScheduledKeys`, or fails on a live row with a missing library |
| PlexService.ScheduleUser | plex_service.py:193-214 | one user: on a dangling live row nothing is sent; otherwise that user's update is sent and its outcome returned |
| PlexService.CheckSchedules | plex_service.py:182-214 | the pass's outcomes, requests and error are those of `SchedulePass` over all users |
| PlexService.SyncLibraryRows | plex_service.py:35-44 | the library loop computes `SyncLibraries` |
| PlexService.ImportFriendShares | plex_service.py:104-118 | the shared-section loop computes `ImportShares` |
| PlexService.SyncFriendRow | plex_service.py:53-119 | one friend: upsert, then the first matching server's sections, computing `SyncFriend` |
| PlexService.SyncFriendRows | plex_service.py:52-119 | the friend loop computes `SyncFriends` |
| PlexService.SyncPlexData | plex_service.py:24-126 | the outcome and committed tables are those of `SyncPlex`; settings unchanged; integrity kept |
| Schedule.SharesOf | plex_service.py:194 | the rows of one user, exactly those of the table with that user id |
| Schedule.ScheduledKeysFail | plex_service.py:198-207 | the keys are undefined iff some live row points at a missing library |
| Schedule.PassAfterMissingLibrary | plex_service.py:198-207 | once a live row's library is missing, later rows do not matter |
| Schedule.ScheduledKeysMembers | plex_service.py:198-207 | a key is collected iff some live row points at a library with that key |
| Schedule.LinkedKeysDefined | plex_service.py:194-207 | with linked rows every user's keys are defined |
| Schedule.DesiredKeysMembers | plex_service.py:193-207 | a user's collected keys are exactly the keys of that user's live rows |
| Schedule.UserWithoutLiveShareIsSkipped | plex_service.py:192-211 | a user with no live row gets no keys, success, and no request |
| Schedule.UserUpdateSendsDesiredSections | plex_service.py:192-211 | a user with keys on a reachable server gets one request with those keys' sections |
| Schedule.PassExtend | plex_service.py:192-214 | one more user either stops the pass on a missing library or appends that user's outcome and requests |
| Schedule.PassCallsMembers | plex_service.py:192-214 | a request is in the pass iff it is the single request of some user's update |
| Schedule.SchedulePassComplete | plex_service.py:192-214 | with all keys defined, every user is handled once, in order, whatever its outcome; the requests are the users' requests in order |
| Schedule.PassAfterError | plex_service.py:192-214 | once the pass has stopped, later users change nothing |
| Schedule.SchedulePassStops | plex_service.py:198-207 | the pass stops at the first user with a dangling live row: earlier users handled, that one and later ones not, the error reported |
| Sync.LibraryIdForKey | plex_service.py:108-109 | the id of a library with the section's key, present iff such a row exists |
| Sync.FirstServerIndex | plex_service.py:88-89 | the first shared-server entry with this machine identifier, or none has it |
| Sync.SyncPlex | plex_service.py:24-126 | success iff the outcome is "Sync successful."; on failure nothing is written |
| Sync.UpsertLibrarySpec | plex_service.py:37-44 | one section: its row gets the title or a new row is added; no type is refreshed; other rows unchanged; keys stay unique |
| Sync.SyncLibrariesSpec | plex_service.py:34-44 | every section has a row; rows keep id, key and type; each listed key's title is the last listed title; other tables untouched |
| Sync.UpsertUserSpec | plex_service.py:53-69 | one friend: its row holds the friend's name, email and thumb; other rows unchanged; Plex ids stay unique |
| Sync.ImportSharesFrame | plex_service.py:104-118 | importing touches only share rows, deactivates nothing and keeps pairs unique |
| Sync.ImportSharesActivate | plex_service.py:104-118 | every reported key that has a library leaves an active row for the user |
| Sync.ImportSharesOnlyImported | plex_service.py:104-118 | every changed or new row is an active row of the user for a reported key |
| Sync.ImportKeepsLinked | plex_service.py:104-118 | imported rows point at existing users and libraries |
| Sync.SyncFriendFrame | plex_service.py:52-119 | one friend: libraries untouched, user rows kept, nothing deactivated, the friend has a row |
| Sync.SyncFriendImports | plex_service.py:86-119 | one friend: the sections of the first matching server are active for its row |
| Sync.SyncFriendOnlyImported | plex_service.py:86-119 | one friend: every changed row is an import of that friend |
| Sync.SyncFriendsFrame | plex_service.py:52-119 | the friend loop leaves libraries untouched, keeps user rows, deactivates nothing |
| Sync.SyncFriendsValid | plex_service.py:52-119 | the friend loop keeps the tables' integrity |
| Sync.SyncFriendsUsers | plex_service.py:52-69 | every friend has a user row afterwards |
| Sync.SyncFriendsImport | plex_service.py:52-119 | every friend's reported shares are active afterwards |
| Sync.SyncFriendsOnlyImported | plex_service.py:52-119 | every changed row is an import of some friend |
| Sync.SyncedSpec | plex_service.py:24-126 | a sync keeps integrity and every row; never deactivates or deletes a share; gives every section and friend a row; imports every reported share; activates nothing else |
| Sync.SyncedValid | plex_service.py:24-126 | a sync keeps the tables' integrity |
| Sync.SyncLibrariesKeepsRows | plex_service.py:34-44 | on any tables, the library phase leaves users and shares as they were and keeps every library row's id and key |
| Sync.SyncNeverDeactivates | plex_service.py:24-126 | on any tables, even with dangling share rows, a sync never deletes, moves or deactivates a share and keeps every user and library row |
| UserForm.ParsedDate | app.py:156-157 | a blank field is no date; a parsed field is that date |
| UserForm.UserDetails | app.py:139-190 | 404 iff the user is unknown; without a redirect nothing is written and nothing is sent |
| UserForm.SubmitFormFrame | app.py:151-167 | other users' rows and unlisted libraries' rows are unchanged; new rows are the user's, for listed libraries; no row is removed; pairs stay unique |
| UserForm.SubmitFormRows | app.py:151-167 | every listed library ends with the submitted flag and dates |
| UserForm.ExactlyOneRowPerLibrary | app.py:160-167 | with one row per pair before, each library has exactly one row for the user afterwards, the submitted one |
| UserForm.SubmitFormValid | app.py:151-181 | the committed rows keep the tables' integrity |
| UserForm.PushedKeysAppend | app.py:151-179 | keys are collected library by library, in table order |
| UserForm.PushedKeysOfOne | app.py:169-179 | one library's key is pushed iff its submitted window is open now |
| UserForm.PushedKeysMembers | app.py:151-179 | a key is pushed iff some library with that key has an open submitted window |
| UserForm.SavedRowIsSubmitted | app.py:160-167 | after the POST, the user's row for a library is the submitted one |
| UserForm.SavedKeysDefined | app.py:151-181 | the saved tables are valid and the scheduler's keys for the user are defined |
| UserForm.PushedKeyIsDesired | app.py:169-179 | a pushed key is one the next pass computes from the saved rows |
| UserForm.DesiredKeyIsPushed | app.py:169-179 | a key the next pass computes from the saved rows was pushed |
| UserForm.FormAgreesWithSchedule | app.py:169-179 | the POST pushes the same set of keys that `check_schedules` computes from the saved rows at the same instant (the form lists them in library order, the pass in share-row order) |
| UserForm.MalformedDateWritesNothing | app.py:156-157 | an unparsable date is a 500: nothing committed, nothing sent |
| UserForm.SavedBeforePush | app.py:181-190 | the rows are committed whatever the server answers; the flash is "Access updated successfully on Plex." or "Local saved, but Plex update failed: " and the message |
| App.FormRows | app.py:149-179 | the library loop finds a malformed date iff the form has one; otherwise it computes `SubmitForm` and `PushedKeys` |
| App.UserDetailsPost | app.py:139-190 | result, committed tables and requests are those of `UserDetails`; settings unchanged; integrity kept |
| App.SchedulerFlash | app.py:121-125 | success iff the pass raised nothing; otherwise "Scheduler failed: " and the error |
| App.RunScheduler | app.py:116-126 | one pass; the flash and the requests are those of `SchedulePass` |
| App.SchedulerSucceedsOnValidTables | app.py:116-126 | on tables with linked rows the manual run reports success and sends exactly the requests of a complete pass |

## Left out

- Flask routing, templates, login, sessions, the dashboard and the settings
  page are user interface. The role predicates are modelled; who may call
  which route is not.
- The APScheduler job (`run_schedule`, app.py:31-36) only runs one pass every
  hour. The pass is modelled; the timer is not. An exception in that job
  (the missing-library error) goes to the scheduler's log. That is not modelled.
- The `sync_plex` route (app.py:128-137) only shows the message of
  `sync_plex_data`, with an `Error: ` prefix on failure. It is not modelled.
- `datetime.now()` is an `Instant` parameter. The form handler reads the
  clock once per library; the model uses one instant for the whole request.
- `datetime.strptime` is abstracted as `DateInput`: blank, a parsed instant,
  or unparsable. The date format is not modelled.
- plexapi is a snapshot of the server's answers (`Remote.Server`).
  - `outage` covers every exception a request can raise: connection, token,
    `myPlexAccount`.
  - `failures` covers per-friend exceptions: `account.user` or
    `updateFriend`.
  - The exception text is the error message.
- `hasattr`/`callable` on a shared server's `sections` (plex_service.py:98-102)
  is abstracted as a list of section keys.
- `str(section.key) == str(key)` is compared as strings, and so is the
  unconverted `s.key == section.key` of the Default check (plex_service.py:160).
- `lower()` is modelled on ASCII letters only.
- Integer primary keys come from counters (`nextUserId`, `nextLibraryId`).
  Share rows have no id in the model, because nothing reads it.
- Rolling back the session after an exception is modelled by not committing.
- Logging, `print`, password hashing (`set_password`, `check_password`) and
  the `Settings` table's own id are left out. They do not affect sharing.
- The database, migration and debugging scripts and the test files are not
  part of this model.
- Parallel passes and the run exclusion are not modelled. Each pass runs to
  completion on one snapshot of the tables.
