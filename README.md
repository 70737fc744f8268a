# decipals — a Dafny model of the daily-theme and daily-post rules

decipals is a social music app. Each day every user posts one song, and
their friends' posts for the day stay locked until they have posted. A
daily theme is scheduled by admins. This project models the server-side
state logic behind that, plus two client-side validators, and proves
properties of the model.

- **Theme service** (`theme_service.dfy`, module `ThemeService`). The theme
  catalogue and the calendar of per-date assignments, which is upserted by
  date. It also holds the two `app_settings` rows: `current_theme_id` is a
  cached copy of today's resolved theme, and `last_reset_date` marks that
  the reset has run. The module-level daily reset job is modelled too.
  `Service` is a class whose methods update those fields in place. The
  read-only queries (`getScheduledTheme`, `getAllThemes`,
  `getScheduledThemes`) are functions.
- **Server handlers** (`server.dfy`, module `Server`). Class `Tables` holds
  the `daily_posts`, `likes`, `friends`, `comments` and
  `user_notification_settings` tables. Its methods are the handlers that
  change them. Most handlers return the HTTP status and message they
  answer with. `Tables.ToggleLike` returns the new like state and the user
  to notify instead. "## Left out" says which replies carry a row the
  model leaves out.
  - The feed lock and lock status are functions over the tables and the
    theme service.
  - The admin handlers (`PUT /admin/themes/:id`,
    `DELETE /admin/scheduled-themes/:id`, `POST /admin/activate-theme/:id`)
    are module-level methods of `Server` that take the theme service
    object as a parameter and update its fields.
  - The `updateFields`/`paramIndex` builders of the two PUT handlers are
    methods whose contracts say which placeholder binds which value.
- **Bearer middleware** (`jwt.dfy`, module `Jwt`). The header is split on
  `' '` exactly as JavaScript's `split` does. The signature check is a
  function parameter that gives the payload's user id or nothing.
- **Top-track selection** (`top_tracks.dfy`, module `TopTracks`).
  `toggleTrack`, the pre-selection loop of `loadData`, and the request loop
  of `saveTopTracks`.
- **Username validation** (`profile.dfy`, module `Profile`). The `isValid`
  flag, the ordered checks of `handleSaveProfile`, and the mapping of the
  server's refusals to messages.
- **JavaScript string semantics** (`js_string.dfy`, module `JsString`).
  - `trim` over the ECMAScript whitespace set.
  - `.length` in UTF-16 code units.
  - `Number#toString` for naturals.
  - `parseInt`: leading whitespace, sign, `0x` prefix, and NaN as `None`.

"Today" is an explicit `Date` parameter (a day number). A firing of the
midnight cron job is an explicit `Service.Tick(today)` call.

Where the code does something other than its evident design, the model
follows the code:
- `PUT /admin/themes/:id` can deactivate today's theme without refreshing
  `current_theme_id`. `UpdateTheme` states that the setting is left as it was.
- `/accept-friend-request` updates rows in both directions, so either party
  can accept.
- `/send-friend-request` does not stop users from sending a request to
  themselves.

There is one exception. `Server.DeleteScheduledTheme` treats
`scheduled_date === today` (server.js:1724) as a working date comparison,
which is what the handler evidently intends. "## Left out" says what the
code as written does there.

## Model

| member | source | states |
|---|---|---|
| `ThemeService.ActiveTheme` | services/themeService.js:116-121 | the theme found has the requested id and is active; nothing is found only when no active theme has that id |
| `ThemeService.ScheduledTheme` | services/themeService.js:87-108 | a resolved theme is an active catalogue theme with an assignment dated today; nothing resolves only when no assignment for today names an active theme |
| `ThemeService.ScheduledThemeIsTheAssignedOne` | services/themeService.js:38-45 | with one assignment per date and distinct theme ids, the `LIMIT 1` join returns the active theme assigned today, whatever the row order |
| `ThemeService.CacheValueNamesResolvedTheme` | services/themeService.js:49-62 | the cached text is `''` exactly when no theme resolves; otherwise `parseInt` of it gives back the theme's id |
| `ThemeService.RefreshIdempotent` | services/themeService.js:34-69 | refreshing the cached setting twice with no change in between writes what one refresh writes |
| `ThemeService.UpsertSpec` | services/themeService.js:123-155 | the upsert keeps one assignment per date and distinct ids, and puts exactly the given theme on the date. Every other date is unchanged. A row is added only when the date had none. The returned row keeps the existing row's id on the update path and takes the fresh id on the insert path |
| `ThemeService.ScheduledAfterUpsert` | services/themeService.js:123-160 | after an active theme is upserted for today, the live query resolves exactly that theme |
| `ThemeService.AllThemes` | services/themeService.js:170-188 | the result holds exactly the catalogue's themes, or only its active ones when `activeOnly` is set |
| `ThemeService.AllThemesDescending` | services/themeService.js:179 | the listed theme ids are strictly decreasing (`ORDER BY id DESC`) |
| `ThemeService.JoinInRange` | services/themeService.js:192-203 | a row is in the join exactly when an assignment dated between the bounds meets a theme with its theme id |
| `ThemeService.SortByDateSpec` | services/themeService.js:202 | ordering by date yields a permutation of the rows sorted by date |
| `ThemeService.ScheduledThemesSpec` | services/themeService.js:190-211 | getScheduledThemes returns exactly the join rows for dates in `[from, to]`, sorted by date |
| `ThemeService.Service.UpdateCurrentTheme` | services/themeService.js:34-69 | the `current_theme_id` row, if present, now holds today's resolved theme id or `''`. An absent row stays absent. The cache is fresh afterwards, and a fresh cache is not changed |
| `ThemeService.Service.PerformDailyReset` | services/themeService.js:72-85 | the reset refreshes the cached current theme and changes nothing else |
| `ThemeService.Service.Tick` | services/themeService.js:17-20 | a midnight firing refreshes the cache only while a reset job is scheduled |
| `ThemeService.Service.InitializeScheduler` | services/themeService.js:8-31 | any previous job is stopped and is no longer live. Exactly one new job is live, and the current theme is refreshed |
| `ThemeService.Service.ScheduleTheme` | services/themeService.js:112-168 | an unknown or inactive theme fails with "Theme not found or inactive" and changes nothing. Otherwise the calendar is upserted, the upserted row is returned, and the cache is refreshed exactly when the date is today. The assignment id counter advances exactly when a row was inserted |
| `ThemeService.Service.ManuallyActivateTheme` | services/themeService.js:213-233 | the result is true exactly for an active theme, and false changes nothing. On true, the theme is scheduled for today, the cache is refreshed, and today's resolved theme is that theme. The assignment id counter advances exactly when today had no row |
| `ThemeService.Service.CheckForMissedReset` | services/themeService.js:235-261 | afterwards the marker is today. If it already was, nothing changed; otherwise the reset ran |
| `JsString.TrimStart` | screens/InitialProfileScreen.js:82 | the result is a suffix of the input, every dropped character is whitespace, and the result does not start with whitespace |
| `JsString.TrimEnd` | screens/InitialProfileScreen.js:82 | the result is a prefix of the input, every dropped character is whitespace, and the result does not end with whitespace |
| `JsString.TrimIsSlice` | screens/InitialProfileScreen.js:82 | `trim()` is the slice between the leading and trailing whitespace, and it neither starts nor ends with whitespace |
| `JsString.Utf16Length` | screens/InitialProfileScreen.js:82 | `.length` counts between one and two units per character |
| `JsString.NatToString` | services/themeService.js:55 | `toString()` of a natural number is a non-empty string of decimal digits with no leading zero |
| `JsString.ParseIntOfNatToString` | server.js:499 | `parseInt` of a number's decimal text gives back the number |
| `Server.IsAdmin` | server.js:38-52 | the admin gate passes exactly users 1 and 2 |
| `Server.CachedIdMatchesLive` | server.js:494-503 | when the setting row exists and is fresh, the theme id a new post is stamped with is the id of the theme the live query resolves |
| `Server.PostThemeIdOfDecimal` | server.js:494-503 | a stored positive id is stamped. 0, an empty value and an absent row all stamp NULL |
| `Server.PostOn` | server.js:507-513 | the post found is the caller's and is dated today; nothing is found only when the caller has no post dated today |
| `Server.FriendIds` | server.js:713-724 | a user is a friend exactly when an accepted row links them to the caller in either direction |
| `Server.TodaysPosts` | server.js:724-753 | the feed holds exactly the posts dated today by the caller or by an accepted friend |
| `Server.Tables.CheckLockStatus` | server.js:1396-1422 | locked exactly when the caller has no post dated today. The reported theme is today's live theme, whatever the lock state |
| `Server.Tables.Feed` | server.js:691-760 | without a post today the lock message and today's theme replace the posts. With one, the reply is today's posts by the caller and their friends |
| `Server.Tables.DailyPost` | server.js:489-566 | an existing post for today is overwritten in place: song, theme id, date. Otherwise one post is added. Either way it is stamped with the cached theme id, and one post per user per day is kept. The caller is no longer locked. The post id counter advances exactly when a post was added |
| `Server.Tables.ToggleLike` | server.js:820-885 | (user, post) membership in `likes` flips, and `liked` is the membership afterwards. The post's owner is notified of a new like unless the liker owns the post |
| `Server.Tables.SendFriendRequest` | server.js:568-603 | an unknown username gives 404 and an existing row in either direction gives 400, both changing nothing. Otherwise exactly one pending row from the caller is added, with the next row id, and the row counter advances by one |
| `Server.AcceptBetween` | server.js:655-662 | exactly the rows linking the two users, in either direction, become accepted. Ids, ends and all other rows are kept |
| `Server.AcceptMakesFriends` | server.js:651-668 | after accepting, the other user is a friend exactly when a row linked the two. Every other user's friendship with the caller is unchanged |
| `Server.Tables.AcceptFriendRequest` | server.js:651-668 | the friends table becomes `AcceptBetween` of the old one, and the reply is 200 |
| `Server.RemoveRequest` | server.js:637-642 | a row is removed exactly when it has the given id and the caller is its target |
| `Server.Tables.RejectFriendRequest` | server.js:632-649 | only the matching request addressed to the caller is deleted, and the reply is 200 |
| `Server.DeleteCommentStatus` | server.js:958-972 | the status is 200 exactly when the comment and its post exist and the caller wrote the comment or owns the post. It is 404 exactly when the comment or its post is missing, and 403 exactly when both exist but the caller is neither the commenter nor the post owner |
| `Server.CommentByIdUnique` | server.js:958-963 | comment ids are distinct, so the row the lookup picks is the only row with that id |
| `Server.Tables.DeleteComment` | server.js:954-986 | the status follows `DeleteCommentStatus`. A 404 answers "Comment not found" and a 403 "Not authorized to delete this comment", and neither changes anything. On 200 ("Comment deleted successfully") exactly that comment is removed, and comment ids stay distinct |
| `Server.RemovePost` | server.js:1330-1334 | a post is kept exactly when its id differs from the deleted one |
| `Server.RemovePostKeepsInvariants` | server.js:1330-1334 | deleting a post keeps one post per user per day and distinct post ids |
| `Server.Tables.DeletePost` | server.js:1311-1345 | a post the caller does not own gives 404 and changes nothing. Otherwise it is deleted, and `feedLocked` says whether it was dated today, in which case the caller is locked again |
| `Server.Tables.ToggleVisibility` | server.js:1068-1094 | a post the caller does not own gives 403. Otherwise its `hidden` flag (NULL read as false) is negated and nothing else changes |
| `Server.VisiblePosts` | server.js:1096-1128 | the owner sees all their posts; another viewer sees exactly the target's posts that are not hidden |
| `Server.NotificationSetClauses` | server.js:1464-1486 | the SET list is exactly `NotificationClauses`, in order. Clause `k` is numbered `$(k+2)` and binds its flag's value, and the user id is `$1` |
| `Server.NotificationClausesSpec` | server.js:1464-1486 | there is one clause per flag given and no other. Every given flag has a clause, no column appears twice, and each clause binds the value given for its own column |
| `Server.Tables.UpdateNotificationSettings` | server.js:1459-1522 | no flag gives 400. Otherwise the caller's row is inserted or updated with exactly the given flags replaced, and other users' rows are unchanged |
| `Server.SetClauses` | server.js:1612-1629 | one clause per field given, with placeholders numbered from `$2` in order. Each placeholder binds the value given for its column, and the theme id is `$1` |
| `Server.UpdateTheme` | server.js:1607-1654 | no field gives 400 and an unknown theme gives 404. Otherwise exactly the given fields of that theme change. The current-theme setting is not refreshed |
| `Server.DeleteScheduledTheme` | server.js:1696-1736 | an unknown assignment gives 404 and changes nothing. Otherwise exactly that assignment is removed, and the cache is refreshed exactly when its date is today |
| `Server.RemoveAssignmentKeepsCalendar` | server.js:1713-1714 | removing one assignment keeps one assignment per date and distinct ids |
| `Server.NoThemeAfterDeletingToday` | server.js:1713-1726 | once today's assignment is deleted, no theme resolves for today |
| `Server.ActivateTheme` | server.js:1738-1764 | a parameter that `parseInt` rejects gives 400 "Invalid theme ID" and changes nothing. Otherwise the reply is 200 exactly for an active theme; any other theme gives 400 "Failed to activate theme" and changes nothing. On 200 the calendar is the upsert of that theme for today, the cache is refreshed from the new calendar, the theme resolves for today, and the message names the theme id. The assignment id counter advances exactly when today had no row |
| `Jwt.JoinSplit` | verifyJWT.js:10 | joining the pieces of `split(' ')` with single spaces gives back the header |
| `Jwt.SplitShape` | verifyJWT.js:10-11 | `split(' ')` yields one piece more than there are spaces, and no piece holds a space |
| `Jwt.BearerTokenExactly` | verifyJWT.js:10-14 | the header passes the two-piece `Bearer` check with token `t` exactly when it is `"Bearer " + t` and `t` holds no space |
| `Jwt.VerifyJwt` | verifyJWT.js:5-22 | an absent or empty header gives 401 "No authorization header provided". Every refusal is a 401. The route runs only with the id the verifier gave for the header's token |
| `Jwt.VerifyJwtOfWellFormed` | verifyJWT.js:14-21 | for a well-formed header the verifier alone decides. The route runs with the payload's id, or the reply is 401 "Invalid or expired token" |
| `Jwt.VerifyJwtOfMalformed` | verifyJWT.js:10-13 | any other non-empty header gives 401 "Malformed authorization header" |
| `TopTracks.ToggleTrack` | screens/ManageTopTracksScreen.js:100-113 | the toggled id is selected afterwards exactly when it was not selected and fewer than 10 were. No other id changes membership |
| `TopTracks.DeselectRemovesEntry` | screens/ManageTopTracksScreen.js:102-104 | deselecting removes exactly that entry and keeps the others in order |
| `TopTracks.SelectAtCapRefused` | screens/ManageTopTracksScreen.js:106-108 | with 10 or more selected, a new id leaves the selection unchanged |
| `TopTracks.SelectBelowCapAppends` | screens/ManageTopTracksScreen.js:111 | with fewer than 10 selected, a new id is appended at the end |
| `TopTracks.ToggleKeepsSelectionValid` | screens/ManageTopTracksScreen.js:100-113 | a selection of at most 10 distinct ids stays one |
| `TopTracks.SelectThenDeselect` | screens/ManageTopTracksScreen.js:100-113 | selecting a new id below the cap and toggling it again restores the selection |
| `TopTracks.PreSelect` | screens/ManageTopTracksScreen.js:76-85 | the push loop builds `PreSelection` of the tracks and the saved ids |
| `TopTracks.PreSelectionIsFilter` | screens/ManageTopTracksScreen.js:76-85 | the pre-selection is exactly the Spotify track ids, in Spotify order, that occur among the saved ids |
| `TopTracks.NothingSavedNothingSelected` | screens/ManageTopTracksScreen.js:78 | with no saved ids nothing is pre-selected |
| `TopTracks.FindTrack` | screens/ManageTopTracksScreen.js:133 | the track found is the first listed track with the id. Nothing is found only when no listed track has it |
| `TopTracks.SaveTopTracks` | screens/ManageTopTracksScreen.js:131-148 | there is one request per selected id that names a listed track, in selection order. Its `displayOrder` is that id's position in the selection, and ids without a track are skipped |
| `Profile.CheckUsername` | screens/InitialProfileScreen.js:193-206 | the first failing check decides the message. Empty after trimming gives "Username cannot be empty". Shorter than 3 UTF-16 units after trimming gives the length message. Otherwise, characters outside `[a-zA-Z0-9_]` give the charset message. A submitted name is the trimmed input |
| `Profile.SubmitExactlyWhenValid` | screens/InitialProfileScreen.js:193-206 | the save-time checks submit exactly when the `isValid` flag (screens/InitialProfileScreen.js line 82) holds |
| `Profile.SubmittedNameIsTyped` | screens/InitialProfileScreen.js:224-236 | a submitted name has no whitespace, so `username.trim()` is exactly what was typed, and it has at least 3 characters |
| `Profile.RefusalMessage` | screens/InitialProfileScreen.js:248-254 | a 400 mentioning "already taken" shows the taken message. Otherwise, an error mentioning "empty" shows the empty-name message, and any other non-empty error is shown as it is. An absent or empty error shows the default text, so the message is never empty |
| `Profile.TakenRefusal` | screens/InitialProfileScreen.js:248-249 | the server's "This username is already taken." refusal shows the taken message |
| `Profile.EmptyRefusal` | screens/InitialProfileScreen.js:250-251 | the server's "Custom username cannot be empty." refusal shows the empty-name message |

## Left out

- Time and the clock.
  - Wall-clock reads (`new Date()`, `NOW()`, `CURRENT_DATE`) are replaced by the `today` parameter.
  - One `Date` type stands for both JavaScript's UTC `toISOString` day and the database's `CURRENT_DATE`. Around midnight in a non-UTC zone they can differ, and the model does not capture that.
  - The top-track count check (server.js:1242) compares a string with a number. That handler is not part of this model.
- node-cron itself and any concurrency between a cron firing and requests are not modelled. A firing is `Service.Tick`.
- Store errors are not modelled. In the source, a failed query makes the theme service return `false` or `null`, or rethrow. The route handlers' own `catch` blocks then answer with an error status.
- `scheduleTheme` checks and then inserts in two steps. The race between them is not modelled.
- SQL text, connection pooling, and schema-level cascades when a post, user or theme is deleted are not modelled.
- Theme catalogue changes (`POST /admin/themes`), `/add-comment` and the other handlers of server.js are not part of this model.
- Spotify, Azure Blob upload, APNs delivery and JWT signing are not modelled. The JWT check is the `verify` parameter.
- Screens other than the two named functions, React state and navigation are not modelled.
- `ThemeService.ScheduledTheme`: the SQL `LIMIT 1` has no `ORDER BY`, so any matching row may come back. The model returns the first in table order, and its contract states only the properties every matching row has. `ScheduledThemeIsTheAssignedOne` shows the row is determined when the calendar is well formed.
- `ThemeService.Service.InitializeScheduler`: only the replacement of the job is modelled, not its timing.
- `Server.Tables.Feed`: the feed's `ORDER BY post_date DESC`, like counts, `user_liked` and the joined user columns are not modelled. Posts come in table order.
- `Server.VisiblePosts`: `ORDER BY post_date DESC LIMIT 800` is not modelled, so the contract covers which posts appear but not their order or the cap.
- `Server.UpdateTheme` and `Server.Tables.UpdateNotificationSettings`: on success the source sends the updated row as JSON (server.js:1648, server.js:1517). The model answers 200 with an empty message and states the updated row through the new table state instead.
- `Server.Tables.ToggleLike`: the push notification itself is I/O. The model returns only the user it would go to.
- `Server.Tables.DailyPost`: `post_date = NOW()` is modelled as the day only.
- `Server.Tables.UpdateNotificationSettings`: the columns' default values are not in the source, so they are a parameter. The INSERT's `VALUES` list finds placeholders with `queryParams.indexOf`. Equal flags then share a placeholder, which binds the same value, so the stored row is unaffected. The model does not spell this out.
- `Jwt.VerifyJwt`: the token payload is reduced to the user id, and calling `next` is the `Next` outcome.
- `TopTracks.SaveTopTracks`: the preceding `DELETE /top-tracks/all` and the failure of any POST, which stops the loop, are I/O. The model produces the requests of a run in which every call succeeds.
- `Server.DeleteScheduledTheme`: `scheduled_date === today` (server.js:1724) is modelled as a date comparison. node-postgres normally returns a `Date` object for that column, so as written the comparison may never hold and the refresh may never run.
- `JsString.ParseIntOfNatToString`: `parseInt`'s loss of precision past 2^53 is not modelled. Integers are unbounded.
